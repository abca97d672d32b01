/** The SPI driver's protocol as functions: the command lines it sends and
    how it judges and slices the reply lines it gets back. */
module SpiProtocol {
  import opened Results
  import opened Text
  import opened Hex

  /** The exceptions the driver can raise, and a missing reply. */
  datatype SpiError =
    | RuntimeError(message: string)
    | ValueError(text: string)
    | IndexError
    | TypeError
    | NoReply

  /** What writeToReadFrom is given as `data`: a byte buffer to write, or one
      byte value to repeat while only reading. */
  datatype SpiData = Buffer(bytes: seq<byte>) | Value(value: byte)

  /** Where the value starts in each query reply. */
  const ClockOffset: nat := 10
  const OrderOffset: nat := 12
  const ModeOffset: nat := 11
  const BitsOffset: nat := 13
  /** Where the hex data starts in an RXD reply. */
  const RxdOffset: nat := 9

  function Subsystem(index: nat): (r: string)
    ensures |r| > 3 && r[..3] == "SPI" && ParseInt(r[3..]) == Some(index)
  {
    var digits := NatToString(index);
    IntToStringRoundTrip(index);
    assert ("SPI" + digits)[3..] == digits;
    "SPI" + digits
  }

  /** "SPI<index> <verb> ?": ask for a setting. */
  function QueryCommand(index: nat, verb: string): (r: string)
    ensures r == SetCommand(index, verb, "?")
  {
    Subsystem(index) + " " + verb + " ?"
  }

  /** "SPI<index> <verb> <argument>": change a setting or transfer data. */
  function SetCommand(index: nat, verb: string, argument: string): (r: string)
    ensures StartsWith(r, ActionCommand(index, verb) + " ")
    ensures r[|ActionCommand(index, verb)| + 1..] == argument
  {
    Subsystem(index) + " " + verb + " " + argument
  }

  /** "SPI<index> <verb>": BEGIN or END. */
  function ActionCommand(index: nat, verb: string): (r: string)
    ensures StartsWith(r, Subsystem(index) + " ")
    ensures r[|Subsystem(index)| + 1..] == verb
  {
    Subsystem(index) + " " + verb
  }

  /** "-SPI<index> <tag>": how a reply carrying data starts. */
  function ReplyTag(index: nat, tag: string): (r: string)
    ensures r == "-" + ActionCommand(index, tag)
  {
    "-" + Subsystem(index) + " " + tag
  }

  /** The RuntimeError text for an unexpected reply. */
  function Complaint(reply: string, expected: string): (r: string)
    ensures |r| == 48 + |reply| + |expected|
    ensures StartsWith(r, "Error Binho responded with ")
    ensures r[27..27 + |reply|] == reply
    ensures r[|r| - |expected| - 1..|r| - 1] == expected
  {
    "Error Binho responded with " + reply + ", not the expected \"" + expected + "\""
  }

  /** A reply that must start with "-OK"; success is reported as True. */
  function OkReply(reply: Option<string>): (r: Result<bool, SpiError>)
    ensures r.Ok? <==> reply.Some? && StartsWith(reply.value, "-OK")
    ensures r.Ok? ==> r.value
    ensures reply.Some? && r.Err? ==> r.error == RuntimeError(Complaint(reply.value, "-OK"))
    ensures reply.None? ==> r == Err(NoReply)
  {
    match reply
    case None => Err(NoReply)
    case Some(result) =>
      if !StartsWith(result, "-OK") then Err(RuntimeError(Complaint(result, "-OK"))) else Ok(true)
  }

  /** The reply to END: as OkReply, except that with suppressError a refusal
      gives None instead of raising. */
  function EndReply(reply: Option<string>, suppressError: bool): (r: Result<Option<bool>, SpiError>)
    ensures r == Ok(Some(true)) <==> reply.Some? && StartsWith(reply.value, "-OK")
    ensures r == Ok(None) <==> suppressError && reply.Some? && !StartsWith(reply.value, "-OK")
    ensures r.Err? ==> r.error == (if reply.None? then NoReply else RuntimeError(Complaint(reply.value, "-OK")))
    ensures reply.None? ==> r == Err(NoReply)
    ensures reply.Some? && !StartsWith(reply.value, "-OK") && !suppressError ==>
              r == Err(RuntimeError(Complaint(reply.value, "-OK")))
  {
    match reply
    case None => Err(NoReply)
    case Some(result) =>
      if !StartsWith(result, "-OK") then
        if !suppressError then Err(RuntimeError(Complaint(result, "-OK"))) else Ok(None)
      else Ok(Some(true))
  }

  /** The reply to a query: it must start with "-SPI<index> <tag>", and the
      value is whatever follows position `offset`. */
  function QueryPayload(index: nat, tag: string, offset: nat, reply: Option<string>): (r: Result<string, SpiError>)
    ensures r.Ok? <==> reply.Some? && StartsWith(reply.value, ReplyTag(index, tag))
    ensures r.Ok? && offset <= |reply.value| ==> reply.value[..offset] + r.value == reply.value
    ensures r.Ok? && offset > |reply.value| ==> r.value == ""
    ensures reply.Some? && r.Err? ==> r.error == RuntimeError(Complaint(reply.value, ReplyTag(index, tag)))
    ensures reply.None? ==> r == Err(NoReply)
  {
    match reply
    case None => Err(NoReply)
    case Some(result) =>
      if !StartsWith(result, ReplyTag(index, tag)) then Err(RuntimeError(Complaint(result, ReplyTag(index, tag))))
      else Ok(SliceFrom(result, offset))
  }

  /** The reply to a numeric query: the payload read as a decimal int. */
  function IntReply(index: nat, tag: string, offset: nat, reply: Option<string>): (r: Result<int, SpiError>)
    ensures r.Ok? <==> QueryPayload(index, tag, offset, reply).Ok?
                       && ParseInt(QueryPayload(index, tag, offset, reply).value).Some?
    ensures r.Ok? ==> QueryPayload(index, tag, offset, reply).Ok?
                      && ParseInt(QueryPayload(index, tag, offset, reply).value) == Some(r.value)
    ensures QueryPayload(index, tag, offset, reply).Err? ==> r.Err? && r.error == QueryPayload(index, tag, offset, reply).error
    ensures QueryPayload(index, tag, offset, reply).Ok? && r.Err? ==>
              r.error == ValueError(QueryPayload(index, tag, offset, reply).value)
  {
    match QueryPayload(index, tag, offset, reply)
    case Err(e) => Err(e)
    case Ok(text) =>
      match ParseInt(text)
      case None => Err(ValueError(text))
      case Some(n) => Ok(n)
  }

  /** The reply to TXRX: "-SPI<index> RXD" then hex bytes from position 9. */
  function RxdReply(index: nat, reply: Option<string>): (r: Result<seq<byte>, SpiError>)
    ensures r.Ok? <==> QueryPayload(index, "RXD", RxdOffset, reply).Ok?
                       && FromHex(QueryPayload(index, "RXD", RxdOffset, reply).value).Some?
    ensures r.Ok? ==> Some(r.value) == FromHex(QueryPayload(index, "RXD", RxdOffset, reply).value)
    ensures QueryPayload(index, "RXD", RxdOffset, reply).Err? ==>
              r == Err(QueryPayload(index, "RXD", RxdOffset, reply).error)
    ensures QueryPayload(index, "RXD", RxdOffset, reply).Ok? && r.Err? ==>
              r.error == ValueError(QueryPayload(index, "RXD", RxdOffset, reply).value)
  {
    match QueryPayload(index, "RXD", RxdOffset, reply)
    case Err(e) => Err(e)
    case Ok(text) =>
      match FromHex(text)
      case None => Err(ValueError(text))
      case Some(bytes) => Ok(bytes)
  }

  /** The reply to WHR: "-OK" and no data when not reading; otherwise the
      literal "-SPI0 RXD " and the hex bytes from position 9. */
  function WhrReply(read: bool, reply: Option<string>): (r: Result<seq<byte>, SpiError>)
    ensures !read ==> (r.Ok? <==> OkReply(reply).Ok?)
    ensures !read && r.Ok? ==> r.value == []
    ensures read && r.Ok? ==> reply.Some? && StartsWith(reply.value, "-SPI0 RXD ")
                              && FromHex(reply.value[RxdOffset..]) == Some(r.value)
    ensures read && reply.Some? && !StartsWith(reply.value, "-SPI0 RXD ") ==>
              r == Err(RuntimeError(Complaint(reply.value, "-SPI0 RXD ...")))
    ensures read ==> (r.Ok? <==> reply.Some? && StartsWith(reply.value, "-SPI0 RXD ")
                                 && FromHex(reply.value[RxdOffset..]).Some?)
    ensures read && reply.Some? && StartsWith(reply.value, "-SPI0 RXD ") && r.Err? ==>
              r.error == ValueError(reply.value[RxdOffset..])
    ensures !read && reply.Some? && r.Err? ==> r.error == RuntimeError(Complaint(reply.value, "-OK"))
    ensures reply.None? ==> r == Err(NoReply)
  {
    match reply
    case None => Err(NoReply)
    case Some(result) =>
      if !read then
        if !StartsWith(result, "-OK") then Err(RuntimeError(Complaint(result, "-OK"))) else Ok([])
      else if !StartsWith(result, "-SPI0 RXD ") then Err(RuntimeError(Complaint(result, "-SPI0 RXD ...")))
      else
        match FromHex(SliceFrom(result, RxdOffset))
        case None => Err(ValueError(SliceFrom(result, RxdOffset)))
        case Some(bytes) => Ok(bytes)
  }

  /** The hex data field of a WHR command, or the exception raised while
      building it: the first numBytes bytes of the buffer when writing, "0"
      when writing nothing, and the one byte value repeated when only reading. */
  function WhrPacket(write: bool, numBytes: int, data: SpiData): (r: Result<string, SpiError>)
    ensures r.Err? <==> numBytes > 0 && (if write then data.Value? || numBytes > |data.bytes| else data.Buffer?)
    ensures write && numBytes <= 0 ==> r == Ok("0")
    ensures !write && numBytes <= 0 ==> r == Ok("")
    ensures write && r.Ok? && numBytes > 0 ==>
              |r.value| == 2 * numBytes &&
              forall i :: 0 <= i < numBytes ==> r.value[2 * i..2 * i + 2] == ByteToHex(data.bytes[i])
    ensures !write && r.Ok? && numBytes > 0 ==>
              |r.value| == 2 * numBytes &&
              forall i :: 0 <= i < numBytes ==> r.value[2 * i..2 * i + 2] == ByteToHex(data.value)
  {
    if write then
      if numBytes > 0 then
        match data
        case Value(_) => Err(TypeError)
        case Buffer(bytes) =>
          if numBytes <= |bytes| then
            ToHexStringRendersEachByte(bytes[..numBytes]);
            Ok(ToHexString(bytes[..numBytes]))
          else Err(IndexError)
      else Ok("0")
    else if numBytes <= 0 then Ok("")
    else
      match data
      case Buffer(_) => Err(TypeError)
      case Value(v) =>
        var repeated := seq(numBytes, _ => v);
        assert forall i :: 0 <= i < numBytes ==> ToHexString(repeated)[2 * i..2 * i + 2] == ByteToHex(v) by {
          forall i | 0 <= i < numBytes ensures ToHexString(repeated)[2 * i..2 * i + 2] == ByteToHex(v) {
            ToHexStringSlice(repeated, i);
          }
        }
        Ok(ToHexString(repeated))
  }

  /** "SPI<index> WHR <flag> <numBytes> <packet>", the flag "1" for a write
      that reads nothing back. */
  function WhrCommand(index: nat, read: bool, numBytes: int, packet: string): string {
    Subsystem(index) + " WHR " + (if read then "0" else "1") + " " + IntToString(numBytes) + " " + packet
  }

  /** WHR is the set command for "WHR" whose argument carries the flag, the
      byte count and the packet, and the command ends with the packet. */
  lemma WhrCommandFields(index: nat, read: bool, numBytes: int, packet: string)
    ensures WhrCommand(index, read, numBytes, packet)
            == SetCommand(index, "WHR", (if read then "0" else "1") + " " + IntToString(numBytes) + " " + packet)
    ensures var r := WhrCommand(index, read, numBytes, packet);
            |packet| < |r| && r[|r| - |packet|..] == packet
            && r[|ActionCommand(index, "WHR")| + 1] == (if read then '0' else '1')
  {
    var argument := (if read then "0" else "1") + " " + IntToString(numBytes) + " " + packet;
    var r := WhrCommand(index, read, numBytes, packet);
    assert r == SetCommand(index, "WHR", argument);
    assert r[|r| - |packet|..] == argument[|argument| - |packet|..];
  }

  /** A device that answers a numeric query with "-SPI<index> <tag> <n>" is
      read back as n: the offset must be one past the tag. */
  lemma IntReplyRoundTrip(index: nat, tag: string, n: int)
    ensures IntReply(index, tag, |ReplyTag(index, tag)| + 1, Some(ReplyTag(index, tag) + " " + IntToString(n))) == Ok(n)
  {
    var reply := ReplyTag(index, tag) + " " + IntToString(n);
    assert reply[..|ReplyTag(index, tag)|] == ReplyTag(index, tag);
    assert SliceFrom(reply, |ReplyTag(index, tag)| + 1) == IntToString(n);
    IntToStringRoundTrip(n);
  }

  lemma TagsAtIndexZero()
    ensures ReplyTag(0, "CLK") == "-SPI0 CLK" && ReplyTag(0, "MODE") == "-SPI0 MODE"
    ensures ReplyTag(0, "TXBITS") == "-SPI0 TXBITS" && ReplyTag(0, "ORDER") == "-SPI0 ORDER"
    ensures ReplyTag(0, "RXD") == "-SPI0 RXD"
  {
    assert Subsystem(0) == "SPI0";
  }

  /** The offsets the getters use are the tag lengths plus one, so each of
      them reads back the value the device reports. */
  lemma ClockRoundTrip(n: int)
    ensures IntReply(0, "CLK", ClockOffset, Some("-SPI0 CLK " + IntToString(n))) == Ok(n)
  {
    TagsAtIndexZero();
    IntReplyRoundTrip(0, "CLK", n);
  }

  lemma ModeRoundTrip(n: int)
    ensures IntReply(0, "MODE", ModeOffset, Some("-SPI0 MODE " + IntToString(n))) == Ok(n)
  {
    TagsAtIndexZero();
    IntReplyRoundTrip(0, "MODE", n);
  }

  lemma BitsRoundTrip(n: int)
    ensures IntReply(0, "TXBITS", BitsOffset, Some("-SPI0 TXBITS " + IntToString(n))) == Ok(n)
  {
    TagsAtIndexZero();
    IntReplyRoundTrip(0, "TXBITS", n);
  }

  lemma OrderRoundTrip(order: string)
    ensures QueryPayload(0, "ORDER", OrderOffset, Some("-SPI0 ORDER " + order)) == Ok(order)
  {
    TagsAtIndexZero();
    var reply := "-SPI0 ORDER " + order;
    assert reply[..|ReplyTag(0, "ORDER")|] == ReplyTag(0, "ORDER");
    assert reply[OrderOffset..] == order;
  }

  /** The hex data of an RXD reply, from position 9 with the space still in
      front, decodes to the bytes the device rendered. */
  lemma {:induction false} RxdPayloadDecodes(bytes: seq<byte>)
    ensures StartsWith("-SPI0 RXD " + ToHexString(bytes), "-SPI0 RXD ")
    ensures FromHex(SliceFrom("-SPI0 RXD " + ToHexString(bytes), RxdOffset)) == Some(bytes)
  {
    var reply := "-SPI0 RXD " + ToHexString(bytes);
    assert reply[..10] == "-SPI0 RXD ";
    assert reply[RxdOffset..] == " " + ToHexString(bytes);
    FromHexSkipsLeadingSpace(" ", ToHexString(bytes));
    FromHexToHexString(bytes);
  }

  /** Bytes the device reports in hex after "-SPI0 RXD " come back unchanged
      from TXRX. */
  lemma RxdRoundTrip(bytes: seq<byte>)
    ensures RxdReply(0, Some("-SPI0 RXD " + ToHexString(bytes))) == Ok(bytes)
  {
    TagsAtIndexZero();
    var reply := "-SPI0 RXD " + ToHexString(bytes);
    assert reply[..|ReplyTag(0, "RXD")|] == ReplyTag(0, "RXD");
    RxdPayloadDecodes(bytes);
  }

  /** ... and from a reading WHR. */
  lemma WhrReadRoundTrip(bytes: seq<byte>)
    ensures WhrReply(true, Some("-SPI0 RXD " + ToHexString(bytes))) == Ok(bytes)
  {
    RxdPayloadDecodes(bytes);
  }
}
