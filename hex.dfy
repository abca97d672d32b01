/** Hex text for byte strings: the "{:02x}" rendering used by
    `_to_hex_string` and by the SPI write packets, and the decoding done by
    `bytearray.fromhex` on SPI replies. */
module Hex {
  import opened Results

  type byte = b: int | 0 <= b < 256

  /** The digits "{:02x}" writes: 0-9 and lower-case a-f. */
  predicate IsLowerHexDigit(c: char) {
    '0' <= c <= '9' || 'a' <= c <= 'f'
  }

  /** The lower-case hex digit for 0 <= d < 16. */
  function HexDigitChar(d: int): (c: char)
    requires 0 <= d < 16
  {
    if d < 10 then (d + '0' as int) as char else (d - 10 + 'a' as int) as char
  }

  /** The value of one hex digit in either case, None for any other char. */
  function HexValue(c: char): (r: Option<int>)
    ensures r.Some? ==> 0 <= r.value < 16
  {
    if '0' <= c <= '9' then Some(c as int - '0' as int)
    else if 'a' <= c <= 'f' then Some(c as int - 'a' as int + 10)
    else if 'A' <= c <= 'F' then Some(c as int - 'A' as int + 10)
    else None
  }

  lemma HexValueOfDigit(d: int)
    requires 0 <= d < 16
    ensures IsLowerHexDigit(HexDigitChar(d))
    ensures HexValue(HexDigitChar(d)) == Some(d)
  {
  }

  /** Python's ASCII whitespace, which fromhex skips between byte pairs. */
  predicate IsSpace(c: char) {
    c == ' ' || c == '\t' || c == '\n' || c == '\r' || c == '\U{0B}' || c == '\U{0C}'
  }

  /** "{:02x}".format(b): two lower-case hex digits, high nibble first. */
  function ByteToHex(b: byte): (r: string)
    ensures |r| == 2
    ensures b < 16 ==> r[0] == '0'
  {
    [HexDigitChar(b / 16), HexDigitChar(b % 16)]
  }

  /** The two digits of a byte's rendering are lower-case and read back as
      its high and low nibble. */
  lemma ByteToHexDigits(b: byte)
    ensures IsLowerHexDigit(ByteToHex(b)[0]) && IsLowerHexDigit(ByteToHex(b)[1])
    ensures HexValue(ByteToHex(b)[0]) == Some(b / 16) && HexValue(ByteToHex(b)[1]) == Some(b % 16)
  {
    HexValueOfDigit(b / 16);
    HexValueOfDigit(b % 16);
  }

  /** `_to_hex_string`: the two-digit renderings of the bytes, joined. */
  function ToHexString(bytes: seq<byte>): (r: string)
    ensures |r| == 2 * |bytes|
  {
    if |bytes| == 0 then "" else ByteToHex(bytes[0]) + ToHexString(bytes[1..])
  }

  /** Characters 2i and 2i+1 of the hex string render byte i. */
  lemma {:induction false} ToHexStringAt(bytes: seq<byte>, i: int)
    requires 0 <= i < |bytes|
    ensures ToHexString(bytes)[2 * i] == ByteToHex(bytes[i])[0]
    ensures ToHexString(bytes)[2 * i + 1] == ByteToHex(bytes[i])[1]
  {
    if i > 0 {
      ToHexStringAt(bytes[1..], i - 1);
    }
  }

  /** The same, as the two-character slice. */
  lemma ToHexStringSlice(bytes: seq<byte>, i: int)
    requires 0 <= i < |bytes|
    ensures ToHexString(bytes)[2 * i..2 * i + 2] == ByteToHex(bytes[i])
  {
    ToHexStringAt(bytes, i);
    var r := ToHexString(bytes)[2 * i..2 * i + 2];
    assert |r| == 2 && r[0] == ByteToHex(bytes[i])[0] && r[1] == ByteToHex(bytes[i])[1];
  }

  /** Every byte's rendering sits at its place in the hex string. */
  lemma ToHexStringRendersEachByte(bytes: seq<byte>)
    ensures forall i :: 0 <= i < |bytes| ==> ToHexString(bytes)[2 * i..2 * i + 2] == ByteToHex(bytes[i])
  {
    forall i | 0 <= i < |bytes| ensures ToHexString(bytes)[2 * i..2 * i + 2] == ByteToHex(bytes[i]) {
      ToHexStringSlice(bytes, i);
    }
  }

  /** Rendering distributes over concatenation, so the hex string can be
      grown one byte at a time. */
  lemma {:induction false} ToHexStringAppend(a: seq<byte>, b: seq<byte>)
    ensures ToHexString(a + b) == ToHexString(a) + ToHexString(b)
  {
    if |a| > 0 {
      assert (a + b)[1..] == a[1..] + b;
      ToHexStringAppend(a[1..], b);
    } else {
      assert a + b == b;
    }
  }

  /** `bytearray.fromhex`: whitespace between byte pairs is skipped, each pair
      is two hex digits in either case, anything else is a ValueError (None). */
  function FromHex(s: string): (r: Option<seq<byte>>)
    ensures r.Some? ==> 2 * |r.value| <= |s|
    ensures s != [] && !IsSpace(s[0]) && HexValue(s[0]).None? ==> r.None?
    decreases |s|
  {
    if |s| == 0 then Some([])
    else if IsSpace(s[0]) then FromHex(s[1..])
    else if |s| >= 2 && HexValue(s[0]).Some? && HexValue(s[1]).Some? then
      match FromHex(s[2..])
      case None => None
      case Some(rest) => Some([HexValue(s[0]).value * 16 + HexValue(s[1]).value] + rest)
    else None
  }

  /** Decoding a rendered byte in front of more text. */
  lemma FromHexByteToHex(b: byte, t: string)
    ensures FromHex(ByteToHex(b) + t) ==
      match FromHex(t)
      case None => None
      case Some(rest) => Some([b] + rest)
  {
    var h := ByteToHex(b);
    ByteToHexDigits(b);
    var s := h + t;
    assert s[0] == h[0] && s[1] == h[1] && s[2..] == t;
    HexDigitIsNotSpace(s[0]);
    assert HexValue(s[0]) == Some(b / 16) && HexValue(s[1]) == Some(b % 16);
    assert (b / 16) * 16 + b % 16 == b;
  }

  lemma HexDigitIsNotSpace(c: char)
    requires HexValue(c).Some?
    ensures !IsSpace(c)
  {
  }

  /** Decoding the hex rendering gives back the bytes. */
  lemma {:induction false} FromHexToHexString(bytes: seq<byte>)
    ensures FromHex(ToHexString(bytes)) == Some(bytes)
  {
    if |bytes| > 0 {
      FromHexToHexString(bytes[1..]);
      FromHexByteToHex(bytes[0], ToHexString(bytes[1..]));
      assert [bytes[0]] + bytes[1..] == bytes;
    }
  }

  /** Whitespace in front of the hex text, as in the SPI reply payloads, is
      skipped. */
  lemma {:induction false} FromHexSkipsLeadingSpace(pad: string, s: string)
    requires forall i :: 0 <= i < |pad| ==> IsSpace(pad[i])
    ensures FromHex(pad + s) == FromHex(s)
    decreases |pad|
  {
    if |pad| > 0 {
      assert (pad + s)[1..] == pad[1..] + s;
      FromHexSkipsLeadingSpace(pad[1..], s);
    } else {
      assert pad + s == s;
    }
  }
}
