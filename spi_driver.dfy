/** binhoSPIDriver: each operation sends one command line over the adapter's
    connection, reads one reply line and judges it. */
module SpiDriver {
  import opened Results
  import opened Text
  import opened Hex
  import opened Transport
  import opened SpiProtocol

  class BinhoSpiDriver {
    const usb: ScriptedTransport
    /** The driver always talks to SPI0, whatever index it is given. */
    const spiIndex: nat := 0

    constructor (usb: ScriptedTransport, spiIndex: int)
      ensures this.usb == usb && this.spiIndex == 0
    {
      this.usb := usb;
    }

    /** One exchange: `command` was sent, then the head of the reply queue
        was taken off; nothing else happened on the connection. */
    twostate predicate Exchanged(command: string)
      reads usb
    {
      && usb.log == old(usb.log) + [Sent(command), Received(First(old(usb.responses)))]
      && usb.responses == Rest(old(usb.responses))
    }

    /** The clockFrequency getter. */
    method ClockFrequency() returns (r: Result<int, SpiError>)
      modifies usb
      ensures Exchanged(QueryCommand(spiIndex, "CLK"))
      ensures r == IntReply(spiIndex, "CLK", ClockOffset, First(old(usb.responses)))
    {
      usb.SendCommand(QueryCommand(spiIndex, "CLK"));
      var result := usb.ReadResponse();
      r := IntReply(spiIndex, "CLK", ClockOffset, result);
    }

    /** The clockFrequency setter. */
    method SetClockFrequency(clock: int) returns (r: Result<bool, SpiError>)
      modifies usb
      ensures Exchanged(SetCommand(spiIndex, "CLK", IntToString(clock)))
      ensures r == OkReply(First(old(usb.responses)))
    {
      usb.SendCommand(SetCommand(spiIndex, "CLK", IntToString(clock)));
      var result := usb.ReadResponse();
      r := OkReply(result);
    }

    /** The bitOrder getter: the order is returned as the reply's text. */
    method BitOrder() returns (r: Result<string, SpiError>)
      modifies usb
      ensures Exchanged(QueryCommand(spiIndex, "ORDER"))
      ensures r == QueryPayload(spiIndex, "ORDER", OrderOffset, First(old(usb.responses)))
    {
      usb.SendCommand(QueryCommand(spiIndex, "ORDER"));
      var result := usb.ReadResponse();
      r := QueryPayload(spiIndex, "ORDER", OrderOffset, result);
    }

    /** The bitOrder setter. */
    method SetBitOrder(order: string) returns (r: Result<bool, SpiError>)
      modifies usb
      ensures Exchanged(SetCommand(spiIndex, "ORDER", order))
      ensures r == OkReply(First(old(usb.responses)))
    {
      usb.SendCommand(SetCommand(spiIndex, "ORDER", order));
      var result := usb.ReadResponse();
      r := OkReply(result);
    }

    /** The mode getter. */
    method Mode() returns (r: Result<int, SpiError>)
      modifies usb
      ensures Exchanged(QueryCommand(spiIndex, "MODE"))
      ensures r == IntReply(spiIndex, "MODE", ModeOffset, First(old(usb.responses)))
    {
      usb.SendCommand(QueryCommand(spiIndex, "MODE"));
      var result := usb.ReadResponse();
      r := IntReply(spiIndex, "MODE", ModeOffset, result);
    }

    /** The mode setter. */
    method SetMode(mode: int) returns (r: Result<bool, SpiError>)
      modifies usb
      ensures Exchanged(SetCommand(spiIndex, "MODE", IntToString(mode)))
      ensures r == OkReply(First(old(usb.responses)))
    {
      usb.SendCommand(SetCommand(spiIndex, "MODE", IntToString(mode)));
      var result := usb.ReadResponse();
      r := OkReply(result);
    }

    /** The bitsPerTransfer getter. */
    method BitsPerTransfer() returns (r: Result<int, SpiError>)
      modifies usb
      ensures Exchanged(QueryCommand(spiIndex, "TXBITS"))
      ensures r == IntReply(spiIndex, "TXBITS", BitsOffset, First(old(usb.responses)))
    {
      usb.SendCommand(QueryCommand(spiIndex, "TXBITS"));
      var result := usb.ReadResponse();
      r := IntReply(spiIndex, "TXBITS", BitsOffset, result);
    }

    /** The bitsPerTransfer setter. */
    method SetBitsPerTransfer(bits: int) returns (r: Result<bool, SpiError>)
      modifies usb
      ensures Exchanged(SetCommand(spiIndex, "TXBITS", IntToString(bits)))
      ensures r == OkReply(First(old(usb.responses)))
    {
      usb.SendCommand(SetCommand(spiIndex, "TXBITS", IntToString(bits)));
      var result := usb.ReadResponse();
      r := OkReply(result);
    }

    method Begin() returns (r: Result<bool, SpiError>)
      modifies usb
      ensures Exchanged(ActionCommand(spiIndex, "BEGIN"))
      ensures r == OkReply(First(old(usb.responses)))
    {
      usb.SendCommand(ActionCommand(spiIndex, "BEGIN"));
      var result := usb.ReadResponse();
      r := OkReply(result);
    }

    /** TXRX with `data` as it is rendered into the command line. */
    method Transfer(data: string) returns (r: Result<seq<byte>, SpiError>)
      modifies usb
      ensures Exchanged(SetCommand(spiIndex, "TXRX", data))
      ensures r == RxdReply(spiIndex, First(old(usb.responses)))
    {
      usb.SendCommand(SetCommand(spiIndex, "TXRX", data));
      var result := usb.ReadResponse();
      r := RxdReply(spiIndex, result);
    }

    /** WHR: sends the hex packet with the write-only flag and the count,
        and reads back the bytes when asked to. An exception while building
        the packet leaves the connection untouched. */
    method WriteToReadFrom(write: bool, read: bool, numBytes: int, data: SpiData)
      returns (r: Result<seq<byte>, SpiError>)
      modifies usb
      ensures WhrPacket(write, numBytes, data).Err? ==>
                && r == Err(WhrPacket(write, numBytes, data).error)
                && usb.log == old(usb.log) && usb.responses == old(usb.responses)
      ensures WhrPacket(write, numBytes, data).Ok? ==>
                && Exchanged(WhrCommand(spiIndex, read, numBytes, WhrPacket(write, numBytes, data).value))
                && r == WhrReply(read, First(old(usb.responses)))
    {
      var packet := BuildDataPacket(write, numBytes, data);
      if packet.Err? {
        return Err(packet.error);
      }
      var dataPacket := packet.value;
      var writeOnlyFlag := "0";
      if !read {
        writeOnlyFlag := "1";
      }

      var command := Subsystem(spiIndex) + " WHR " + writeOnlyFlag + " " + IntToString(numBytes) + " " + dataPacket;
      assert command == WhrCommand(spiIndex, read, numBytes, dataPacket);
      usb.SendCommand(command);
      var result := usb.ReadResponse();
      r := WhrReply(read, result);
    }

    /** END; with suppressError a refusal returns None instead of raising. */
    method End(suppressError: bool) returns (r: Result<Option<bool>, SpiError>)
      modifies usb
      ensures Exchanged(ActionCommand(spiIndex, "END"))
      ensures r == EndReply(First(old(usb.responses)), suppressError)
    {
      usb.SendCommand(ActionCommand(spiIndex, "END"));
      var result := usb.ReadResponse();
      r := EndReply(result, suppressError);
    }
  }

  /** The packet-building loops of writeToReadFrom: the hex of each byte to
      write, or of the one value to repeat, appended in turn. Python raises
      inside the loop, on the first byte it cannot format; the packet built so
      far is then discarded, so the model raises before looping. */
  method BuildDataPacket(write: bool, numBytes: int, data: SpiData) returns (packet: Result<string, SpiError>)
    ensures packet == WhrPacket(write, numBytes, data)
  {
    if write {
      if numBytes > 0 {
        if data.Value? {
          return Err(TypeError);
        }
        if numBytes > |data.bytes| {
          return Err(IndexError);
        }
        var dataPacket := HexOfBytes(data.bytes, numBytes);
        packet := Ok(dataPacket);
      } else {
        packet := Ok("0");
      }
    } else {
      if numBytes > 0 && data.Buffer? {
        return Err(TypeError);
      }
      var count := if numBytes > 0 then numBytes else 0;
      var dataPacket := HexOfRepeated(if data.Value? then data.value else 0, count);
      packet := Ok(dataPacket);
    }
  }

  /** The write loop: the hex of bytes[0..numBytes-1], appended byte by byte. */
  method HexOfBytes(bytes: seq<byte>, numBytes: nat) returns (dataPacket: string)
    requires numBytes <= |bytes|
    ensures dataPacket == ToHexString(bytes[..numBytes])
  {
    dataPacket := "";
    for i := 0 to numBytes
      invariant dataPacket == ToHexString(bytes[..i])
    {
      ToHexStringAppend(bytes[..i], [bytes[i]]);
      assert bytes[..i + 1] == bytes[..i] + [bytes[i]];
      dataPacket := dataPacket + ByteToHex(bytes[i]);
    }
  }

  /** The read-only loop: the hex of one value, appended numBytes times. */
  method HexOfRepeated(value: byte, numBytes: nat) returns (dataPacket: string)
    ensures dataPacket == ToHexString(seq(numBytes, _ => value))
  {
    dataPacket := "";
    for i := 0 to numBytes
      invariant dataPacket == ToHexString(seq(i, _ => value))
    {
      ToHexStringAppend(seq(i, _ => value), [value]);
      assert seq(i + 1, _ => value) == seq(i, _ => value) + [value];
      dataPacket := dataPacket + ByteToHex(value);
    }
  }

  /** A client of the driver: a clock query answered "-SPI0 CLK 1000000"
      reads 1000000, after one command and one reply. */
  method ClockQueryScenario()
  {
    var usb := new ScriptedTransport(["-SPI0 CLK 1000000"]);
    var spi := new BinhoSpiDriver(usb, 3);
    var clock := spi.ClockFrequency();
    MillionClockReply();
    assert clock == Ok(1000000);
    assert QueryCommand(0, "CLK") == "SPI0 CLK ?" by {
      assert Subsystem(0) == "SPI0";
    }
    assert usb.log == [Sent("SPI0 CLK ?"), Received(Some("-SPI0 CLK 1000000"))];
  }

  lemma MillionClockReply()
    ensures IntReply(0, "CLK", ClockOffset, Some("-SPI0 CLK 1000000")) == Ok(1000000)
  {
    MillionToString();
    ClockRoundTrip(1000000);
  }

  lemma MillionToString()
    ensures IntToString(1000000) == "1000000"
  {
    assert NatToString(1) == "1";
    assert NatToString(10) == "10";
    assert NatToString(100) == "100";
    assert NatToString(1000) == "1000";
    assert NatToString(10000) == "10000";
    assert NatToString(100000) == "100000";
  }

  /** A client of the driver: a BEGIN answered "-ERR BUSY" raises
      RuntimeError, and the next operation reads the next reply. */
  method BusyBeginScenario()
  {
    var usb := new ScriptedTransport(["-ERR BUSY", "-OK"]);
    var spi := new BinhoSpiDriver(usb, 0);
    var begun := spi.Begin();
    assert "-ERR BUSY"[..3][1] != "-OK"[1];
    assert begun == Err(RuntimeError(Complaint("-ERR BUSY", "-OK")));
    begun := spi.Begin();
    assert begun == Ok(true);
    assert ActionCommand(0, "BEGIN") == "SPI0 BEGIN" by {
      assert Subsystem(0) == "SPI0";
    }
    assert usb.log == [Sent("SPI0 BEGIN"), Received(Some("-ERR BUSY")),
                       Sent("SPI0 BEGIN"), Received(Some("-OK"))];
    assert usb.responses == [];
  }
}
