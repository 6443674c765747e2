/** The command dispatcher `lcd_send_cmd`: one logical command (opcode,
    parameter buffer, parameter count) framed for the selected transport. */
module Dispatch {
  import opened Bits
  import opened Bus

  /** `lcd_send_cmd(cmd, dat, len)`. The opcode and the count are `uint32_t`
      in the source; the serial path narrows the opcode to the `uint8_t` that
      `WriteComm` takes, the quad path computes `cmd << 8` and `8 * len` in
      32-bit unsigned arithmetic. */
  function SendCmd(t: Transport, cmd: U32, dat: Buffer, len: U32): (r: seq<Event>)
    requires Readable(dat, len)
    ensures Boundary(r) && r != []
    ensures t == Spi ==>
      && |r| == len + 1
      && r[0] == CommandByte(cmd % TWO8)
      && forall i | 0 <= i < len :: r[1 + i] == DataByte(dat.bytes[i])
    ensures t == Qspi ==>
      && |r| == 1
      && r[0].QuadTransfer?
      && r[0].cmd == QSPI_WRITE
      && r[0].addr == (cmd * TWO8) % TWO32
      && r[0].bits == (8 * len) % TWO32
      && (r[0].tx.Null? <==> len == 0)
  {
    if t == Qspi then
      var bits := (8 * len) % TWO32;
      var tx := if len != 0 then Buf(dat.bytes[..bits / 8]) else Null;
      [QuadTransfer(QSPI_WRITE, (cmd * TWO8) % TWO32, bits, tx)]
    else
      [CommandByte(cmd % TWO8)] + DataBytes(Prefix(dat, len))
  }

  /** The serial data bytes carrying `p`, one `WriteData` per byte. */
  function DataBytes(p: seq<Byte>): (r: seq<Event>)
    ensures |r| == |p|
    ensures forall i | 0 <= i < |p| :: r[i] == DataByte(p[i])
  {
    seq(|p|, i requires 0 <= i < |p| => DataByte(p[i]))
  }

  /** The opcode survives the quad framing: the address phase `cmd << 8`
      carries the low byte of `cmd` in bits 8..15 and zeros below, and the
      24 bits that are sent hold exactly the low 16 bits of `cmd`, shifted. */
  lemma {:induction false} OpcodeInAddress(cmd: U32)
    ensures ((cmd * TWO8) % TWO32) % TWO8 == 0
    ensures (((cmd * TWO8) % TWO32) / TWO8) % TWO8 == cmd % TWO8
    ensures ((cmd * TWO8) % TWO32) % TWO24 == (cmd % TWO16) * TWO8
  {
    var q := cmd / 0x100_0000;
    var r := cmd % 0x100_0000;
    assert cmd * TWO8 == q * TWO32 + r * TWO8;
    RemainderOfMultiplePlus(r * TWO8, q, TWO32);
    RemainderOfMultiplePlus(r % TWO8, q * 0x1_0000 + r / TWO8, TWO8);
    assert cmd == (q * 0x1_0000 + r / TWO8) * TWO8 + r % TWO8;
    var p := r / TWO16;
    var s := r % TWO16;
    assert r * TWO8 == p * TWO24 + s * TWO8;
    RemainderOfMultiplePlus(s * TWO8, p, TWO24);
    assert s == cmd % TWO16 by {
      assert cmd == (q * TWO8 + p) * TWO16 + s;
      RemainderOfMultiplePlus(s, q * TWO8 + p, TWO16);
    }
  }

  /** Framing round trip: on either transport the panel receives exactly the
      low byte of the opcode with the first `len` bytes of `dat` as
      parameters. On the quad transport bits 8..15 of the opcode must be
      clear, so that the 24 bits of the address phase that are sent carry
      nothing above bit 15 (bits 16 and up of the opcode are shifted out of
      them), and the bit count `8 * len` must not wrap around 32 bits. */
  lemma {:induction false} SendCmdDecodes(t: Transport, cmd: U32, dat: Buffer, len: U32)
    requires Readable(dat, len)
    requires t == Qspi ==> (cmd / TWO8) % TWO8 == 0 && len < 0x2000_0000
    ensures Decode(t, SendCmd(t, cmd, dat, len)) == Some([Cmd(cmd % TWO8, Prefix(dat, len))])
  {
    var r := SendCmd(t, cmd, dat, len);
    var k := FrameLen(t, r);
    if t == Spi {
      assert k == |r|;
      assert r[1..k] == DataBytes(Prefix(dat, len));
      assert DataValues(r[1..k]) == Prefix(dat, len);
    } else {
      OpcodeInAddress(cmd);
      assert cmd % TWO16 == cmd % TWO8 by {
        var hi := cmd / TWO8;
        var b := hi / TWO8;
        assert hi == b * TWO8;
        assert cmd == hi * TWO8 + cmd % TWO8;
        assert cmd == b * TWO16 + cmd % TWO8;
        RemainderOfMultiplePlus(cmd % TWO8, b, TWO16);
      }
      assert r[0].addr % TWO24 == (cmd % TWO8) * TWO8 < TWO16;
      assert k == 1;
      assert TxBytes(r[0].tx) == Prefix(dat, len);
    }
    assert DecodeOne(t, r[0], r[1..k]) == Some(Cmd(cmd % TWO8, Prefix(dat, len)));
    assert r[k..] == [];
    assert Decode(t, r) == Join(Single(DecodeOne(t, r[0], r[1..k])), Decode(t, r[k..]));
    assert Decode(t, r[k..]) == Some([]);
    assert [Cmd(cmd % TWO8, Prefix(dat, len))] + [] == [Cmd(cmd % TWO8, Prefix(dat, len))];
  }

  /** An opcode with any of bits 8..15 set puts them into bits 16..23 of
      the address phase, and the quad trace then carries no panel command:
      the round trip above needs those bits clear on that transport. */
  lemma WideOpcodeIsNoCommand(dat: Buffer, len: U32)
    requires Readable(dat, len)
    ensures Decode(Qspi, SendCmd(Qspi, 0x1234, dat, len)) == None
  {
    var r := SendCmd(Qspi, 0x1234, dat, len);
    assert r[0].addr == 0x12_3400;
    assert DecodeOne(Qspi, r[0], r[1..1]) == None;
  }

  /** Bits 16 and up of the opcode are shifted beyond the 24 address bits
      that are sent, so `0x1_0029` reaches the panel as display-on (0x29). */
  lemma HighOpcodeBitsAreNotSent()
    ensures Decode(Qspi, SendCmd(Qspi, 0x1_0029, Null, 0)) == Some([Cmd(0x29, [])])
  {
    SendCmdDecodes(Qspi, 0x1_0029, Null, 0);
  }
}
