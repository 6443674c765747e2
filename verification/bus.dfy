/** What the driver puts on the wire, and the decoder that reads a recorded
    wire trace back into the logical steps a panel controller sees.

    Under the 4-wire serial transport a command is one byte clocked with the
    data/command line low, followed by its parameter bytes clocked with it
    high. Under the quad transport a command is one bus transaction whose
    command phase holds the write opcode 0x02, whose 24-bit address phase
    holds the panel opcode shifted left by 8, and whose data phase holds the
    parameters. Only bits 0..23 of the 32-bit address are clocked out. An
    address phase with any of those bits set outside bits 8..15 does not
    carry a panel opcode, and the decoder rejects it. */
module Bus {
  import opened Bits

  /** The build-time choice of `LCD_USB_QSPI_DREVER`. */
  datatype Transport = Spi | Qspi

  /** A C `uint8_t *` argument: a null pointer or a readable buffer. */
  datatype Buffer = Null | Buf(bytes: seq<Byte>)

  /** The caller of the dispatcher must hand over `len` readable bytes. */
  predicate Readable(dat: Buffer, len: nat)
  {
    len == 0 || (dat.Buf? && len <= |dat.bytes|)
  }

  /** The first `len` bytes of a readable buffer (none when `len` is 0). */
  function Prefix(dat: Buffer, len: nat): (p: seq<Byte>)
    requires Readable(dat, len)
    ensures |p| == len
  {
    if len == 0 then [] else dat.bytes[..len]
  }

  /** Opcode placed in the command phase of every quad-transport write. */
  const QSPI_WRITE: Byte := 0x02

  /** Observable effects of the driver, in the order they happen. */
  datatype Event =
    | ResetLine(high: bool)             // TFT_RES driven low or high
    | Delay(ms: nat)                    // a blocking wait
    | BusSetup                          // one-time peripheral configuration
    | CommandByte(op: Byte)             // serial: byte with D/C low
    | DataByte(value: Byte)             // serial: byte with D/C high
    | QuadTransfer(cmd: Byte, addr: U32, bits: U32, tx: Buffer)
                                        // quad: one polling transaction
    | PixelStream(pixels: seq<U16>)     // one bulk write of 16-bit pixels

  /** What the panel controller makes of the events. */
  datatype Action =
    | Cmd(op: Byte, payload: seq<Byte>)
    | Wait(ms: nat)
    | Level(high: bool)
    | Setup
    | Stream(pixels: seq<U16>)

  datatype Option<T> = None | Some(value: T)

  /** Number of consecutive serial data bytes at the start of `es`. */
  function DataRun(es: seq<Event>): (n: nat)
    ensures n <= |es|
    ensures forall i | 0 <= i < n :: es[i].DataByte?
    ensures n < |es| ==> !es[n].DataByte?
  {
    if es == [] || !es[0].DataByte? then 0 else 1 + DataRun(es[1..])
  }

  function DataValues(es: seq<Event>): seq<Byte>
    requires forall i | 0 <= i < |es| :: es[i].DataByte?
  {
    seq(|es|, i requires 0 <= i < |es| => es[i].value)
  }

  function TxBytes(tx: Buffer): seq<Byte>
  {
    if tx.Null? then [] else tx.bytes
  }

  /** A trace that does not start in the middle of a serial command, so that
      appending it after another trace cannot extend that trace's last command. */
  predicate Boundary(es: seq<Event>)
  {
    es == [] || !es[0].DataByte?
  }

  /** Number of events the frame at the head of `es` occupies: one, plus the
      data bytes that follow a serial command byte. */
  function FrameLen(t: Transport, es: seq<Event>): (k: nat)
    requires es != []
    ensures 1 <= k <= |es|
  {
    1 + (if t == Spi && es[0].CommandByte? then DataRun(es[1..]) else 0)
  }

  /** Reads a bus trace back into controller actions; `None` when the trace
      is not a well-formed sequence of frames for the transport. */
  function Decode(t: Transport, es: seq<Event>): Option<seq<Action>>
    decreases |es|
  {
    if es == [] then Some([])
    else
      var k := FrameLen(t, es);
      Join(Single(DecodeOne(t, es[0], es[1..k])), Decode(t, es[k..]))
  }

  function Single(a: Option<Action>): Option<seq<Action>>
  {
    if a.Some? then Some([a.value]) else None
  }

  /** One frame: a single event, plus the data bytes following a serial command. */
  function DecodeOne(t: Transport, e: Event, data: seq<Event>): Option<Action>
  {
    match e
    case ResetLine(h) => Some(Level(h))
    case Delay(ms) => Some(Wait(ms))
    case BusSetup => Some(Setup)
    case PixelStream(p) => Some(Stream(p))
    case CommandByte(op) =>
      if t == Spi && forall i | 0 <= i < |data| :: data[i].DataByte?
      then Some(Cmd(op, DataValues(data)))
      else None
    case DataByte(_) => None
    case QuadTransfer(cmd, addr, bits, tx) =>
      var sent := addr % TWO24;
      if t == Qspi && cmd == QSPI_WRITE && sent < TWO16 && sent % TWO8 == 0 && bits == 8 * |TxBytes(tx)|
      then Some(Cmd(sent / TWO8, TxBytes(tx)))
      else None
  }

  /** Concatenation of two optional action lists, failing if either fails. */
  function Join(a: Option<seq<Action>>, b: Option<seq<Action>>): Option<seq<Action>>
  {
    if a.Some? && b.Some? then Some(a.value + b.value) else None
  }

  lemma {:induction false} DataRunAppend(a: seq<Event>, b: seq<Event>)
    requires Boundary(b)
    ensures DataRun(a + b) == DataRun(a)
  {
    if a != [] && a[0].DataByte? {
      assert (a + b)[1..] == a[1..] + b;
      DataRunAppend(a[1..], b);
    }
  }

  lemma JoinAssociative(a: Option<seq<Action>>, b: Option<seq<Action>>, c: Option<seq<Action>>)
    ensures Join(Join(a, b), c) == Join(a, Join(b, c))
  {
    if a.Some? && b.Some? && c.Some? {
      assert (a.value + b.value) + c.value == a.value + (b.value + c.value);
    }
  }

  /** Decoding distributes over concatenation at a frame boundary: traces of
      successive driver calls decode to the successive action lists. */
  lemma {:induction false} DecodeAppend(t: Transport, a: seq<Event>, b: seq<Event>)
    requires Boundary(b)
    ensures Decode(t, a + b) == Join(Decode(t, a), Decode(t, b))
    decreases |a|
  {
    if a == [] {
      assert a + b == b;
      if Decode(t, b).Some? {
        assert [] + Decode(t, b).value == Decode(t, b).value;
      }
    } else {
      var ab := a + b;
      if t == Spi && a[0].CommandByte? {
        assert ab[1..] == a[1..] + b;
        DataRunAppend(a[1..], b);
      }
      var k := FrameLen(t, a);
      assert FrameLen(t, ab) == k;
      assert ab[0] == a[0];
      assert ab[1..k] == a[1..k];
      assert ab[k..] == a[k..] + b;
      DecodeAppend(t, a[k..], b);
      JoinAssociative(Single(DecodeOne(t, a[0], a[1..k])), Decode(t, a[k..]), Decode(t, b));
    }
  }

  /** Events that are frames on their own, whatever the transport. */
  predicate Plain(e: Event)
  {
    e.ResetLine? || e.Delay? || e.BusSetup? || e.PixelStream?
  }

  function PlainAction(e: Event): Action
    requires Plain(e)
  {
    match e
    case ResetLine(h) => Level(h)
    case Delay(ms) => Wait(ms)
    case BusSetup => Setup
    case PixelStream(p) => Stream(p)
  }

  /** A run of plain events decodes one action per event, ahead of whatever follows. */
  lemma {:induction false} DecodePlainPrefix(t: Transport, es: seq<Event>, rest: seq<Event>)
    requires forall i | 0 <= i < |es| :: Plain(es[i])
    requires Boundary(rest)
    ensures Decode(t, es + rest) ==
      Join(Some(seq(|es|, i requires 0 <= i < |es| => PlainAction(es[i]))), Decode(t, rest))
  {
    var acts := seq(|es|, i requires 0 <= i < |es| => PlainAction(es[i]));
    if es == [] {
      assert es + rest == rest;
      if Decode(t, rest).Some? {
        assert acts + Decode(t, rest).value == Decode(t, rest).value;
      }
    } else {
      var all := es + rest;
      assert all[0] == es[0];
      assert FrameLen(t, all) == 1;
      assert all[1..1] == [];
      assert all[1..] == es[1..] + rest;
      DecodePlainPrefix(t, es[1..], rest);
      var tailActs := seq(|es| - 1, i requires 0 <= i < |es| - 1 => PlainAction(es[1..][i]));
      assert acts == [PlainAction(es[0])] + tailActs;
      JoinAssociative(Some([PlainAction(es[0])]), Some(tailActs), Decode(t, rest));
    }
  }

  lemma DecodePlain(t: Transport, e: Event)
    requires Plain(e)
    ensures Decode(t, [e]) == Some([PlainAction(e)])
  {
    var es := [e];
    assert FrameLen(t, es) == 1;
    assert es[1..1] == [] && es[1..] == [];
    assert Decode(t, es[1..]) == Some([]);
    assert [PlainAction(e)] + [] == [PlainAction(e)];
  }
}
