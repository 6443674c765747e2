/** The addressing and transfer engine: setting the controller's write
    window (`lcd_address_set`) and streaming pixels into it
    (`lcd_PushColors`, `lcd_DrawPoint`, `lcd_fill`). The pixel paths are the
    serial-transport ones; their quad-transport bodies are not part of this
    model. */
module Window {
  import opened Bits
  import opened Bus
  import opened Dispatch

  const CASET: Byte := 0x2A   // column address set
  const RASET: Byte := 0x2B   // row address set
  const RAMWR: Byte := 0x2C   // memory write

  /** A write window in inclusive controller coordinates. */
  datatype Rect = Rect(x1: U16, y1: U16, x2: U16, y2: U16)

  /** `lcd_address_set(x1, y1, x2, y2)`: its three-entry command table sent
      entry by entry through the dispatcher. */
  function AddressSet(t: Transport, x1: U16, y1: U16, x2: U16, y2: U16): (r: seq<Event>)
    ensures Boundary(r)
  {
    SendCmd(t, CASET, Buf(PackPair(x1, x2)), 4)
      + SendCmd(t, RASET, Buf(PackPair(y1, y2)), 4)
      + SendCmd(t, RAMWR, Buf([0x00]), 0)
  }

  /** The window a decoded trace opens with, read back from the big-endian
      parameters of its column and row commands, provided those are followed
      by a parameterless memory-write command. */
  function ParseWindow(acts: seq<Action>): Option<Rect>
  {
    if && |acts| >= 3
       && acts[0].Cmd? && acts[0].op == CASET && |acts[0].payload| == 4
       && acts[1].Cmd? && acts[1].op == RASET && |acts[1].payload| == 4
       && acts[2] == Cmd(RAMWR, [])
    then
      var p := acts[0].payload;
      var q := acts[1].payload;
      Some(Rect(Word(p[0], p[1]), Word(q[0], q[1]), Word(p[2], p[3]), Word(q[2], q[3])))
    else None
  }

  /** Window set: exactly three commands, column then row then memory write,
      coordinates split into high and low bytes; and the window decodes back
      to the four coordinates it was given. */
  lemma {:induction false} AddressSetDecodes(t: Transport, x1: U16, y1: U16, x2: U16, y2: U16)
    ensures Decode(t, AddressSet(t, x1, y1, x2, y2)) == Some([
      Cmd(CASET, [HighByte(x1), LowByte(x1), HighByte(x2), LowByte(x2)]),
      Cmd(RASET, [HighByte(y1), LowByte(y1), HighByte(y2), LowByte(y2)]),
      Cmd(RAMWR, [])])
    ensures ParseWindow(Decode(t, AddressSet(t, x1, y1, x2, y2)).value) == Some(Rect(x1, y1, x2, y2))
  {
    var a := SendCmd(t, CASET, Buf(PackPair(x1, x2)), 4);
    var b := SendCmd(t, RASET, Buf(PackPair(y1, y2)), 4);
    var c := SendCmd(t, RAMWR, Buf([0x00]), 0);
    var ca := Cmd(CASET, [HighByte(x1), LowByte(x1), HighByte(x2), LowByte(x2)]);
    var cb := Cmd(RASET, [HighByte(y1), LowByte(y1), HighByte(y2), LowByte(y2)]);
    var cc := Cmd(RAMWR, []);
    PairCommandDecodes(t, CASET, x1, x2);
    PairCommandDecodes(t, RASET, y1, y2);
    SendCmdDecodes(t, RAMWR, Buf([0x00]), 0);
    ThreeCommands(t, a, b, c, ca, cb, cc);
  }

  /** Three single-command traces in a row decode to the three commands. */
  lemma ThreeCommands(t: Transport, a: seq<Event>, b: seq<Event>, c: seq<Event>, ca: Action, cb: Action, cc: Action)
    requires Boundary(b) && Boundary(c)
    requires Decode(t, a) == Some([ca]) && Decode(t, b) == Some([cb]) && Decode(t, c) == Some([cc])
    ensures Decode(t, a + b + c) == Some([ca, cb, cc])
  {
    DecodeAppend(t, a, b);
    assert [ca] + [cb] == [ca, cb];
    DecodeAppend(t, a + b, c);
    assert [ca, cb] + [cc] == [ca, cb, cc];
  }

  /** One coordinate command: the opcode with the two values, high byte
      first. */
  lemma PairCommandDecodes(t: Transport, op: Byte, a: U16, b: U16)
    ensures Decode(t, SendCmd(t, op, Buf(PackPair(a, b)), 4)) == Some([Cmd(op, [HighByte(a), LowByte(a), HighByte(b), LowByte(b)])])
  {
    SendCmdDecodes(t, op, Buf(PackPair(a, b)), 4);
    assert Prefix(Buf(PackPair(a, b)), 4) == [HighByte(a), LowByte(a), HighByte(b), LowByte(b)];
  }

  /** The controller's write pointer stays in step with a stream of `n`
      pixels exactly when the window is non-empty and holds `n` pixels. */
  predicate InSync(r: Rect, n: nat)
  {
    r.x1 <= r.x2 && r.y1 <= r.y2 && (r.x2 - r.x1 + 1) * (r.y2 - r.y1 + 1) == n
  }

  /** `lcd_PushColors(x, y, width, high, data)` on the serial transport: the
      window `(x, y, x+width-1, y+high-1)` narrowed to `uint16_t`, then one
      bulk write of `width*high*2` bytes of `data`. */
  function PushColors(x: U16, y: U16, w: U16, h: U16, data: seq<U16>): (r: seq<Event>)
    requires PixelCount(w, h) <= |data|
    ensures Boundary(r)
  {
    AddressSet(Spi, x, y, ToU16(x + w - 1), ToU16(y + h - 1)) + [PixelStream(data[..PixelCount(w, h)])]
  }

  lemma {:induction false} WindowThenStream(x1: U16, y1: U16, x2: U16, y2: U16, p: seq<U16>)
    ensures var acts := Decode(Spi, AddressSet(Spi, x1, y1, x2, y2) + [PixelStream(p)]);
      && acts.Some? && |acts.value| == 4
      && ParseWindow(acts.value) == Some(Rect(x1, y1, x2, y2))
      && acts.value[3] == Stream(p)
  {
    AddressSetDecodes(Spi, x1, y1, x2, y2);
    DecodePlain(Spi, PixelStream(p));
    DecodeAppend(Spi, AddressSet(Spi, x1, y1, x2, y2), [PixelStream(p)]);
    var acts := Decode(Spi, AddressSet(Spi, x1, y1, x2, y2) + [PixelStream(p)]).value;
    assert acts[..3] == Decode(Spi, AddressSet(Spi, x1, y1, x2, y2)).value;
  }

  /** Pushing colours opens the window `(x, y, x+w-1, y+h-1)` modulo 2^16 and
      then streams the first `w*h` values of `data` in order (when `w*h`
      fits the 32-bit byte count). */
  lemma PushColorsDecodes(x: U16, y: U16, w: U16, h: U16, data: seq<U16>)
    requires PixelCount(w, h) <= |data|
    ensures var acts := Decode(Spi, PushColors(x, y, w, h, data));
      && acts.Some? && |acts.value| == 4
      && ParseWindow(acts.value) == Some(Rect(x, y, ToU16(x + w - 1), ToU16(y + h - 1)))
      && acts.value[3].Stream?
      && acts.value[3].pixels == data[..PixelCount(w, h)]
      && (w * h < TWO31 ==> acts.value[3].pixels == data[..w * h])
  {
    WindowThenStream(x, y, ToU16(x + w - 1), ToU16(y + h - 1), data[..PixelCount(w, h)]);
  }

  /** `lcd_PushColors` keeps the controller in step if and only if the
      rectangle is non-empty, does not run past coordinate 65535, and its
      byte count does not overflow. */
  lemma {:induction false} PushColorsInSync(x: U16, y: U16, w: U16, h: U16)
    ensures InSync(Rect(x, y, ToU16(x + w - 1), ToU16(y + h - 1)), PixelCount(w, h))
        <==> (1 <= w && 1 <= h && x + w <= TWO16 && y + h <= TWO16 && w * h < TWO31)
  {
    var r := Rect(x, y, ToU16(x + w - 1), ToU16(y + h - 1));
    if 1 <= w && x + w <= TWO16 {
      assert r.x2 == x + w - 1;
    } else {
      assert r.x2 < r.x1 || (w == 0 && x == 0 && r.x2 == TWO16 - 1);
    }
    if 1 <= h && y + h <= TWO16 {
      assert r.y2 == y + h - 1;
    } else {
      assert r.y2 < r.y1 || (h == 0 && y == 0 && r.y2 == TWO16 - 1);
    }
    if r.x1 <= r.x2 && r.y1 <= r.y2 {
      var cols := r.x2 - r.x1 + 1;
      var rows := r.y2 - r.y1 + 1;
      if w == 0 || h == 0 {
        assert PixelCount(w, h) == 0;
        assert cols * rows >= 1 by { PositiveProduct(cols, rows); }
      } else {
        assert cols == w && rows == h;
        if w * h >= TWO31 {
          assert w * h < TWO32 by { ProductBound(w, h); }
          assert PixelCount(w, h) == w * h - TWO31;
        }
      }
    }
  }

  lemma PositiveProduct(a: int, b: int)
    requires a >= 1 && b >= 1
    ensures a * b >= 1
  {
  }

  lemma ProductBound(a: U16, b: U16)
    ensures a * b < TWO32
  {
    MulMonotone(a, TWO16 - 1, b);
    MulMonotone(b, TWO16 - 1, TWO16 - 1);
  }

  /** `lcd_PushColors(data, len)`: a bulk write of `len*2` bytes, computed in
      32-bit unsigned arithmetic, into whatever window is already armed. */
  function PushStream(data: seq<U16>, len: U32): (r: seq<Event>)
    requires len % TWO31 <= |data|
    ensures |r| == 1 && r[0].PixelStream?
    ensures len < TWO31 ==> r[0].pixels == data[..len]
  {
    [PixelStream(data[..((2 * len) % TWO32) / 2])]
  }

  /** `lcd_DrawPoint(x, y, color)`. */
  function DrawPoint(x: U16, y: U16, color: U16): (r: seq<Event>)
    ensures Boundary(r)
  {
    AddressSet(Spi, x, y, ToU16(x + 1), ToU16(y + 1)) + PushStream([color], 1)
  }

  /** A point opens the window `(x, y, x+1, y+1)` and streams the single
      value `color`. */
  lemma DrawPointDecodes(x: U16, y: U16, color: U16)
    ensures var acts := Decode(Spi, DrawPoint(x, y, color));
      && acts.Some? && |acts.value| == 4
      && ParseWindow(acts.value) == Some(Rect(x, y, ToU16(x + 1), ToU16(y + 1)))
      && acts.value[3] == Stream([color])
  {
    assert [color][..1] == [color];
    assert PushStream([color], 1) == [PixelStream([color])];
    WindowThenStream(x, y, ToU16(x + 1), ToU16(y + 1), [color]);
  }

  /** The window of a point is larger than the one pixel it streams (or,
      at coordinate 65535, wraps to an empty window), so a point never
      leaves the controller in step; the next window set re-synchronises it. */
  lemma DrawPointOutOfSync(x: U16, y: U16)
    ensures !InSync(Rect(x, y, ToU16(x + 1), ToU16(y + 1)), 1)
  {
    var r := Rect(x, y, ToU16(x + 1), ToU16(y + 1));
    if x < TWO16 - 1 && y < TWO16 - 1 {
      assert r.x2 - r.x1 + 1 == 2 && r.y2 - r.y1 + 1 == 2;
    }
  }

  /** `n` copies of `color`: the scratch buffer `lcd_fill` allocates and fills. */
  function Solid(color: U16, n: nat): (b: seq<U16>)
    ensures |b| == n
    ensures forall i | 0 <= i < n :: b[i] == color
  {
    seq(n, _ => color)
  }

  /** `lcd_fill(xsta, ysta, xend, yend, color)`: width and height are the
      exclusive-end differences narrowed to `uint16_t`, and a buffer of
      `w*h` copies of `color` is pushed. */
  function Fill(xs: U16, ys: U16, xe: U16, ye: U16, color: U16): (r: seq<Event>)
    ensures Boundary(r)
  {
    SolidRect(xs, ys, ToU16(xe - xs), ToU16(ye - ys), color)
  }

  /** A `w` by `h` window at `(x, y)` filled with `w*h` copies of `color`. */
  function SolidRect(x: U16, y: U16, w: U16, h: U16, color: U16): (r: seq<Event>)
    ensures Boundary(r)
  {
    assert 0 <= PixelCount(w, h) <= (w as int) * h;
    PushColors(x, y, w, h, Solid(color, (w as int) * h))
  }

  /** For every input, a fill opens the window from `(xs, ys)` to
      `(xe-1, ye-1)` modulo 2^16 and streams only copies of `color`; when
      the corners are ordered and the area fits, exactly
      `(xe-xs)*(ye-ys)` of them. */
  lemma {:induction false} FillDecodes(xs: U16, ys: U16, xe: U16, ye: U16, color: U16)
    ensures var acts := Decode(Spi, Fill(xs, ys, xe, ye, color));
      && acts.Some? && |acts.value| == 4
      && ParseWindow(acts.value) == Some(Rect(xs, ys, ToU16(xe - 1), ToU16(ye - 1)))
      && acts.value[3].Stream?
      && |acts.value[3].pixels| == PixelCount(ToU16(xe - xs), ToU16(ye - ys))
      && (forall i | 0 <= i < |acts.value[3].pixels| :: acts.value[3].pixels[i] == color)
      && (xs <= xe && ys <= ye && (xe - xs) * (ye - ys) < TWO31 ==>
            |acts.value[3].pixels| == (xe - xs) * (ye - ys))
  {
    FillStream(xs, ys, xe, ye, color);
    ExclusiveEnd(xs, xe);
    ExclusiveEnd(ys, ye);
    if xs <= xe && ys <= ye && (xe - xs) * (ye - ys) < TWO31 {
      OrderedArea(xs, ys, xe, ye);
    }
  }

  /** The fill's trace is a window set from `(xs, ys)` with the narrowed
      width and height, followed by the first `w*h` (wrapped) copies of
      `color`. */
  lemma FillStream(xs: U16, ys: U16, xe: U16, ye: U16, color: U16)
    ensures var w := ToU16(xe - xs);
      var h := ToU16(ye - ys);
      var acts := Decode(Spi, Fill(xs, ys, xe, ye, color));
      && acts.Some? && |acts.value| == 4
      && ParseWindow(acts.value) == Some(Rect(xs, ys, ToU16(xs + w - 1), ToU16(ys + h - 1)))
      && acts.value[3] == Stream(Solid(color, PixelCount(w, h)))
  {
    var w := ToU16(xe - xs);
    var h := ToU16(ye - ys);
    SolidPush(xs, ys, w, h, color);
  }

  /** Pushing a buffer of `w*h` copies of one colour. */
  lemma SolidPush(x: U16, y: U16, w: U16, h: U16, color: U16)
    ensures var acts := Decode(Spi, SolidRect(x, y, w, h, color));
      && acts.Some? && |acts.value| == 4
      && ParseWindow(acts.value) == Some(Rect(x, y, ToU16(x + w - 1), ToU16(y + h - 1)))
      && acts.value[3] == Stream(Solid(color, PixelCount(w, h)))
  {
    var data := Solid(color, (w as int) * h);
    assert SolidRect(x, y, w, h, color) == PushColors(x, y, w, h, data);
    PushColorsDecodes(x, y, w, h, data);
    SolidPrefix(color, |data|, PixelCount(w, h));
  }

  lemma SolidPrefix(color: U16, n: nat, m: nat)
    requires m <= n
    ensures Solid(color, n)[..m] == Solid(color, m)
  {
  }

  /** A window that starts at `s` and is `e - s` (narrowed) wide ends at `e - 1`. */
  lemma ExclusiveEnd(s: U16, e: U16)
    ensures ToU16(s + ToU16(e - s) - 1) == ToU16(e - 1)
  {
    ToU16OfSum(e - s, s - 1);
  }

  lemma OrderedArea(xs: U16, ys: U16, xe: U16, ye: U16)
    requires xs <= xe && ys <= ye && (xe - xs) * (ye - ys) < TWO31
    ensures PixelCount(ToU16(xe - xs), ToU16(ye - ys)) == (xe - xs) * (ye - ys)
  {
    assert ToU16(xe - xs) == xe - xs;
    assert ToU16(ye - ys) == ye - ys;
  }
}
