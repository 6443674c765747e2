/** `lcd_setRotation`: the memory-access-control byte for one of four
    orientations. The register number and the bit values come from a
    header that is not part of this model, so they are parameters. The
    bit arithmetic is done on `bv8`, the width of the C `uint8_t`. */
module Rotation {
  import opened Bits
  import opened Bus
  import opened Dispatch

  /** `TFT_MADCTL` and the `TFT_MAD_*` bits. */
  datatype Madctl = Madctl(reg: Byte, my: bv8, mx: bv8, mv: bv8, rgb: bv8)

  /** Every bit set in `part` is set in `whole`. */
  predicate Contains(whole: bv8, part: bv8)
  {
    whole & part == part
  }

  /** The byte `lcd_setRotation(r)` computes. */
  function Mask(r: Byte, m: Madctl): bv8
  {
    match r
    case 1 => m.mx | m.mv | m.rgb
    case 2 => m.mx | m.my | m.rgb
    case 3 => m.mv | m.my | m.rgb
    case _ => m.rgb
  }

  /** `lcd_setRotation(r)`. */
  function SetRotation(t: Transport, r: Byte, m: Madctl): seq<Event>
  {
    SendCmd(t, m.reg, Buf([Mask(r, m) as int]), 1)
  }

  /** Rotation issues exactly one MADCTL command carrying one parameter
      byte, the mask. */
  lemma SetRotationDecodes(t: Transport, r: Byte, m: Madctl)
    ensures Decode(t, SetRotation(t, r, m)) == Some([Cmd(m.reg, [Mask(r, m) as int])])
  {
    var b: Byte := Mask(r, m) as int;
    SendCmdDecodes(t, m.reg, Buf([b]), 1);
    assert Prefix(Buf([b]), 1) == [b];
  }

  /** The mask always carries the colour-order bits, and is those bits
      alone for every r other than 1, 2 and 3. */
  lemma MaskKeepsColourOrder(r: Byte, m: Madctl)
    ensures Contains(Mask(r, m), m.rgb)
    ensures r !in {1, 2, 3} ==> Mask(r, m) == m.rgb
  {
    if r == 1 {
      OrContains(m.mx, m.mv, m.rgb);
    } else if r == 2 {
      OrContains(m.mx, m.my, m.rgb);
    } else if r == 3 {
      OrContains(m.mv, m.my, m.rgb);
    }
  }

  /** The mask adds MX and MV for r = 1, MX and MY for r = 2, and MV and
      MY for r = 3. */
  lemma MaskOrientationBits(r: Byte, m: Madctl)
    ensures r == 1 ==> Contains(Mask(r, m), m.mx) && Contains(Mask(r, m), m.mv)
    ensures r == 2 ==> Contains(Mask(r, m), m.mx) && Contains(Mask(r, m), m.my)
    ensures r == 3 ==> Contains(Mask(r, m), m.mv) && Contains(Mask(r, m), m.my)
  {
  }

  lemma OrContains(a: bv8, b: bv8, c: bv8)
    ensures Contains(a | b | c, a) && Contains(a | b | c, b) && Contains(a | b | c, c)
  {
  }

  /** A single bit of a byte. */
  predicate SingleBit(b: bv8)
  {
    b in {0x01, 0x02, 0x04, 0x08, 0x10, 0x20, 0x40, 0x80}
  }

  /** The orientation bits are three distinct single bits and the
      colour-order value shares none of them. */
  predicate Distinct(m: Madctl)
  {
    && SingleBit(m.mx) && SingleBit(m.my) && SingleBit(m.mv)
    && m.mx != m.my && m.mx != m.mv && m.my != m.mv
    && m.rgb & (m.mx | m.my | m.mv) == 0
  }

  /** The orientation a MADCTL byte selects, read from its MX, MY and MV bits. */
  function Orientation(b: bv8, m: Madctl): Byte
  {
    var x := Contains(b, m.mx);
    var y := Contains(b, m.my);
    var v := Contains(b, m.mv);
    if x && v && !y then 1
    else if x && y && !v then 2
    else if v && y && !x then 3
    else 0
  }

  /** With distinct orientation bits the four orientations produce four
      different bytes: the orientation is recovered from the byte sent. */
  lemma {:induction false} OrientationRoundTrip(r: Byte, m: Madctl)
    requires Distinct(m)
    ensures Orientation(Mask(r, m), m) == (if r in {1, 2, 3} then r else 0)
  {
    assert m.mx & m.my == 0 && m.mx & m.mv == 0 && m.my & m.mv == 0;
  }
}
