/** The one-line command wrappers (`lcd_sleep`, `lcd_brightness`, ...):
    each hands a fixed opcode and at most one parameter byte to the
    dispatcher. The arguments are modelled twice: as the wrappers pass them,
    and corrected so that every call meets the dispatcher's requirement that
    `len` bytes be readable at `dat`. */
module Commands {
  import opened Bits
  import opened Bus
  import opened Dispatch

  datatype Wrapper =
    | Sleep                       // lcd_sleep
    | Brightness(level: Byte)     // lcd_brightness
    | ColourEnhance(level: Byte)  // lcd_set_colour_enhance
    | DisplayOff                  // lcd_display_off
    | DisplayOn                   // lcd_display_on
    | InvertOn                    // lcd_display_invert_on
    | InvertOff                   // lcd_display_invert_off
    | EnhanceLow(level: Byte)     // lcd_display_set_colour_enhance_low_byte
    | EnhanceHigh(level: Byte)    // lcd_display_set_colour_enhance_high_byte
    | HbmOn(level: Byte)          // lcd_display_high_brightness_mode_on
    | HbmOff(level: Byte)         // lcd_display_high_brightness_mode_off

  /** The arguments of one `lcd_send_cmd` call. */
  datatype Call = Call(op: Byte, dat: Buffer, len: U32)

  /** The panel opcode of each wrapper. */
  function Opcode(w: Wrapper): Byte
  {
    match w
    case Sleep => 0x10
    case Brightness(_) => 0x51
    case ColourEnhance(_) => 0x58
    case DisplayOff => 0x28
    case DisplayOn => 0x29
    case InvertOn => 0x21
    case InvertOff => 0x20
    case EnhanceLow(_) => 0x5A
    case EnhanceHigh(_) => 0x5B
    case HbmOn(_) => 0xB0
    case HbmOff(_) => 0xB0
  }

  /** The wrappers that take no parameter byte. */
  predicate NoParameter(w: Wrapper)
  {
    w.Sleep? || w.DisplayOff? || w.DisplayOn? || w.InvertOn? || w.InvertOff?
  }

  /** The parameter bytes the panel should receive: the caller's byte, or
      none. */
  function Payload(w: Wrapper): seq<Byte>
  {
    if NoParameter(w) then [] else [w.level]
  }

  /** The arguments as the wrappers pass them: the address of the byte
      argument with length 1, and for the four display and inversion
      switches a null pointer, also with length 1. */
  function AsWritten(w: Wrapper): Call
  {
    match w
    case Sleep => Call(Opcode(w), Null, 0)
    case DisplayOff => Call(Opcode(w), Null, 1)
    case DisplayOn => Call(Opcode(w), Null, 1)
    case InvertOn => Call(Opcode(w), Null, 1)
    case InvertOff => Call(Opcode(w), Null, 1)
    case _ => Call(Opcode(w), Buf([w.level]), 1)
  }

  /** Exactly the four display and inversion switches hand the dispatcher a
      null pointer together with a length of 1, so the serial path reads a
      parameter byte through a null pointer and the quad path asks for an
      8-bit data phase from a null buffer. */
  lemma AsWrittenUnreadable(w: Wrapper)
    ensures !Readable(AsWritten(w).dat, AsWritten(w).len) <==>
      (w.DisplayOff? || w.DisplayOn? || w.InvertOn? || w.InvertOff?)
  {
  }

  /** Corrected arguments: the parameterless commands pass length 0. */
  function Corrected(w: Wrapper): (c: Call)
    ensures Readable(c.dat, c.len)
    ensures c.op == Opcode(w) && c.len == |Payload(w)|
  {
    if NoParameter(w) then Call(Opcode(w), Null, 0)
    else Call(Opcode(w), Buf([w.level]), 1)
  }

  /** The corrected call differs from the written one only in the length
      of the four switches; every other wrapper is unchanged. */
  lemma CorrectionIsMinimal(w: Wrapper)
    ensures Corrected(w).op == AsWritten(w).op && Corrected(w).dat == AsWritten(w).dat
    ensures Corrected(w) == AsWritten(w) <==> Readable(AsWritten(w).dat, AsWritten(w).len)
  {
  }

  /** What a corrected wrapper puts on the wire. */
  function Issue(t: Transport, w: Wrapper): seq<Event>
  {
    var c := Corrected(w);
    SendCmd(t, c.op, c.dat, c.len)
  }

  /** On either transport a corrected wrapper issues exactly one command:
      its opcode with the caller's byte, or with no parameter. */
  lemma IssueDecodes(t: Transport, w: Wrapper)
    ensures Decode(t, Issue(t, w)) == Some([Cmd(Opcode(w), Payload(w))])
  {
    var c := Corrected(w);
    SendCmdDecodes(t, c.op, c.dat, c.len);
    assert Prefix(c.dat, c.len) == Payload(w);
  }
}
