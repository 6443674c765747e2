# RM67162 panel driver — a Dafny model

This project models the command protocol and pixel-transfer engine of the
RM67162 AMOLED panel driver (`RM67162.cpp`), together with its small
bitmap text renderer. Every bus-level driver operation is a pure function
that returns the ordered trace of bus events it would emit:

- a command byte or a data byte on the 4-wire serial transport;
- one quad-SPI transaction;
- a reset-line level, a delay, the one-time bus set-up;
- a bulk stream of 16-bit pixels.

The text operations (`Text.DrawChar`, `Text.DrawText`) return instead the
ordered list of draw calls they make (`lcd_DrawPoint` or `lcd_fill`), and
`Text.PaintAll` turns such a list into its bus trace.

A decoder (`Bus.Decode`) reads such a trace back into what the panel
controller sees: commands with their parameter bytes, waits, reset levels
and pixel streams. Most properties are stated through it, as round trips
between what a driver call was asked to do and what the controller
receives.

The transport selected at build time (`LCD_USB_QSPI_DREVER`) is a
parameter of the model. C integer widths are written out explicitly:
- `uint16_t` narrowing is reduction modulo 2^16.
- The `int16_t` text cursor wraps in two's complement.
- `cmd << 8` and `8 * len` are 32-bit unsigned.
- The `int` product `w * h * 2` is taken to wrap at 32 bits. Signed overflow is undefined in C, and wrapping is what two's-complement targets do.

Modules, following the source's structure:

| module | file | models |
|---|---|---|
| `Bits` | bits.dfy | fixed-width integers, byte packing, bit counting |
| `Bus` | bus.dfy | bus events, controller actions, the decoder |
| `Dispatch` | dispatch.dfy | `lcd_send_cmd` |
| `PanelInit` | panel_init.dfy | the two init tables and `rm67162_init` |
| `Rotation` | rotation.dfy | `lcd_setRotation` |
| `Window` | window.dfy | `lcd_address_set`, both `lcd_PushColors`, `lcd_DrawPoint`, `lcd_fill` |
| `Text` | text.dfy | `lcd_drawChar`, `lcd_drawText` |
| `Commands` | commands.dfy | the one-line command wrappers |

The text renderer is modelled in three layers:
1. The glyph cells a character paints: column, row and colour.
2. The draw calls those cells become: a point, or a block for `lcd_fill`.
3. The bus events of those calls.

`Text.DrawChar` and `Text.DrawColumn` are loops with invariants, shaped
like the source's two nested loops.

## Model

| member | source | states |
|---|---|---|
| Dispatch.SendCmd | Code/Squareline_Display_Code/RM67162.cpp:55-79 | Serial: the low byte of the opcode as a command byte, then exactly `len` data bytes equal to `dat[0..len)` in order (the command alone when `len` is 0). Quad: one transaction with command 0x02, address `(cmd << 8) mod 2^32`, bit count `(8*len) mod 2^32`, and a null buffer exactly when `len` is 0. |
| Dispatch.OpcodeInAddress | Code/Squareline_Display_Code/RM67162.cpp:62 | The 32-bit address `cmd << 8` has zero low byte and carries the opcode's low byte in bits 8..15. |
| Dispatch.SendCmdDecodes | Code/Squareline_Display_Code/RM67162.cpp:55-79 | On either transport the controller receives exactly one command: the opcode's low byte with the first `len` bytes of `dat`. On the quad transport this needs bits 8..15 of the opcode clear and `8*len` not to wrap. Only the 24 address bits that are sent are read, so bits 16 and up of the opcode are dropped. |
| Dispatch.WideOpcodeIsNoCommand | Code/Squareline_Display_Code/RM67162.cpp:62 | An opcode with bits 8..15 set (here 0x1234) shifts them into bits 16..23 of the quad address, and the resulting transaction is not read as any panel command. |
| Dispatch.HighOpcodeBitsAreNotSent | Code/Squareline_Display_Code/RM67162.cpp:62 | Bits 16 and up of the opcode leave the 24-bit address phase (`address_bits = 24`, line 104), so `0x1_0029` reaches the panel as display-on, 0x29. |
| PanelInit.Table | Code/Squareline_Display_Code/RM67162.cpp:7-23 | In both init tables every entry's `len & 0x7f` is at most the number of data bytes it holds. |
| PanelInit.TablesSettleOnSleepOutAndDisplayOn | Code/Squareline_Display_Code/RM67162.cpp:7-23 | In both tables, exactly the sleep-out (0x11) and display-on (0x29) entries carry the settle flag. The pixel-format entry (0x3A) and a brightness entry (0x51) come before display-on. |
| PanelInit.EntryDecodes | Code/Squareline_Display_Code/RM67162.cpp:129-136 | One loop iteration yields the entry's command with its first `len & 0x7f` data bytes. A 120 ms wait follows if and only if `len & 0x80` is set. |
| PanelInit.Replay | Code/Squareline_Display_Code/RM67162.cpp:122-136 | The init loop: each entry sent through the dispatcher with `len & 0x7f` bytes, plus a 120 ms delay when bit 7 is set. Its only contract is that the trace starts on a frame boundary (`Bus.Boundary`: no stray data byte first), so it can be appended without merging into an earlier command. What the panel receives is stated by `PanelInit.ReplayIssuesSchedule`. |
| PanelInit.ReplayIssuesSchedule | Code/Squareline_Display_Code/RM67162.cpp:122-136 | Replaying any well-formed table issues every entry exactly once and in table order, each with `len & 0x7f` parameters. Each is settled by a 120 ms wait exactly when its bit 7 is set, and nothing else is issued. |
| PanelInit.PrologueDecodes | Code/Squareline_Display_Code/RM67162.cpp:85-120 | The reset prologue decodes to reset low, 300 ms, reset high, 200 ms, then bus set-up. |
| PanelInit.Init | Code/Squareline_Display_Code/RM67162.cpp:81-137 | `rm67162_init`: the reset prologue, then the transport's table. It carries no contract of its own; its behaviour is stated by `PanelInit.InitSequence`. |
| PanelInit.InitSequence | Code/Squareline_Display_Code/RM67162.cpp:81-137 | Initialisation starts with those five actions, before any panel command. Everything after them is the transport's table, issued as the replay lemma describes. |
| Rotation.SetRotation | Code/Squareline_Display_Code/RM67162.cpp:139-148 | `lcd_setRotation`: one dispatcher call with the MADCTL register and the one-byte mask. It carries no contract of its own; its behaviour is stated by `Rotation.SetRotationDecodes`. |
| Rotation.SetRotationDecodes | Code/Squareline_Display_Code/RM67162.cpp:139-148 | Rotation issues exactly one MADCTL command with exactly one parameter byte, the computed mask. |
| Rotation.Mask | Code/Squareline_Display_Code/RM67162.cpp:140-146 | The `switch` that builds the MADCTL byte. It carries no contract of its own; its values are stated by `Rotation.MaskKeepsColourOrder`, `Rotation.MaskOrientationBits` and `Rotation.OrientationRoundTrip`. |
| Rotation.MaskKeepsColourOrder | Code/Squareline_Display_Code/RM67162.cpp:140-146 | The mask always contains the RGB bits. For any `r` other than 1, 2 or 3 it is exactly the RGB bits. |
| Rotation.MaskOrientationBits | Code/Squareline_Display_Code/RM67162.cpp:142-146 | The mask contains MX and MV for r = 1, MX and MY for r = 2, and MV and MY for r = 3. |
| Rotation.OrientationRoundTrip | Code/Squareline_Display_Code/RM67162.cpp:139-148 | When MX, MY and MV are distinct single bits apart from RGB, the orientation is read back from the byte sent: 1, 2 or 3, or 0 for every other `r`. |
| Window.AddressSet | Code/Squareline_Display_Code/RM67162.cpp:150-159 | `lcd_address_set`: the three-entry command table sent entry by entry. Its only contract is that the trace starts on a frame boundary (`Bus.Boundary`: no stray data byte first), so it can be appended without merging into an earlier command. What the panel receives is stated by `Window.AddressSetDecodes`. |
| Window.PairCommandDecodes | Code/Squareline_Display_Code/RM67162.cpp:152-153 | A coordinate command carries `[a>>8, a&0xFF, b>>8, b&0xFF]`. |
| Window.AddressSetDecodes | Code/Squareline_Display_Code/RM67162.cpp:150-159 | Exactly three commands in order: 0x2A with the x pair, 0x2B with the y pair, then 0x2C with no parameter. The window parsed back from them is `(x1, y1, x2, y2)`. |
| Window.PushColors | Code/Squareline_Display_Code/RM67162.cpp:175-187 | Serial `lcd_PushColors(x, y, w, h, data)`: a window set, then `(w*h*2 mod 2^32)/2` values of `data`; it requires `data` to hold that many. Its only contract is that the trace starts on a frame boundary (`Bus.Boundary`: no stray data byte first), so it can be appended without merging into an earlier command. What the panel receives is stated by `Window.PushColorsDecodes`. |
| Window.PushColorsDecodes | Code/Squareline_Display_Code/RM67162.cpp:175-187 | Serial `lcd_PushColors` opens the window `(x, y, x+w-1, y+h-1)` modulo 2^16. It then streams the first `w*h` values of `data` in order; the count wraps when `w*h*2` overflows 32 bits. |
| Window.PushColorsInSync | Code/Squareline_Display_Code/RM67162.cpp:175-187 | The window's area equals the number of pixels streamed if and only if `w, h >= 1`, the rectangle does not run past 65535, and `w*h < 2^31`. |
| Window.ProductBound | Code/Squareline_Display_Code/RM67162.cpp:183 | The product of two `uint16_t` values is below 2^32, so the byte count wraps at most once. |
| Window.PushStream | Code/Squareline_Display_Code/RM67162.cpp:189-200 | A bulk write is one pixel stream; when `len < 2^31` it carries exactly `data[0..len)`. |
| Window.DrawPoint | Code/Squareline_Display_Code/RM67162.cpp:170-173 | `lcd_DrawPoint`: the window `(x, y, x+1, y+1)`, then a one-value bulk write. Its only contract is that the trace starts on a frame boundary (`Bus.Boundary`: no stray data byte first), so it can be appended without merging into an earlier command. What the panel receives is stated by `Window.DrawPointDecodes`. |
| Window.DrawPointDecodes | Code/Squareline_Display_Code/RM67162.cpp:170-173 | A point opens the window `(x, y, x+1, y+1)` (modulo 2^16) and streams exactly the one value `color`. |
| Window.DrawPointOutOfSync | Code/Squareline_Display_Code/RM67162.cpp:170-173 | That window never holds exactly the one pixel streamed. |
| Window.Fill | Code/Squareline_Display_Code/RM67162.cpp:161-168 | `lcd_fill`: the narrowed exclusive-end differences as width and height, and a buffer of `w*h` copies of `color` pushed through `lcd_PushColors`. Its only contract is that the trace starts on a frame boundary (`Bus.Boundary`: no stray data byte first), so it can be appended without merging into an earlier command. What the panel receives is stated by `Window.FillStream` and `Window.FillDecodes`. |
| Window.FillStream | Code/Squareline_Display_Code/RM67162.cpp:161-168 | A fill is `lcd_PushColors` with `w = (xend-xsta) mod 2^16`, `h = (yend-ysta) mod 2^16` and a buffer holding only `color`. |
| Window.FillDecodes | Code/Squareline_Display_Code/RM67162.cpp:161-168 | For every input a fill opens `(xsta, ysta, xend-1, yend-1)` modulo 2^16 and streams only copies of `color`, `w*h` of them up to the 32-bit wrap (with the loop taken to fill the whole buffer, see Left out). For ordered corners whose area fits, that is exactly `(xend-xsta)*(yend-ysta)`. |
| Window.ExclusiveEnd | Code/Squareline_Display_Code/RM67162.cpp:162-163 | A window starting at `s` with the narrowed width `e - s` ends at `e - 1` modulo 2^16, whatever the order of `s` and `e`. |
| Bits.PixelCount | Code/Squareline_Display_Code/RM67162.cpp:183 | The pixels sent for `w*h*2` bytes: at most `w*h`, and exactly `w*h` when it is below 2^31. |
| Bits.PackPair | Code/Squareline_Display_Code/RM67162.cpp:152-153 | The four packed bytes decode big-endian back to the two coordinates. |
| Bits.WrappedDifference | Code/Squareline_Display_Code/RM67162.cpp:228-233 | The difference of two narrowed coordinates, narrowed again, is the true difference whenever that fits 16 bits. |
| Bits.ToI16OfSum | Code/Squareline_Display_Code/RM67162.cpp:244 | Wrapping an `int16_t` cursor after each step is the same as wrapping the total once. |
| Bits.CountBitsIsPopcount | Code/Squareline_Display_Code/RM67162.cpp:224-236 | Testing bits one at a time while shifting right counts the set bits of the byte. |
| Text.DrawChar | Code/Squareline_Display_Code/RM67162.cpp:218-238 | The character's draws are the placements of its glyph cells, column by column: nothing outside 32..126. |
| Text.DrawColumn | Code/Squareline_Display_Code/RM67162.cpp:224-236 | The row loop yields the placements of rows 0..7 of column `i`, top to bottom, testing the low bit and shifting right. |
| Text.RowStep | Code/Squareline_Display_Code/RM67162.cpp:226-234 | One row adds the foreground placement if the bit is set, the background placement if not and `bg != color`, and nothing otherwise. |
| Text.NonPrintableIsSilent | Code/Squareline_Display_Code/RM67162.cpp:220 | A code outside 32..126 yields no draw and no bus event. |
| Text.ColumnPopcount | Code/Squareline_Display_Code/RM67162.cpp:224-236 | With equal colours a column paints one cell per set bit of its byte. |
| Text.CharDrawCount | Code/Squareline_Display_Code/RM67162.cpp:218-238 | With equal colours a printable character makes as many draws as its glyph has set bits; with different colours it makes exactly 40. |
| Text.OpaqueLayout | Code/Squareline_Display_Code/RM67162.cpp:223-236 | With different colours, cell `8*i + j` is column `i`, row `j`, in the foreground iff bit `j` of byte `i` is set. |
| Text.Place | Code/Squareline_Display_Code/RM67162.cpp:227-233 | The draw call for one glyph cell: a point at `(x+i, y+j)` when `size` is 1, otherwise the fill from `(x+i*size, y+j*size)` to `(x+(i+1)*size, y+(j+1)*size)`, all narrowed to `uint16_t`. The contract: the call keeps the cell's colour, and it is a point if and only if `size` is 1. `Text.ScaledCellIsSizeSquare` states the block's extent. |
| Text.OpaqueDraws | Code/Squareline_Display_Code/RM67162.cpp:223-234 | With different colours, draw `8*i + j` is the point `(x+i, y+j)` or the block of cell `(i, j)`. |
| Text.TransparentIsOpaqueWithoutBackground | Code/Squareline_Display_Code/RM67162.cpp:226-234 | With equal colours the cells painted are exactly the foreground cells of an opaque rendering, in the same order. |
| Text.ScaledCellIsSizeSquare | Code/Squareline_Display_Code/RM67162.cpp:228-233 | At size other than 1 a cell's block is exactly `size` wide and high (modulo 2^16) wherever the cursor is. |
| Text.NeighbouringBlocksMeet | Code/Squareline_Display_Code/RM67162.cpp:228-233 | The block of a cell starts where the block to its left, and the block above it, ends. |
| Text.SizeSquareStreams | Code/Squareline_Display_Code/RM67162.cpp:161-168 | Such a block streams exactly `size*size` pixels, all in its colour. |
| Text.PaintAll | Code/Squareline_Display_Code/RM67162.cpp:161-187 | The bus trace of a list of draw calls, each through `lcd_DrawPoint` or `lcd_fill`, in order. Its only contract is that the trace starts on a frame boundary (`Bus.Boundary`: no stray data byte first), so it can be appended without merging into an earlier command. What the panel receives is stated by `Text.PaintAllStreams`. |
| Text.PaintDecodes | Code/Squareline_Display_Code/RM67162.cpp:161-173 | A single draw call (`lcd_DrawPoint` or `lcd_fill`) reaches the controller as its window (point: `(x, y, x+1, y+1)`; fill: `(xsta, ysta, xend-1, yend-1)`, modulo 2^16), then one stream of its colour: one pixel for a point, the wrapped area for a fill. |
| Text.PaintAllStreams | Code/Squareline_Display_Code/RM67162.cpp:161-187 | A list of draw calls decodes to four actions per call, in call order. The `k`-th group of four is the window and pixel stream of the `k`-th call, so the trace holds exactly one stream per call. |
| Text.CharStreamCount | Code/Squareline_Display_Code/RM67162.cpp:218-238 | On the bus a printable character issues one pixel stream per set bit (equal colours) or 40 (different colours). |
| Text.TextLength | Code/Squareline_Display_Code/RM67162.cpp:242 | The characters drawn are those before the first NUL. |
| Text.CursorStep | Code/Squareline_Display_Code/RM67162.cpp:244 | Advancing the cursor once and then `k` steps is the cursor for `k+1` steps. |
| Text.DrawText | Code/Squareline_Display_Code/RM67162.cpp:240-247 | `lcd_drawText`: draw the characters up to the first NUL, advancing `x` by `6*size` in `int16_t` after each. It carries no contract of its own; its behaviour is stated by `Text.TextFollowsLayout` and `Text.TextStopsAtNul`. |
| Text.TextFollowsLayout | Code/Squareline_Display_Code/RM67162.cpp:240-247 | `lcd_drawText` draws character `k` at `x + 6*size*k` (as `int16_t`) on row `y`, in order, for every `k` before the first NUL, and nothing else. |
| Text.TextStopsAtNul | Code/Squareline_Display_Code/RM67162.cpp:242 | Whatever follows the first NUL does not change the drawing. |
| Commands.AsWritten | Code/Squareline_Display_Code/RM67162.cpp:202-212 | The dispatcher call each one-line wrapper makes, exactly as written, including `NULL, 0x01` for the four display switches. It carries no contract of its own; `Commands.AsWrittenUnreadable` states which calls are unreadable. |
| Commands.AsWrittenUnreadable | Code/Squareline_Display_Code/RM67162.cpp:202-212 | Exactly the four display and inversion switches call the dispatcher with a null pointer and length 1. |
| Commands.Corrected | Code/Squareline_Display_Code/RM67162.cpp:202-212 | Each corrected call is readable and carries the wrapper's opcode with as many bytes as it has parameters. |
| Commands.CorrectionIsMinimal | Code/Squareline_Display_Code/RM67162.cpp:202-212 | The correction keeps every opcode and pointer. It changes a call if and only if the call as written is unreadable. |
| Commands.IssueDecodes | Code/Squareline_Display_Code/RM67162.cpp:202-212 | A corrected wrapper issues exactly one command on either transport: its opcode, with the caller's byte or with no parameter. |

## Left out

- Peripheral calls are not modelled: `SPI.begin`, `beginTransaction`, `spi_bus_initialize`, `spi_bus_add_device`, `spi_device_polling_transmit` and `ESP_ERROR_CHECK`. Neither are the chip-select, data/command and `pinMode` line handling. They are foreign calls; the model records one event per byte, transaction, stream, reset level or delay instead.
- The quad-transport bodies of both `lcd_PushColors` overloads are elided in the source. The pixel paths (`PushColors`, `PushStream`, `DrawPoint`, `Fill` and text) are therefore modelled on the serial transport only.
- The on-wire byte order of pixels: `SPI.writeBytes` reinterprets the `uint16_t` buffer as bytes, so the order depends on the target's endianness. A stream is modelled as a sequence of 16-bit values.
- Real timing: a delay is an event carrying its length in milliseconds.
- `heap_caps_malloc` and `free` in `lcd_fill` are not modelled. A failed allocation is not modelled either; the buffer is the sequence it is filled with.
- The contents of the glyph table and the values of `TFT_MADCTL` and `TFT_MAD_*` are parameters (`font`, `Madctl`). They live in `rm67162.h` and `font5x7.h`, which are not part of this model. `pins_config.h` holds build constants only and is not part of this model.
- Window.FillDecodes: the loop `for (int i = 0; i < w * h; i++)` is taken to fill all `w*h` elements. When `w*h` exceeds what the 32-bit byte count carries, only the stream's wrapped length is stated, not the behaviour of the overflowing `int` arithmetic in `malloc` and in the loop.
- Text.DrawChar: the source's `char` is a byte; codes 128..255 are rejected whether `char` is signed or unsigned, so the signedness of `char` is not modelled.
- Dispatch.SendCmdDecodes: on the quad transport it requires bits 8..15 of `cmd` clear and `len < 2^29`. An opcode with any of bits 8..15 set puts them into bits 16..23 of the address phase, and such a transaction carries no panel command (`Dispatch.WideOpcodeIsNoCommand`). Above `2^29`, `8*len` wraps and the transaction no longer carries `len` bytes. Every caller in the driver passes a one-byte opcode and a short parameter list. The framing function itself (`Dispatch.SendCmd`) is stated for every length.
- `lcd_display_high_brightness_mode_on` and `_off` both send 0xB0 with the caller's byte; the model keeps them as two wrappers with the same opcode.

## Findings

| source | as written | input that shows it | evidently intended | confidence | as-written member | corrected member |
|---|---|---|---|---|---|---|
| Code/Squareline_Display_Code/RM67162.cpp:205-208 | `lcd_display_off`, `lcd_display_on`, `lcd_display_invert_on` and `lcd_display_invert_off` call `lcd_send_cmd(op, NULL, 0x01)`. The serial path then reads one parameter byte through a null pointer, and the quad path requests an 8-bit data phase from a null buffer. | `lcd_display_on()` | These four commands take no parameter and should pass length 0, as `lcd_sleep` does | not executed | Commands.AsWrittenUnreadable | Commands.Corrected, Commands.IssueDecodes |
