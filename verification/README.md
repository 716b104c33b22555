# tilltoy core in Dafny

A model of the deterministic core of the tilltoy till firmware (an RP2040 board
with produce buttons, a receipt printer and one SK6812 RGBW LED), with each
async task lifted out as a pure function:

- **Printer** (`printer.dfy`, `framebuffer.dfy`, `bits.dfy`):
  - `image_from_char` as a partial map;
  - `images_from_price`, the five price slots, least significant digit first, then `Pound`, then `Space`;
  - the 1-bit framebuffer's `clear`, `head` and `blit_image` over packed, row-major, most-significant-bit-first bytes with a stride of `(width + 7) / 8`. Both a functional reference `Blit` and an imperative `BlitImage` that follows the source's loops are given, and they are proved equal;
  - the `PrintLine` and `PrintTotal` renders, which clear the buffer, blit the item or footer at the origin, and place the price glyphs right to left with a cursor;
  - the driver loop as `Drive`, from a `DriverEvent` to the bitmap it prints.
- **Transaction state machine** (`state.dfy`): one pass of `main_state` as `Step`, from `(in_transaction, current_price)` and an `InputEvent` to the new state, the `DriverEvent`s sent to the printer and the `LedState` messages sent to the LED task. `err_toggle` and `set_led_state` become message lists.
- **SK6812 wire encoding** (`sk6812.dfy`):
  - the packed `w, b, r, g` colour and its little-endian `raw32` word;
  - the bits that left-shifting with autopull at 32 puts on the wire;
  - the four-instruction PIO program executed as pulses with cycle counts;
  - `write`'s one word per colour.
- **LED driver** (`led.dfy`): the `LedState` to transmission mapping, the startup write, and the writes made over a stream of messages.

Glyph bitmaps are not part of the model. The render functions take them as a
parameter `glyphs: Images -> Image`, so the properties hold for any well-formed
bitmaps. Channels, timers and the printer and PIO hardware calls become
parameters or output lists.

## Model

| member | source | states |
|---|---|---|
| Printer.ImageFromChar | src/printer.rs:21-38 | Each supported character maps to its glyph (digits to the matching digit glyph), and the glyph maps back to the same character |
| Printer.GlyphCharInverse | src/printer.rs:21-38 | Exactly the thirteen glyphs `image_from_char` returns stand for a character, and `image_from_char` gives each one back from that character |
| Printer.FromDigit | src/printer.rs:50 | `char::from_digit(d, 10)` is `Some` exactly when `d < 10`, and that character's glyph is digit glyph `d` |
| Printer.PriceLoop | src/printer.rs:44-53 | Each iteration leaves the five slots five, and it never changes a slot an earlier iteration wrote. What the slots hold is stated by `Printer.PriceLoopAt` |
| Printer.ImagesFromPrice | src/printer.rs:40-56 | Shape only: five slots. Their contents are stated by `Printer.PriceSlotAt` and `Printer.PriceLayout` |
| Printer.PriceLoopAt | src/printer.rs:44-53 | Slot `j` after loop iteration `i` is the glyph the layout puts at `j`, given the digits still to be written |
| Printer.PriceSlotAt | src/printer.rs:40-56 | Slot `j` of `images_from_price(p)` is the layout's slot `j` for `p` |
| Printer.PriceLayout | src/printer.rs:40-56 | Slot `j` of `images_from_price(p)` holds p's `j`-th digit below p's digit count, `Pound` at the digit count, and `Space` beyond it |
| Printer.PriceSlotsPrintable | src/printer.rs:45-50 | Every slot is a glyph `image_from_char` returns, so neither the `unwrap` nor the panic branch is reached |
| Printer.PriceZero | src/printer.rs:41-47 | A price of 0 gives `[Pound, Space, Space, Space, Space]` |
| Printer.NumDigitsBound | src/printer.rs:44-53 | A number has at most `k` decimal digits exactly when it is below `10^k` |
| Printer.SlotIsPound | src/printer.rs:45-47 | The layout has `Pound` in exactly one slot: the one right after the digits |
| Printer.PoundPlacement | src/printer.rs:40-56 | `Pound` appears at most once, and it appears exactly when the price is below 10000 |
| Printer.PriceLoopDecodes | src/printer.rs:44-53 | Reading the slots from iteration `i` onwards, least significant digit first, gives back what remained to be written at `i` |
| Printer.DecodeDigitStep | src/printer.rs:49-51 | A digit-writing iteration reads back as its digit plus ten times whatever the rest of the loop wrote |
| Printer.PriceRoundTrip | src/printer.rs:40-56 | Reading the digit slots back, up to `Pound` or over all five, gives the price for every `u16` |
| Framebuffer.Stride | src/printer.rs:80-81 | A row of `(width + 7) / 8` bytes holds every pixel of the row, with fewer than eight padding bits |
| Framebuffer.Clear | src/printer.rs:67-69 | `clear` keeps the shape and makes every byte zero |
| Framebuffer.ClearedIsBlank | src/printer.rs:67-69 | After `clear`, every bit is off, padding included |
| Framebuffer.Head | src/printer.rs:71-77 | `head(rows)` keeps the width, has `rows` rows, and its data is the first `rows * width / 8` bytes |
| Framebuffer.HeadKeepsTopRows | src/printer.rs:71-77 | When the width is a whole number of bytes, `head(rows)` is a well-formed image whose every bit equals the original's in the first `rows` rows |
| Framebuffer.Blit | src/printer.rs:79-107 | Shape only: the destination keeps its width and height and stays well formed. What each bit becomes is stated by `Framebuffer.BlitOverwrites` and `Framebuffer.BlitKeepsUncovered` |
| Framebuffer.PartialBlitAt | src/printer.rs:84-106 | Part way through the loops, a destination bit holds the source pixel if that pixel has already been copied there, and its old value otherwise |
| Framebuffer.BlitOverwrites | src/printer.rs:79-107 | Every source pixel landing at `(xo + x, yo + y)` inside the destination overwrites the bit there, whatever it held before |
| Framebuffer.BlitKeepsUncovered | src/printer.rs:84-94 | A destination bit that no in-range source pixel lands on keeps its value, and so does every padding bit; clipped pixels are skipped |
| Framebuffer.WrittenPixel | src/printer.rs:96-104 | Writing the copied bit into its destination byte advances the blit by exactly one pixel |
| Framebuffer.CopyPixel | src/printer.rs:96-104 | The inner-loop body over the shifted bit test and the shifted mask advances the partial blit by one pixel |
| Framebuffer.BlitRow | src/printer.rs:90-105 | The inner loop over one on-screen source row, with clipped columns skipped, copies the whole row |
| Framebuffer.BlitImage | src/printer.rs:79-107 | The imperative `blit_image` ends with exactly the image `Blit` defines |
| Bits.SetBit | src/printer.rs:100-104 | Forcing bit `j` to `v` sets that bit to `v` and keeps every other bit |
| Bits.ShiftedTestIsBit | src/printer.rs:97-100 | The test `(b >> (7 - j)) & 1 != 0` reads bit `j`, most significant first |
| Bits.ShiftedOneIsMask | src/printer.rs:99-103 | `1 << (7 - j)` is the mask of bit `j`, most significant first |
| Bits.CopyBit | src/printer.rs:96-104 | The source's copy of one pixel writes the source bit into the destination bit and leaves the other bits alone |
| Printer.GlyphEdges | src/printer.rs:154-159 | Glyph `i`'s left edge is the start minus the advance before it minus its width. Glyph 0 is rightmost, each next glyph ends one gap further left, and every glyph lies left of the start |
| Printer.PlaceGlyphs | src/printer.rs:154-159 | Shape only: the buffer keeps its width and height and stays well formed. The bits are stated by `Printer.GlyphVisible` and `Printer.PlaceGlyphsUntouched` |
| Printer.UncoveredTail | src/printer.rs:156-159 | A bit outside every glyph box is outside the first glyph's box, and outside every box of the glyphs after it once the cursor has moved on |
| Printer.BlitOutsideBox | src/printer.rs:156-157 | Blitting one glyph at `cur_x - width` keeps every bit outside that glyph's box |
| Printer.PlaceGlyphsUntouched | src/printer.rs:154-159 | The loop changes no bit outside every glyph's box: not in the gaps between glyphs, not below a shorter glyph, not above the row, and not right of the start |
| Printer.BandUncovered | src/printer.rs:154-159 | A bit right of the start, above the row, or left of the leftmost glyph lies in no glyph's box |
| Printer.PlaceGlyphsRightOfStart | src/printer.rs:154-159 | The loop changes no bit right of the column it starts from |
| Printer.GlyphVisible | src/printer.rs:156-159 | Every glyph's pixels are in the buffer at its left edge after the whole loop; later glyphs never cover it |
| Printer.ComposedItemVisible | src/printer.rs:151-159 | At every bit outside every price glyph's box, the composed buffer shows the item on a cleared background |
| Printer.ComposeLine | src/printer.rs:149-159 | Shape only: the result is still a 384 by 238 buffer. Its bits are stated by `Printer.LinePriceVisible` and `Printer.LineItemVisible` |
| Printer.RenderLine | src/printer.rs:149-160 | Shape only: an image of the full width and 80 rows. Its bits are stated by `Printer.LineHead`, `Printer.LinePriceVisible` and `Printer.LineItemVisible` |
| Printer.LinePriceVisible | src/printer.rs:149-160 | The printed line shows price glyph `i` at its left edge, with the cursor starting 10 pixels in from the right edge |
| Printer.LineItemVisible | src/printer.rs:149-160 | At every bit of the printed line outside every price glyph's box (right of the cursor's start, between glyphs, below a shorter glyph), the line shows the item on a blank background |
| Printer.LineHead | src/printer.rs:160 | The printed line is the top 80 rows of the composed buffer, bit for bit |
| Printer.LineIgnoresHistory | src/printer.rs:151 | Because of `clear`, a line's bitmap does not depend on what the buffer held before |
| Printer.RenderTotal | src/printer.rs:162-174 | Shape only: the result is still a 384 by 238 buffer. Its bits are stated by `Printer.TotalPriceVisible`, `Printer.TotalFooterVisible` and `Printer.TotalFooterKept` |
| Printer.TotalIgnoresHistory | src/printer.rs:164 | Because of `clear`, a total's bitmap does not depend on what the buffer held before |
| Printer.TotalPriceVisible | src/printer.rs:162-174 | The printed total shows price glyph `i` at its left edge on row 90, with the cursor starting 20 pixels in |
| Printer.TotalFooterVisible | src/printer.rs:164-174 | At every bit outside every price glyph's box on row 90, the printed total shows the footer on a blank background |
| Printer.TotalFooterKept | src/printer.rs:164-174 | Above row 90, the printed total is exactly the footer on a cleared background |
| Printer.Drive | src/printer.rs:143-183 | Header prints the header glyph and Void the void glyph, and both leave the buffer untouched. A line leaves the buffer holding the composed line and prints its top 80 rows. A total leaves the buffer holding the rendered total and prints that whole buffer |
| Printer.DriveAll | src/printer.rs:143-183 | Shape only: the driver prints one bitmap per event. Which bitmap is stated by `Printer.DriveAllAt` |
| Printer.DriveIgnoresHistory | src/printer.rs:143-183 | The bitmap an event prints does not depend on the buffer the driver holds when the event arrives |
| Printer.DriveAllAt | src/printer.rs:143-183 | Bitmap `i` of a run is what event `i` alone prints from a fresh buffer |
| Printer.DriveAllPrints | src/printer.rs:143-183 | Bitmap `i` of a run is the header or void glyph for those events, and for a line or a total it is that line or total rendered on a blank buffer, whatever came before |
| State.Flashes | src/state.rs:21-26 | `n` rounds of the error flash alternate the alert colour and the ambient default, starting with the alert |
| State.ErrToggle | src/state.rs:20-27 | The error sequence is exactly three repetitions of `Color(RGBW::new(128, 0, 0, 0)), Default` |
| State.SetLedState | src/state.rs:29-36 | `set_led_state` sends two messages: `Color(c)` for `Some(c)` or `Default` for `None`, then `Noop` |
| State.Lights | src/state.rs:47-83 | One event's LED messages begin with busy blue and `Noop` and end with `Default` and `Noop`. When the event is refused, the error sequence sits between them and there are 10 messages, otherwise 4 |
| State.Produce | src/state.rs:46-59 | A press leaves a transaction open and prints `PrintHeader` first exactly when none was open. Within the cap, the total becomes the sum and the last print is `PrintLine { image, price }`. Over the cap, the total is the opening one, the only print is the header when the press opened the transaction (nothing otherwise), and the LED messages are the refused ones |
| State.Step | src/state.rs:44-84 | Each event keeps the invariant that idle means a zero total and the total never passes 999. A refused Void or Total changes nothing and prints nothing, and an accepted event prints something. The LED messages begin with busy blue and `Noop` and end with `Default` and `Noop`, with the error sequence between exactly when the event is refused |
| State.ProduceStep | src/state.rs:46-59 | A produce press prints `PrintHeader` first exactly when it opens a transaction. Over the cap, it prints nothing beyond that header, runs the error sequence, and the total is unchanged. Otherwise it prints exactly one `PrintLine { image, price }` and adds the price to the total |
| State.VoidStep | src/state.rs:61-70 | Void in a transaction prints only `PrintVoid` and returns to idle with 0. When idle, it prints nothing and runs the error sequence |
| State.TotalStep | src/state.rs:71-80 | Total in a transaction prints `PrintTotal` with the running total and returns to idle. When idle, it prints nothing and runs the error sequence |
| State.TotalTwiceRefused | src/state.rs:71-80 | A second Total straight after a Total is refused: no print, and the error sequence |
| State.Run | src/state.rs:44-84 | A stream of events applied step by step keeps the state invariant |
| State.RunAppend | src/state.rs:44-84 | Running two streams of events in turn is the same as running their concatenation |
| State.LinesAt | src/state.rs:58 | Line `i` of a produce stream's lines is press `i`'s item and price |
| State.AcceptedPress | src/state.rs:54-58 | Inside a transaction, a press within the cap prints exactly its line and raises the total by its price |
| State.ProduceRun | src/state.rs:54-59 | Inside a transaction, presses within the cap print one line each, in order, and raise the total by their sum |
| State.TransactionFromIdle | src/state.rs:46-59 | From idle, presses summing to at most 999 print one `PrintHeader`, then one `PrintLine` per press in order, and leave their sum as the total |
| State.Receipt | src/state.rs:46-80 | A whole transaction of presses within the cap followed by Total prints the header, the lines and the sum, and returns to the initial state |
| State.ErrToggleWrites | src/state.rs:20-27 | The error sequence makes the LED show the alert colour and the ambient colour in turn, three times |
| State.LightsWrites | src/state.rs:47 | One event's messages make the LED write busy, then the error flashes if refused, then the ambient colour |
| State.StepLights | src/state.rs:82-83 | Every event's LED writes start with the busy blue and end with the ambient green, with the error flashes in between exactly when the event is refused |
| State.WrappingAdd | src/state.rs:54 | `u16` addition wraps by 65536 when the sum overflows and is exact otherwise |
| State.StepAsWritten | src/state.rs:54-57 | The firmware as written, with the wrapped sum, agrees with `Step` on every event other than a produce press |
| State.AsWrittenAgrees | src/state.rs:54-57 | When the sum cannot wrap, the firmware as written and `Step` agree |
| State.WrapAcceptsOverCap | src/state.rs:54-57 | With 1 owed, a price of 65535 wraps to 0. The firmware as written accepts the line and forgets what was owed, while `Step` refuses it |
| State.ButtonsNeverWrap | src/main.rs:173-212 | From every valid state, the wired buttons (prices 1 to 8, Void, Total) cannot reach the wrap |
| Sk6812.New | src/sk6812.rs:30-34 | `RGBW::new(r, g, b, w)` stores each channel unchanged, whatever the argument order |
| Sk6812.Black | src/sk6812.rs:36-38 | `black()` has every channel at 0 |
| Sk6812.FullOn | src/sk6812.rs:40-42 | `full_on()` has every channel at 255 |
| Sk6812.Raw32 | src/sk6812.rs:13-27 | The little-endian load of the packed `w, b, r, g` bytes is the word with green in the top byte, then red, then blue, and white in the bottom byte |
| Sk6812.Raw32Bytes | src/sk6812.rs:135 | The word's bytes, most significant first, are green, red, blue and white |
| Sk6812.ShiftOut | src/sk6812.rs:113-117 | Shape only: `n` shifts put `n` bits on the wire. Which bits is stated by `Sk6812.ShiftOutReadsInOrder` |
| Sk6812.WordBits | src/sk6812.rs:113-117 | Shape only: autopull at 32 puts 32 bits of a word on the wire. Their order is stated by `Sk6812.WireOrderIsGRBW` |
| Sk6812.ShiftOutReadsInOrder | src/sk6812.rs:113-117 | Left shifts out of the output register read it from the leftmost bit onwards |
| Sk6812.WireOrderIsGRBW | src/sk6812.rs:112-117 | One colour puts G, R, B and W on the wire, each most significant bit first |
| Sk6812.WireRoundTrip | src/sk6812.rs:133-136 | An LED decoding the 32 wire bits gets back exactly the colour sent |
| Sk6812.Words | src/sk6812.rs:133-136 | `write` builds one word per colour, in index order |
| Sk6812.FlattenAt | src/sk6812.rs:139 | Bit `k` of frame `i` is bit `32 * i + k` of the stream that autopull feeds out |
| Sk6812.BitStreamAt | src/sk6812.rs:131-139 | Bit `k` of colour `i` is bit `32 * i + k` of the stream the pushed words produce |
| Sk6812.DecodeFlatten | src/sk6812.rs:139 | A chain of LEDs decodes one 32-bit frame each, in order |
| Sk6812.StreamRoundTrip | src/sk6812.rs:131-139 | A chain of LEDs decodes exactly the colours written, in order |
| Sk6812.NextPc | src/sk6812.rs:64-72 | The program counter stays inside the four-instruction program |
| Sk6812.Exec | src/sk6812.rs:64-72 | Executing from `pc` drives at least one pulse, no more than the fuel allows, and the first is the instruction at `pc` with its side-set level for `1 + delay` cycles. The whole pass is stated by `Sk6812.BitTiming` |
| Sk6812.BitPulses | src/sk6812.rs:64-72 | A bit starts with the `out` instruction's low pulse of T3 cycles. The whole bit is stated by `Sk6812.BitTiming` |
| Sk6812.BitTiming | src/sk6812.rs:45-48 | Each bit is low for T3, high for T1, then high for T2 if it is a one or low for T2 if it is a zero. That is 10 cycles in all, 7 of them high for a one and 2 for a zero |
| Sk6812.ReadBitRecoversBit | src/sk6812.rs:64-72 | A receiver that counts a long high time as a one reads back the bit sent |
| Sk6812.PulsesDuration | src/sk6812.rs:45-48 | A bit stream takes 10 cycles per bit |
| Sk6812.Write | src/sk6812.rs:130-142 | A `write` of N colours drives `10 * 32 * N` cycles of pulses and is followed by the 55 µs latch gap |
| Led.Transmission | src/led.rs:78-94 | `Color(c)` transmits exactly `[c]`, `Default` transmits the startup colour `RGBW::new(0, 10, 0, 0)`, and `Off` transmits `[black()]`. `Noop`, and only `Noop`, transmits nothing |
| Led.Run | src/led.rs:73-74 | The driver's first write is the startup write |
| Led.Sent | src/led.rs:91-93 | Exactly the non-`Noop` messages are kept, and no `Noop` is. A single message is kept alone exactly when it is not `Noop` |
| Led.SentAppend | src/led.rs:77-95 | Filtering two streams in turn keeps each stream's messages in order. With `Led.Sent` on single messages, this fixes the order and the multiplicity of what is kept |
| Led.Writes | src/led.rs:77-95 | Shape only: no more writes than messages, and each write is one colour. Which colours is stated by `Led.WritesFollowMessages` |
| Led.WritesFollowMessages | src/led.rs:77-95 | There is one single-colour write per non-`Noop` message, in message order, with the colour that message asks for |
| Led.RunCount | src/led.rs:73-95 | Transmissions are one for startup plus one per non-`Noop` message |
| Led.WritesAppend | src/led.rs:77-95 | Receiving two message streams in turn writes what each does alone, one after the other |
| Led.Frames | src/led.rs:73-95 | Every write the driver makes becomes one `write` waveform frame, in order. What each frame carries is stated by `Led.FrameOf` |
| Led.FrameOf | src/led.rs:73-95 | Frame 0 is the `write` of the startup colour and frame `i + 1` the `write` of the colour non-`Noop` message `i` asks for. Every frame lasts 32 bits of 10 cycles, then the 55 µs latch gap |

## Left out

- `src/main.rs` is not part of this model:
  - the UART wrapper, the peripheral and interrupt bootstrap, and the button tasks with their debounce. These are I/O, timing and concurrency.
  - Only the button table (prices 1 to 8) is used, as constants in `State.Buttons`.
- The embassy channels, `Timer` delays and async sequencing. Each task's sends become an output list. The one-slot mailbox and the 200 ms and 400 ms waits are not modelled.
- The printer protocol calls (`set_*`, `print_image`, `raw`, `feed`). These are a foreign library doing I/O, so the model's output is the bitmap handed to `print_image`.
- The PNG glyph bitmaps and their widths are a parameter `glyphs`. For the same reason, `Header` and `Void` are modelled as the bitmap printed, not as printer commands.
- Printer.ImageFromChar: the panic for an unsupported character is a precondition (`SupportedChar`). It is never reached from `images_from_price` (see `Printer.PriceSlotsPrintable`).
- Printer.PlaceGlyphs: the `u16` underflow of `cur_x - img.width` and `cur_x -= img.width + 5` is a precondition (`Placeable`, with the whole advance at most the start), because the source would panic or wrap there.
- Framebuffer.Blit: the `u16` overflow of `x + x_offset`, `y + y_offset` and `width + 7` is a precondition (`BlitArgs`).
- Framebuffer.HeadKeepsTopRows: requires the width to be a multiple of 8. `head` slices `rows * width / 8` bytes rather than `rows` strides, so for other widths it does not show whole rows. The driver's width, 384, qualifies.
- Framebuffer.Head: the slice panics when it runs past the data, which is modelled as a precondition.
- The commented-out code after the driver loop in `src/printer.rs`.
- The PIO and DMA hardware setup, and the fixed-point `U24F8` clock divider. These are hardware configuration and fixed-point arithmetic. Pulse lengths are stated in state-machine cycles, not in time.
- Sk6812.Write: the 55 µs latch wait is recorded as a number in the frame, not as elapsed time.
- Sk6812.DecodeStream: the receiver drops a trailing partial frame. This is a model of the LED chain, not of the firmware.
- Sk6812.Exec: termination uses a fuel bound of the program's length. Every bit finishes within it (see `Sk6812.BitTiming`).

## Findings

| source | as written | input that shows it | evidently intended | confidence | as-written member | corrected member |
|---|---|---|---|---|---|---|
| src/state.rs:54-57 | `current_price + price as u16` is `u16` addition. It wraps in a build without overflow checks (and panics in one with them), so the cap is checked against, and the total set to, the wrapped sum | In a transaction with `current_price = 1`, a produce press of price 65535: the sum wraps to 0, so the line is accepted and the total drops to 0 | Refuse the press, because the true sum is over 999 | low; not executed; unreachable from the wired buttons, whose prices are 1 to 8 (`State.ButtonsNeverWrap`) | State.WrapAcceptsOverCap | State.ProduceStep |
