# sycl-badge simulator core, modelled in Dafny

This project models the core of the SYCL badge web simulator: the host side of a
WASM-4 style fantasy console. A cartridge is a WebAssembly module. It draws into a
160x128 RGB565 framebuffer that lives inside its own linear memory. It reads the
buttons and the light sensor from memory-mapped registers, and it drives five
neopixels and a red LED through further registers. It can keep one 256-byte page
of flash.

The host side modelled here is:

- **The framebuffer's rasteriser** (`Framebuffer`, `Commands`, `Rect`, `Oval`, `Line`, `Sprites`, `Text`): points, clipped horizontal and vertical runs, rectangles, the midpoint ellipse, Bresenham lines, 1- and 2-bit palette sprites, 16-bit sprites, and text in an 8x8 font. It also models the counter of pixel writes that the compositor drains each frame.
- **The runtime** (`Runtime`), with these parts:
  - the framebuffer seen as a little-endian 16-bit view of the guest memory;
  - construction and `reset`;
  - the pause flags and the per-frame `update`;
  - the fault handler that paints the blue crash screen;
  - the text chosen for each kind of fault;
  - the flash page;
  - C strings;
  - the control, light, neopixel and LED registers;
  - the host `text` and `blit` functions.
- **Save states** (`Snapshot`).
- **The audio worklet's sample queues** (`Audio`).
- **The pause menu's input handling** (`Menu`).
- **The constants and colour helpers** (`Constants`, `Color`).
- **The JavaScript number conversions** that all of the above rely on (`JsNumbers`): `ToUint16`, `ToUint32`, `ToInt32`, and the truncating `%`.

Everything is a pure function over immutable values:

- **Framebuffer.** A framebuffer is `Fb(pixels, changed)`, and cell `(x, y)` is `At(pixels, x, y)`.
- **Machine.** A runtime is a `Machine` holding its memory and flash as byte sequences, its pause state, its pixel counter and the audio unit's tick count.
- **Drawing.** The drawing primitives of `drawOval` and `drawLine` are modelled as the list of clipping-helper calls they make (`Commands.Cmd`), executed in order by `Commands.Apply`.
- **Errors.** An operation that can throw a `RangeError` returns `Outcomes.Result`.
- **The guest.** The guest's exported `start` and `update` functions are given as their outcome (`Runtime.Run`): the machine the call left behind, and the fault it threw if it threw one.

## Model

| member | source | states |
|---|---|---|
| JsNumbers.ToUint16 | simulator/src/framebuffer.ts:30 | a Uint16Array store keeps the value modulo 2^16: the result is in [0, 2^16), congruent to the input, and equal to it when it is already in range |
| JsNumbers.ToInt32 | simulator/src/ui/utils.ts:50-52 | the bit operators see the 32-bit two's complement: in [-2^31, 2^31), congruent modulo 2^32, and the identity on that range |
| JsNumbers.Rem | simulator/src/ui/menu-overlay.ts:213 | JavaScript `%` truncates: the result has the dividend's sign and the magnitude `Abs(a) % b`, so it agrees with Euclidean `%` on non-negative dividends and is its negated mirror on negative ones |
| JsNumbers.RemByTwo | simulator/src/framebuffer.ts:142 | `b % 2` is -1 for negative odd `b`, where Euclidean remainder gives 1 |
| Constants.RegisterMapDisjoint | simulator/src/constants.ts:10-15 | the controls, light level, neopixel, LED and battery registers share no byte and all lie below the framebuffer at 0x20 |
| Constants.FramebufferSize | simulator/src/framebuffer.ts:14 | the framebuffer view covers 40960 bytes, ending at 0xA020 |
| Constants.ControlsAreDistinctBits | simulator/src/constants.ts:17-26 | every control is one bit and no two controls share a bit |
| Constants.PauseFlagsIndependent | simulator/src/constants.ts:29-30 | CRASHED and REBOOTING are distinct single bits: clearing or setting one leaves the other as it was |
| Constants.NoneIsNotAColor | simulator/src/constants.ts:32 | the "no colour" sentinel is outside the 16-bit colour range |
| Color.Pack565 | simulator/src/ui/utils.ts:46-48 | on the documented component ranges the packed value is 16-bit, and each component sits in its own field (blue bits 0-4, green 5-10, red 11-15) |
| Color.Unpack565 | simulator/src/ui/utils.ts:50-52 | green and blue always land in their 6- and 5-bit ranges; every 16-bit input unpacks to in-range components |
| Color.Unpack888 | simulator/src/ui/utils.ts:54-56 | the first two components are bytes, and the third is a byte for 24-bit inputs |
| Color.UnpackPack565 | simulator/src/ui/utils.ts:46-52 | unpacking a packed colour gives back its components |
| Color.PackUnpack565 | simulator/src/ui/utils.ts:46-52 | every 16-bit value is the packing of its unpacked components |
| Color.Unpack888Recovers | simulator/src/ui/utils.ts:54-56 | a 24-bit value is recovered from its three bytes: the first component is bits 8-15, the second bits 0-7, the third bits 16-23 |
| Framebuffer.Store | simulator/src/framebuffer.ts:29-32 | an indexed typed-array store changes exactly that element, to the value modulo 2^16, and an index outside the array changes nothing |
| Framebuffer.RelativeIndex | simulator/src/framebuffer.ts:25 | the relative index of `TypedArray.fill` lies within the array and equals a non-negative index clamped to the length |
| Framebuffer.Fill | simulator/src/framebuffer.ts:25 | `fill(c, start, end)` sets exactly the elements between the two relative indices and leaves the others |
| Framebuffer.ClippedLength | simulator/src/framebuffer.ts:46-58 | the clipped run is no longer than the run or the axis, and non-empty only when the run overlaps the axis |
| Framebuffer.PixelsExtensional | simulator/src/framebuffer.ts:14 | the row-major view is one-to-one: two pixel arrays that agree on every (x, y) are equal |
| Framebuffer.Init | simulator/src/framebuffer.ts:13-16 | a framebuffer over fresh memory is black with a zero counter |
| Framebuffer.CountChangedPixelsAndReset | simulator/src/framebuffer.ts:18-22 | returns the counter and drains it to zero, pixels untouched |
| Framebuffer.CountTwiceIsZero | simulator/src/framebuffer.ts:18-22 | a second drain in a row returns 0 |
| Framebuffer.FillScreen | simulator/src/framebuffer.ts:24-27 | every cell takes the colour and the counter grows by WIDTH*HEIGHT |
| Framebuffer.DrawPoint | simulator/src/framebuffer.ts:29-32 | an on-screen point changes exactly that cell; the counter grows by one even for an off-screen point |
| Framebuffer.DrawPointUnclipped | simulator/src/framebuffer.ts:34-38 | an on-screen point changes exactly that cell and counts one; an off-screen point changes nothing at all |
| Framebuffer.DrawHLineFast | simulator/src/framebuffer.ts:40-44 | on a screen row within bounds exactly the run `[startX, endX)` changes; the counter moves by `endX - startX`, negative if the run is reversed |
| Framebuffer.DrawHLineUnclipped | simulator/src/framebuffer.ts:46-58 | exactly the on-screen cells of the run change, and the counter grows by their number |
| Framebuffer.DrawHLine | simulator/src/framebuffer.ts:60-62 | exactly the on-screen cells of `[x, x+len)` in row y change and are counted; a run that misses the screen changes nothing |
| Framebuffer.Column | simulator/src/framebuffer.ts:72-74 | the loop of drawPoint calls paints exactly the rows `[yy, endY)` of the column and counts each |
| Framebuffer.DrawVLine | simulator/src/framebuffer.ts:64-75 | exactly the on-screen cells of `[y, y+len)` in column x change and are counted; a run that misses the screen changes nothing |
| Commands.Exec | simulator/src/framebuffer.ts:34-58 | a point or run command through its clipping helper keeps the framebuffer well formed |
| Commands.Apply | simulator/src/framebuffer.ts:135-242 | executing helper calls in order leaves each cell with the colour of the last call covering it, and the counter grows by the on-screen cells written |
| Commands.LastCoverOfPlots | simulator/src/framebuffer.ts:212-242 | for one-colour point plots the last cover of a cell is that colour exactly when the cell was plotted |
| Commands.LastCoverOfOneColour | simulator/src/framebuffer.ts:171-177 | for commands of one colour, such as the runs of a fill-only oval, the last cover of a cell is that colour exactly when some command covers it |
| Commands.TotalCostAppend | simulator/src/framebuffer.ts:135-242 | the cells counted by two command lists add up |
| Commands.TotalCostReversed | simulator/src/framebuffer.ts:212-242 | the cells counted do not depend on the order of the commands |
| Commands.InReversed | simulator/src/framebuffer.ts:212-242 | reversing a command list keeps its membership |
| Rect.RectClip | simulator/src/framebuffer.ts:82-87 | the clamped bounds lie on the screen, and their extent is the clipped length of the rectangle on each axis |
| Rect.Rows | simulator/src/framebuffer.ts:89-93 | the fill loop paints exactly the rows `[yy, endY)` of the span and counts `endX - startX` per row |
| Rect.Fill | simulator/src/framebuffer.ts:89-93 | the fill paints exactly the clipped rectangle and moves the counter by rows times the clamped span |
| Rect.SideEdges | simulator/src/framebuffer.ts:96-108 | the left and right edges are painted down their columns, each only when its column is on screen |
| Rect.TopBottomEdges | simulator/src/framebuffer.ts:110-118 | the top and bottom edges are painted across the clamped span, each only when its row is on screen |
| Rect.Stroke | simulator/src/framebuffer.ts:95-119 | the stroke paints exactly the cells on a visible edge and counts each edge's cells |
| Rect.DrawRect | simulator/src/framebuffer.ts:77-120 | every cell ends as stroke on an edge, else fill inside the clipped rectangle, else unchanged; the counter moves by the fill and the edge terms; with neither colour nothing changes |
| Rect.DrawRectStaysInside | simulator/src/framebuffer.ts:77-120 | a rectangle at least one cell wide and high changes no cell outside its clipped extent |
| Rect.DrawRectCorner | simulator/src/framebuffer.ts:77-120 | a 10x10 fill at (-5, -5) paints exactly the visible 5x5 corner and counts 25 |
| Rect.DrawRectFillOffscreen | simulator/src/framebuffer.ts:82-93 | a fill-only rectangle right of the screen or of negative width paints nothing and never raises the counter |
| Rect.DrawRectZeroWidthStrokes | simulator/src/framebuffer.ts:95-108 | a zero-width rectangle still strokes column x and column x-1, outside its empty clipped extent |
| Rect.DrawRectCounterDecreases | simulator/src/framebuffer.ts:82-93 | `drawRect(NONE, 0x1234, 200, 0, 10, 10)` leaves the pixels alone and moves the counter by -400 |
| Rect.GuardedFill | simulator/src/framebuffer.ts:89-93 | the guarded fill paints the clipped rectangle and counts exactly its cells |
| Rect.GuardedStroke | simulator/src/framebuffer.ts:95-119 | the guarded stroke paints the same edges and counts each visible edge's cells |
| Rect.DrawRectGuarded | simulator/src/framebuffer.ts:77-120 | with reversed spans skipped, drawRect paints the same cells and the counter never decreases |
| Rect.GuardedAgreesWithDrawRect | simulator/src/framebuffer.ts:77-120 | the guarded drawRect paints exactly what drawRect paints, and is identical to it whenever the clamped span is not reversed |
| Oval.MirroredAppend | simulator/src/framebuffer.ts:163-196 | the four-way symmetry of the emitted points and runs survives concatenation |
| Oval.Pass | simulator/src/framebuffer.ts:164-177 | one pass plots the four mirrored stroke points first, and with a fill colour and a non-empty run it emits the runs `[west + 1, east)` on both the north and the south row; every run is non-empty and centred on the oval's axis |
| Oval.Corners | simulator/src/framebuffer.ts:164-169 | the four stroke points of a pass are mirrored about the oval's centre |
| Oval.Between | simulator/src/framebuffer.ts:171-177 | the two fill runs of a pass are non-empty, fill-coloured, centred on the oval's axis and mirrored about its middle row |
| Oval.Next | simulator/src/framebuffer.ts:179-195 | one error update keeps the centre, moves the rows outward by at most one, and either narrows the columns or brings the next horizontal step closer, so the scan ends |
| Oval.Start | simulator/src/framebuffer.ts:140-161 | the scan starts on row `y + height / 2` between columns `x` and `x + width - 1`, with south `b % 2` rows above north, and its decision terms satisfy the invariant that makes the scan end |
| Oval.ScanStep | simulator/src/framebuffer.ts:163-196 | every later pass of the do-while keeps the centre, the symmetry, the first pass's points and fill run, and a point on each of its rows |
| Oval.Scan | simulator/src/framebuffer.ts:140-196 | the do-while terminates; its points and runs are symmetric about the centre, painted in their colours; the first pass marks the leftmost and rightmost columns on the middle row and, with a fill colour and `width >= 3`, fills the run `[x + 1, x + width - 1)` on it |
| Oval.Close | simulator/src/framebuffer.ts:198-208 | the closing loop terminates with north and south at least `height` apart, keeps the centre, and only appends mirrored stroke points |
| Oval.Cap | simulator/src/framebuffer.ts:200-207 | a closing pass plots four stroke points mirrored about the oval's centre |
| Oval.OvalCommands | simulator/src/framebuffer.ts:135-209 | the scan terminates; it emits nothing with neither colour; every point is stroke-coloured and every run fill-coloured, non-empty and centred; the output is symmetric about both axes; the first two points are (x + width - 1, y + height / 2) and (x, y + height / 2); the top and bottom rows are reached; with a fill colour and `width >= 3` the middle row's run `[x + 1, x + width - 1)` is emitted |
| Oval.DrawOval | simulator/src/framebuffer.ts:135-209 | drawOval executes those commands: the counter never falls and nothing changes with neither colour; with a stroke the first points are the two ends of the middle row and the top and bottom rows are reached; an outline alone paints exactly the plotted points, so both ends of the middle row take the stroke colour when on screen; a fill alone paints exactly the cells inside the emitted runs, so the middle row between the outermost columns takes the fill colour when on screen |
| Line.MostlyHorizontal | simulator/src/framebuffer.ts:223-241 | on a mostly horizontal line every pass moves a column, and the row stops moving once it reaches its target |
| Line.MostlyVertical | simulator/src/framebuffer.ts:223-241 | on a mostly vertical line every pass moves a row, and the column stops moving once it reaches its target |
| Line.NextWalks | simulator/src/framebuffer.ts:223-241 | away from the end a pass keeps the walk within bounds and advances along the longer axis |
| Line.Trace | simulator/src/framebuffer.ts:227-241 | the loop terminates, plotting one point of the colour per step of the longer axis |
| Line.TraceEnds | simulator/src/framebuffer.ts:227-241 | the loop's first point is where it starts and its last is exactly the end point: it never overshoots |
| Line.TraceSteps | simulator/src/framebuffer.ts:232-240 | consecutive points are a king's move apart, towards the end point |
| Line.TraceHorizontal | simulator/src/framebuffer.ts:232-240 | on a horizontal line the loop visits consecutive columns |
| Line.StartWalking | simulator/src/framebuffer.ts:223-225 | from the upper end point the walk starts inside its invariant, with the initial error of half `dx` or half `-dy` |
| Line.Downward | simulator/src/framebuffer.ts:223-241 | once the end points are ordered, the loop plots max(dx, dy) + 1 points from the first end point to the second, each a king's move from the last |
| Line.LineCommands | simulator/src/framebuffer.ts:212-242 | drawLine plots max(\|dx\|, \|dy\|) + 1 points of the colour from the upper end point to the lower, each a king's move from the last |
| Line.DrawLine | simulator/src/framebuffer.ts:212-242 | the line paints exactly its points and counts each on-screen plot |
| Line.HorizontalReversed | simulator/src/framebuffer.ts:212-241 | a horizontal line given right to left plots the same points in the opposite order |
| Line.DrawLineSymmetric | simulator/src/framebuffer.ts:212-241 | drawLine gives the same framebuffer whichever end point comes first |
| Sprites.ClipExact | simulator/src/framebuffer.ts:271-291 | the clip window holds exactly the sprite cells whose target lies on the screen, and the target mapping is invertible |
| Sprites.PaletteIndex | simulator/src/framebuffer.ts:299-308 | the palette index is below 4 for two-bit sprites and below 2 for one-bit ones |
| Sprites.MostSignificantFirst | simulator/src/framebuffer.ts:299-308 | samples are packed most significant bits first: pixel 4k + j of a two-bit sprite is bits 7 - 2j and 6 - 2j of byte k, pixel 8k + j of a one-bit sprite is bit 7 - j of byte k |
| Sprites.RowPaintsBounds | simulator/src/framebuffer.ts:288-313 | a row paints at most its window width, exactly that when every sample paints, none when none does |
| Sprites.GridPaintsBounds | simulator/src/framebuffer.ts:287-314 | the rows so far paint at most rows times width, exactly that when every sample paints, none when none does |
| Sprites.WindowArea | simulator/src/framebuffer.ts:271-284 | the clip window's cell count is the on-screen area of the destination rectangle |
| Sprites.BlitResult | simulator/src/framebuffer.ts:287-314 | each on-screen cell takes its sprite cell's colour when covered and painting, and the counter grows by the painted cells |
| Sprites.VisitStep | simulator/src/framebuffer.ts:288-312 | one visit paints the sampled colour at the cell's target, when it paints, and counts it |
| Sprites.BlitRow | simulator/src/framebuffer.ts:288-313 | the inner loop paints and counts one whole row of the clip window |
| Sprites.BlitLoops | simulator/src/framebuffer.ts:287-314 | the two nested loops of drawPoint calls produce exactly that framebuffer |
| Sprites.GridArea | simulator/src/framebuffer.ts:287-314 | the cells painted number at most the on-screen area, exactly it when every sample paints, none when none does |
| Sprites.NeverPaintsIsIdentity | simulator/src/framebuffer.ts:310-312 | a sprite whose every palette entry is NONE leaves the framebuffer unchanged |
| Sprites.BlitPalette | simulator/src/framebuffer.ts:260-315 | each covered on-screen cell takes the palette entry its bits select unless it is NONE; the counter grows by at most the on-screen area, by exactly it when no entry is NONE, and not at all when all are; in every case it grows by the number of window cells whose selected entry is not NONE |
| Sprites.Blit | simulator/src/framebuffer.ts:317-358 | each covered on-screen cell takes its 16-bit sample (0 outside the sprite), and the counter grows by exactly the on-screen area |
| Text.GlyphCell | simulator/src/framebuffer.ts:251-253 | one screen cell of a drawn glyph: inside the 8x8 box at the pen it takes the text colour on a clear font bit and the background colour on a set one, unless that colour is NONE; outside the box it is unchanged |
| Text.GlyphBlit | simulator/src/framebuffer.ts:251-253 | the same for every on-screen cell |
| Text.Glyph | simulator/src/framebuffer.ts:251-253 | a printable code paints the 8x8 box at the pen from the font bits of its glyph, MSB leftmost, and grows the counter by at most 64; any other code draws nothing |
| Text.DrawAppend | simulator/src/framebuffer.ts:244-258 | drawing a concatenation is drawing the second part from where the first left the pen |
| Text.PenPosition | simulator/src/framebuffer.ts:244-258 | the pen moves down 8 rows per line feed, and without line feeds right 8 columns per character |
| Text.DrawAppendPen | simulator/src/framebuffer.ts:244-258 | the pen after a concatenation is the pen after the second part started from the first's end |
| Text.LineStart | simulator/src/framebuffer.ts:248-250 | after the last line feed the pen restarts from the starting column |
| Text.UnprintableDrawsNothing | simulator/src/framebuffer.ts:251-256 | text with no printable code leaves the framebuffer unchanged |
| Text.DrawKeepsOutside | simulator/src/framebuffer.ts:244-258 | text never changes a cell left of its starting column or above its starting row |
| Text.DrawText | simulator/src/framebuffer.ts:244-258 | the loop draws the same framebuffer as the recursive definition |
| Runtime.Screen | simulator/src/framebuffer.ts:13-16 | the framebuffer read through memory is well formed and carries the machine's counter |
| Runtime.Pixels | simulator/src/framebuffer.ts:14 | pixel i is the little-endian 16-bit value at byte ADDR_FRAMEBUFFER + 2i |
| Runtime.Overlay | simulator/src/framebuffer.ts:14 | writing pixels changes exactly the framebuffer's bytes of memory |
| Runtime.OverlayShows | simulator/src/framebuffer.ts:14 | the pixels written through the view are the ones read back, and memory still holds bytes |
| Runtime.WithScreen | simulator/src/runtime.ts:47-50 | after drawing, memory shows the new framebuffer; bytes outside it, flash, pause state and ticks are unchanged |
| Runtime.PixelByteOwn | simulator/src/runtime.ts:47-50 | each framebuffer byte is the matching half of the pixel read through it |
| Runtime.WithScreenOwn | simulator/src/runtime.ts:47-50 | writing back the framebuffer a machine already shows changes nothing |
| Runtime.New | simulator/src/runtime.ts:25-56 | a new runtime is valid and black, with zero counter, zero ticks and zero flash, paused for rebooting and not crashed |
| Runtime.Reset | simulator/src/runtime.ts:93-100 | reset lowers the crashed flag and no other flag, zeroes all memory when asked and otherwise leaves it, and keeps flash, counter and ticks |
| Runtime.ResetRevives | simulator/src/runtime.ts:93-100 | a machine paused only by a crash runs again after a reset |
| Runtime.Codes | simulator/src/runtime.ts:243 | a string becomes one character code per character |
| Runtime.BlueScreen | simulator/src/runtime.ts:237-260 | the blue screen raises the crashed flag, drains the counter, changes only framebuffer memory, draws a grey rule above the centred header, and leaves blue every cell left of the message column or above the header |
| Runtime.ErrorToBlueScreenText | simulator/src/runtime.ts:269-288 | the text for each kind of fault: a RuntimeError always ends with the reboot hint and has the unreachable or out-of-bounds message when its message mentions one, and otherwise the unassigned message printed as "undefined"; link, compile and WASM-4 errors have their own texts; anything else is "Unknown error" |
| Runtime.UnrecognisedRuntimeError | simulator/src/runtime.ts:272-279 | a RuntimeError mentioning neither pattern gets the text "undefined" followed by the reboot hint |
| Runtime.ErrorToBlueScreenTextCorrected | simulator/src/runtime.ts:269-288 | with the unassigned message falling back to "Unknown error", a RuntimeError always gets one of the known texts |
| Runtime.CorrectedAgrees | simulator/src/runtime.ts:269-288 | the corrected text differs from the original exactly on RuntimeErrors that mention neither pattern |
| Runtime.BluescreenOnError | simulator/src/runtime.ts:151-162 | a normal return changes nothing; a thrown Error paints the blue screen with its fault text, as the source computes it, over what the guest left; anything thrown is thrown again |
| Runtime.Start | simulator/src/runtime.ts:218-223 | start runs the guest's start export under the fault handler, if it is exported, and never ticks the audio unit; a start that returns keeps exactly what the guest did |
| Runtime.Update | simulator/src/runtime.ts:225-235 | with a pause flag up nothing happens; otherwise the audio unit ticks once, a missing export does nothing else, an exported update is run under the fault handler and then ticks, a returning one keeps exactly what the guest did, and a thrown fault is passed on and crashes the machine exactly when it is an Error |
| Runtime.CrashIsSticky | simulator/src/runtime.ts:225-238 | after a crash every later update does nothing |
| Runtime.CrashThenReset | simulator/src/runtime.ts:93-100 | after a crash and a reset the machine is unpaused again |
| Runtime.ReadFlash | simulator/src/runtime.ts:178-185 | the copy succeeds exactly when both views fit, else it is a RangeError; it copies the flash bytes to the destination, changes no other byte, and returns the length |
| Runtime.WriteFlashPage | simulator/src/runtime.ts:187-194 | the write succeeds exactly for page 0 and a source page inside memory, else it is a RangeError; the flash becomes that page of memory and nothing else changes |
| Runtime.FlashRoundTrip | simulator/src/runtime.ts:178-194 | a page written and then read back puts the page's bytes at the destination |
| Runtime.CString | simulator/src/runtime.ts:196-206 | a string read from memory is the non-zero bytes before the first zero; running off the end of memory without a zero is a RangeError |
| Runtime.GetCString | simulator/src/runtime.ts:196-206 | the string read holds byte codes only |
| Runtime.CStringStored | simulator/src/runtime.ts:196-206 | a zero-terminated string stored at ptr is read back whole |
| Runtime.SetU16 | simulator/src/runtime.ts:62-68 | a little-endian 16-bit store of the value modulo 2^16 changes exactly its two bytes |
| Runtime.SetControls | simulator/src/runtime.ts:62-64 | the controls register reads back the value modulo 2^16; every other byte and the screen are unchanged |
| Runtime.SetLightLevel | simulator/src/runtime.ts:66-68 | the light-level register reads back the value modulo 2^16; every other byte and the screen are unchanged |
| Runtime.LowBytes | simulator/src/runtime.ts:73 | a word masked to 24 bits is its three low bytes, little-endian |
| Runtime.GetNeopixels | simulator/src/runtime.ts:70-79 | five colours, each the three low bytes of its 32-bit register and below 2^24 |
| Runtime.GetRedLed | simulator/src/runtime.ts:81-83 | the LED is lit exactly when its byte is non-zero |
| Runtime.BlitFlagsDecode | simulator/src/runtime.ts:171-173 | flip-x, flip-y and rotate are read back from bits 0, 1 and 2 whatever the higher bits hold |
| Runtime.HostText | simulator/src/runtime.ts:164-167 | the call succeeds exactly when the byte view fits in memory, else it is a RangeError; the screen becomes the text of those bytes drawn over it, and nothing else changes |
| Runtime.Words | simulator/src/runtime.ts:170 | the 16-bit view from ptr to the end of memory reads little-endian pairs |
| Runtime.HostBlit | simulator/src/runtime.ts:169-176 | the call succeeds exactly when the sprite pointer is even and within memory, else it is a RangeError; the screen becomes the 16-bit blit of the little-endian words from the pointer to the end of memory, the counter grows by the on-screen area, cells the sprite does not cover are unchanged, and nothing outside the framebuffer changes |
| Snapshot.New | simulator/src/state.ts:10-13 | a new save state has a 64 KiB memory buffer and a FLASH_PAGE_COUNT-page flash buffer, all zero |
| Snapshot.SetFrom | simulator/src/state.ts:16 | copying into a typed array succeeds exactly when the source fits, else it is a RangeError; it overwrites the front and keeps the rest |
| Snapshot.Read | simulator/src/state.ts:15-19 | memory is copied before flash: both fit or a RangeError is raised, and a memory that does not fit leaves the snapshot untouched; the runtime's bytes land at the start of each buffer and the rest is kept; a flash that does not fit leaves the snapshot's flash as it was |
| Snapshot.Write | simulator/src/state.ts:21-25 | memory is written back before flash, with the same failure rules; the snapshot's bytes land at the start of the runtime's memory and flash and the rest is kept; a flash that does not fit leaves the runtime's flash as it was; pause state, counter and ticks are never touched |
| Snapshot.ReadAlwaysFails | simulator/src/state.ts:10-19 | with the constructor's sizes, reading any runtime throws a RangeError and saves nothing |
| Snapshot.WriteHalfRestores | simulator/src/state.ts:10-25 | with the constructor's sizes, writing back overwrites only the first 64 KiB of memory, then throws on the flash |
| Snapshot.NewSized | simulator/src/state.ts:10-13 | a save state whose buffers have the runtime's memory and flash sizes |
| Snapshot.SnapshotRoundTrip | simulator/src/state.ts:15-25 | with matching sizes, reading a runtime and writing the snapshot into another gives the second the first's memory and flash, without a fault, and nothing else changes |
| Audio.OnMessage | simulator/src/apu-worklet.ts:12-20 | "reset" empties both queues; samples are appended after the queued ones |
| Audio.Process | simulator/src/apu-worklet.ts:27-37 | up to 128 samples leave each queue's front; a frame is written for each sample taken from the left queue, and it is NaN on the right when the right queue ran short; later frames keep their values; the worklet stays alive |
| Audio.BalancedStaysBalanced | simulator/src/apu-worklet.ts:12-37 | queues fed in matching batches stay equal in length, and then no right frame is NaN |
| Audio.FirstInFirstOut | simulator/src/apu-worklet.ts:12-37 | two quanta play the first 256 queued samples in order |
| Menu.Initial | simulator/src/ui/menu-overlay.ts:109-115 | the menu opens in the default context on CONTINUE |
| Menu.Until | simulator/src/ui/menu-overlay.ts:159-205 | the calls actually made are a prefix of the option's calls: all of them when none throws, otherwise up to and including the first that throws, which leaves `applyInput` |
| Menu.Activate | simulator/src/ui/menu-overlay.ts:159-205 | the application sees the option's calls up to the first that throws. When none throws: CONTINUE only closes the menu; SAVE STATE, LOAD STATE, LOAD CART and RESET CART call saveGameState, loadGameState, importCart and resetCart, then close it. A throwing saveGameState or loadGameState is the last call, so the menu is not closed. Every option that calls the application leaves the menu as it was. DISK OPTIONS opens the disk context on BACK and remembers where it came from. In the disk context BACK returns to the remembered context and option, or does nothing when none is remembered; EXPORT DISK and CLEAR DISK call their action and close the menu; IMPORT DISK clears the controls and calls importGameDisk without closing it |
| Menu.SwitchContext | simulator/src/ui/menu-overlay.ts:139-148 | the current context and option are pushed on the history, the new context opens on its first option, and the controls are cleared |
| Menu.PreviousContext | simulator/src/ui/menu-overlay.ts:129-137 | with a history, its last entry is popped and its context and option restored and the controls are cleared; with none, nothing changes |
| Menu.SwitchThenBack | simulator/src/ui/menu-overlay.ts:129-148 | going back after opening a context restores the menu exactly, with the controls left cleared |
| Menu.ActsAsActivate | simulator/src/ui/menu-overlay.ts:154-205 | on a fresh START or A the application sees the selected option's calls up to the first that throws; in the disk context BACK restores the remembered context and IMPORT DISK keeps the menu open with the controls cleared |
| Menu.Act | simulator/src/ui/menu-overlay.ts:158-213 | a fresh START or A runs the selected option's action and then moves the cursor, unless a call threw: then the menu is exactly as the action left it and the throwing call is the last one made |
| Menu.SaveStateThrowing | simulator/src/ui/menu-overlay.ts:155-168 | when saveGameState throws, which the save state's sizes make it always do, SAVE STATE asks only to save, the menu stays open on SAVE STATE even with an arrow pressed, and holding the button does not retry |
| Menu.Move | simulator/src/ui/menu-overlay.ts:207-213 | the arrows move only the cursor, by at most one, wrapping around the options of the open context; with no arrow nothing changes |
| Menu.ApplyInput | simulator/src/ui/menu-overlay.ts:154-214 | only buttons newly pressed act, and they are recorded before anything can throw; without START or A the arrows move the cursor and it wraps; every default option except DISK OPTIONS ends by closing the menu unless one of its calls throws; DISK OPTIONS opens the disk context, remembers the option and clears the controls; a call that throws is the last one made and the cursor does not move; the cursor stays on an option |
| Menu.HeldButtonActsOnce | simulator/src/ui/menu-overlay.ts:155-157 | a button held down acts once: the next frame with the same controls does nothing |
| Menu.DownAndUpCancel | simulator/src/ui/menu-overlay.ts:207-213 | down and up pressed together leave the cursor in place |
| Menu.CursorWraps | simulator/src/ui/menu-overlay.ts:207-213 | up from the first option goes to the last, and down from the last goes to the first |
| Menu.DiskOptionsRoundTrip | simulator/src/ui/menu-overlay.ts:129-148 | opening DISK OPTIONS and then pressing BACK returns to DISK OPTIONS in the default context |

## Left out

- WebAssembly instantiation, `load`, the cartridge size check, the `env` imports table, `trace`/`print` and console logging: this is I/O and foreign code. The guest's exports are reduced to the outcome of one call (`Runtime.Run`).
- `start`/`update` before a cartridge is loaded: the source's `this.wasm!` throws a TypeError there. The model assumes a loaded cartridge and gives only whether an export exists.
- The WebGL compositor and `composite`'s time estimate, which is floating point. Only the counter drain that the compositor performs is modelled (`Framebuffer.CountChangedPixelsAndReset`, used by `Runtime.BlueScreen`).
- apu.ts, the audio context and the scaling of samples by 1/32767, which is floating point. An output frame records the sample it was scaled from (`Audio.Frame`).
- ui/app.ts and the other UI components. The menu's calls into the application are recorded as a list of `Menu.AppCall`, and which of them throw is a parameter (`failing`), since their bodies are not part of this model. The menu reads and clears `this.app.controls`, which the App class in ui/app.ts does not declare; the model takes the controls as an input and returns them.
- The font bitmap of font.ts is not part of this model; it is a parameter of the text functions.
- Runtime.HostText and Runtime.HostBlit read the text and sprite bytes from memory once, before drawing. In the source, a sprite view that overlaps the framebuffer would see pixels drawn earlier in the same call.
- Runtime.Pixels, Runtime.Words and Runtime.GetNeopixels assume that the platform's typed arrays are little-endian, as on every mainstream browser.
- Arguments that are not integers (fractional or NaN JavaScript numbers) are not modelled; every coordinate, colour and pointer is an `int`.
- Color.Pack565: requires the documented component ranges. Out-of-range components overlap fields under `|` and are not modelled.
- Runtime.BlueScreen: states the grey rule, the untouched rest of the machine, and the blue background only in the cells left of the message column or above the header row. The blue cells right of and below the text blocks, and the glyphs inside them, are stated only through `Text.Draw`.
- Audio.Process: requires output channels of 128 frames, the render quantum the Web Audio API always passes.
- Snapshot: the save state's independence from the runtime after `read` holds by value semantics and is not stated separately. The APU state is not saved, as in the source.
- Runtime.BluescreenOnError: the source's handler is asynchronous. The model runs the fault handler within the same call, which is how the unawaited promise behaves: the rethrow only rejects the promise, and `update` still ticks the audio unit.

## Findings

| source | as written | input that shows it | evidently intended | confidence | as-written member | corrected member |
|---|---|---|---|---|---|---|
| simulator/src/state.ts:10-25 | the save state holds 64 KiB of memory and FLASH_PAGE_COUNT pages of flash, but the runtime has 64 pages (4 MiB) of memory and one page of flash | any save: `read` throws a RangeError on the memory copy; `write` copies 64 KiB and then throws on the flash | buffers sized like the runtime's, so that a save round-trips | high (not executed) | Snapshot.ReadAlwaysFails, Snapshot.WriteHalfRestores | Snapshot.NewSized, Snapshot.SnapshotRoundTrip |
| simulator/src/framebuffer.ts:82-93 | the fill rows call drawHLineFast without checking `startX < endX`, so a rectangle right of the screen adds negative spans to the pixel counter | `drawRect(NONE, 0x1234, 200, 0, 10, 10)` moves the counter by -400 and paints nothing | skip empty rows, as drawHLineUnclipped does, so the counter only counts written cells | high (not executed) | Rect.DrawRectCounterDecreases | Rect.DrawRectGuarded, Rect.GuardedAgreesWithDrawRect |
| simulator/src/runtime.ts:272-279 | a RuntimeError whose message matches neither pattern leaves `message` unassigned, so the text starts with "undefined" | a division by zero ("divide by zero") shows "undefined" followed by the reboot hint | fall back to the "Unknown error" text | high (not executed) | Runtime.UnrecognisedRuntimeError | Runtime.ErrorToBlueScreenTextCorrected, Runtime.CorrectedAgrees |
