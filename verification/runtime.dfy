/** The host runtime: the guest's linear memory with the framebuffer and the
    registers mapped into it, the one-page flash store, the pause flags, the
    fault handler that paints the blue screen, and the host functions the
    guest imports that are not bound straight to the framebuffer. */
module Runtime {
  import opened JsNumbers
  import opened Constants
  import opened Outcomes
  import opened Color
  import opened Framebuffer
  import opened Sprites
  import opened Text

  const WASM_PAGE_SIZE: int := 0x1_0000
  /** The memory is created with 64 pages, initial and maximum. */
  const MEMORY_SIZE: int := 64 * WASM_PAGE_SIZE

  predicate IsByte(b: int)
  {
    0 <= b < 256
  }

  predicate Bytes(s: seq<int>)
  {
    forall i | 0 <= i < |s| :: IsByte(s[i])
  }

  /** The runtime's state.  `changed` is the framebuffer's pixel-write counter
      and `ticks` the number of ticks sent to the audio unit. */
  datatype Machine = Machine(memory: seq<int>, flash: seq<int>, pauseState: bv32, changed: int, ticks: nat)

  predicate Valid(m: Machine)
  {
    |m.memory| == MEMORY_SIZE && |m.flash| == FLASH_PAGE_SIZE && Bytes(m.memory) && Bytes(m.flash)
  }

  predicate Crashed(m: Machine)
  {
    m.pauseState & PAUSE_CRASHED != 0
  }

  // ---------------------------------------------------------------------
  // The framebuffer as a view of memory

  /** Byte addresses of the framebuffer's pixel array. */
  predicate InScreen(j: int)
  {
    ADDR_FRAMEBUFFER <= j < ADDR_FRAMEBUFFER + FRAMEBUFFER_BYTES
  }

  /** A 16-bit little-endian value at byte address `a`. */
  function U16At(mem: seq<int>, a: int): int
    requires 0 <= a && a + 2 <= |mem|
  {
    mem[a] + 256 * mem[a + 1]
  }

  /** The Uint16Array the framebuffer draws through: pixel `i` is the pair of
      bytes at `ADDR_FRAMEBUFFER + 2 i`. */
  function Screen(m: Machine): (fb: Fb)
    requires Valid(m)
    ensures Framebuffer.Valid(fb) && fb.changed == m.changed
  {
    Fb(Pixels(m.memory), m.changed)
  }

  function Pixels(mem: seq<int>): (p: seq<int>)
    requires |mem| == MEMORY_SIZE && Bytes(mem)
    ensures |p| == SIZE && forall i | 0 <= i < SIZE :: p[i] == U16At(mem, ADDR_FRAMEBUFFER + 2 * i) && 0 <= p[i] < TWO_16
  {
    seq(SIZE, i requires 0 <= i < SIZE => U16At(mem, ADDR_FRAMEBUFFER + 2 * i))
  }

  /** The memory byte at `j` that holds half of a framebuffer pixel. */
  function PixelByte(fb: Fb, j: int): (b: int)
    requires Framebuffer.Valid(fb) && InScreen(j)
    ensures IsByte(b)
  {
    var v := fb.pixels[(j - ADDR_FRAMEBUFFER) / 2];
    if (j - ADDR_FRAMEBUFFER) % 2 == 0 then v % 256 else v / 256
  }

  /** Memory with the framebuffer's bytes replaced by those of `fb`. */
  function Overlay(mem: seq<int>, fb: Fb): (r: seq<int>)
    requires |mem| == MEMORY_SIZE && Framebuffer.Valid(fb)
    ensures |r| == MEMORY_SIZE
    ensures forall j | 0 <= j < MEMORY_SIZE :: r[j] == if InScreen(j) then PixelByte(fb, j) else mem[j]
  {
    seq(MEMORY_SIZE, j requires 0 <= j < MEMORY_SIZE => if InScreen(j) then PixelByte(fb, j) else mem[j])
  }

  /** The pixels read back through the view are the ones written. */
  lemma OverlayShows(mem: seq<int>, fb: Fb)
    requires |mem| == MEMORY_SIZE && Bytes(mem) && Framebuffer.Valid(fb)
    ensures Bytes(Overlay(mem, fb))
    ensures Pixels(Overlay(mem, fb)) == fb.pixels
  {
    var r := Overlay(mem, fb);
    forall i | 0 <= i < SIZE
      ensures U16At(r, ADDR_FRAMEBUFFER + 2 * i) == fb.pixels[i]
    {
      var lo := ADDR_FRAMEBUFFER + 2 * i;
      assert (lo - ADDR_FRAMEBUFFER) / 2 == i && (lo - ADDR_FRAMEBUFFER) % 2 == 0;
      assert (lo + 1 - ADDR_FRAMEBUFFER) / 2 == i && (lo + 1 - ADDR_FRAMEBUFFER) % 2 == 1;
      assert r[lo] == fb.pixels[i] % 256 && r[lo + 1] == fb.pixels[i] / 256;
    }
    assert Pixels(r) == fb.pixels;
  }

  /** The machine after drawing has left the framebuffer `fb`: the pixel
      bytes are rewritten and nothing else in memory changes. */
  function WithScreen(m: Machine, fb: Fb): (r: Machine)
    requires Valid(m) && Framebuffer.Valid(fb)
    ensures Valid(r)
    ensures Screen(r) == fb
    ensures forall j | 0 <= j < MEMORY_SIZE && !InScreen(j) :: r.memory[j] == m.memory[j]
    ensures r.flash == m.flash && r.pauseState == m.pauseState && r.ticks == m.ticks
  {
    OverlayShows(m.memory, fb);
    m.(memory := Overlay(m.memory, fb), changed := fb.changed)
  }

  /** A pixel's two bytes are recovered from its value. */
  lemma SplitPixel(lo: int, hi: int)
    requires IsByte(lo) && IsByte(hi)
    ensures (lo + 256 * hi) % 256 == lo && (lo + 256 * hi) / 256 == hi
  {
  }

  /** Each framebuffer byte is the matching half of the pixel read through it. */
  lemma PixelByteOwn(mem: seq<int>, changed: int, j: int)
    requires |mem| == MEMORY_SIZE && Bytes(mem) && InScreen(j)
    ensures PixelByte(Fb(Pixels(mem), changed), j) == mem[j]
  {
    var d := j - ADDR_FRAMEBUFFER;
    var i := d / 2;
    var lo := ADDR_FRAMEBUFFER + 2 * i;
    assert j == lo + d % 2;
    SplitPixel(mem[lo], mem[lo + 1]);
  }

  /** Writing back the framebuffer a machine already shows changes nothing. */
  lemma WithScreenOwn(m: Machine)
    requires Valid(m)
    ensures WithScreen(m, Screen(m)) == m
  {
    var mem := Overlay(m.memory, Screen(m));
    forall j | 0 <= j < MEMORY_SIZE
      ensures mem[j] == m.memory[j]
    {
      if InScreen(j) {
        PixelByteOwn(m.memory, m.changed, j);
      }
    }
    assert mem == m.memory;
  }

  // ---------------------------------------------------------------------
  // Construction and reset

  /** `new Runtime()`: zeroed memory and flash, a zero pixel counter, and the
      rebooting flag raised until the cartridge is started. */
  function New(): (m: Machine)
    ensures Valid(m) && !Crashed(m) && m.pauseState == PAUSE_REBOOTING
    ensures forall x, y | OnScreen(x, y) :: At(Screen(m).pixels, x, y) == 0
    ensures Screen(m).changed == 0 && m.ticks == 0
    ensures forall i | 0 <= i < |m.flash| :: m.flash[i] == 0
  {
    Machine(seq(MEMORY_SIZE, _ => 0), seq(FLASH_PAGE_SIZE, _ => 0), PAUSE_REBOOTING, 0, 0)
  }

  /** `reset(zeroMemory)`: lowers the crashed flag only, and zeroes the whole
      memory when asked to. */
  function Reset(m: Machine, zeroMemory: bool): (r: Machine)
    requires Valid(m)
    ensures Valid(r) && !Crashed(r)
    ensures r.pauseState & PAUSE_REBOOTING == m.pauseState & PAUSE_REBOOTING
    ensures r.pauseState | PAUSE_CRASHED == m.pauseState | PAUSE_CRASHED
    ensures zeroMemory ==> forall j | 0 <= j < MEMORY_SIZE :: r.memory[j] == 0
    ensures !zeroMemory ==> r.memory == m.memory
    ensures r.flash == m.flash && r.changed == m.changed && r.ticks == m.ticks
  {
    var state := m.pauseState & !PAUSE_CRASHED;
    PauseFlagsIndependent(m.pauseState);
    m.(memory := if zeroMemory then seq(MEMORY_SIZE, _ => 0) else m.memory, pauseState := state)
  }

  /** A crash is the only thing a reset undoes: a machine paused only by a
      crash runs again. */
  lemma ResetRevives(m: Machine, zeroMemory: bool)
    requires Valid(m) && m.pauseState == PAUSE_CRASHED
    ensures Reset(m, zeroMemory).pauseState == 0
  {
  }

  // ---------------------------------------------------------------------
  // The blue screen

  const BLUE: int := Pack565(5, 10, 5)
  const GREY: int := Pack565(25, 50, 25)
  const TITLE: string := " " + CRASH_TITLE + " "
  const HEADER_WIDTH: int := 8 * |TITLE|
  const HEADER_X: int := (WIDTH - HEADER_WIDTH) / 2
  const HEADER_Y: int := 20
  const MESSAGE_X: int := 9
  const MESSAGE_Y: int := 52

  /** The character codes of a string, one per character. */
  function Codes(s: string): (r: seq<int>)
    ensures |r| == |s| && forall i | 0 <= i < |s| :: r[i] == s[i] as int
  {
    seq(|s|, i requires 0 <= i < |s| => s[i] as int)
  }

  /** `blueScreen(text)`: raises the crashed flag, paints the screen blue,
      underlines the header row in grey, writes the title and the message,
      and composites, which drains the pixel counter. */
  function BlueScreen(m: Machine, text: string, font: seq<int>): (r: Machine)
    requires Valid(m)
    ensures Valid(r) && Crashed(r)
    ensures r.pauseState == m.pauseState | PAUSE_CRASHED
    ensures Screen(r).changed == 0
    ensures r.flash == m.flash && r.ticks == m.ticks
    ensures forall j | 0 <= j < MEMORY_SIZE && !InScreen(j) :: r.memory[j] == m.memory[j]
    // the left margin and the rows above the title are blue, except for the
    // grey rule one row above the title, exactly as wide as it
    ensures forall cx, cy | OnScreen(cx, cy) && (cx < MESSAGE_X || cy < HEADER_Y) ::
      At(Screen(r).pixels, cx, cy) ==
        if cy == HEADER_Y - 1 && HEADER_X <= cx < HEADER_X + HEADER_WIDTH then GREY else BLUE
  {
    var crashed := m.(pauseState := m.pauseState | PAUSE_CRASHED);
    var fb1 := FillScreen(Screen(m), BLUE);
    var fb2 := DrawHLine(fb1, GREY, HEADER_X, HEADER_Y - 1, HEADER_WIDTH);
    var fb3 := Draw(fb2, BLUE, GREY, font, Codes(TITLE), HEADER_X, Pen(HEADER_X, HEADER_Y));
    var fb4 := Draw(fb3, GREY, BLUE, font, Codes(text), MESSAGE_X, Pen(MESSAGE_X, MESSAGE_Y));
    forall cx, cy | OnScreen(cx, cy) && (cx < MESSAGE_X || cy < HEADER_Y)
      ensures At(fb4.pixels, cx, cy) == At(fb2.pixels, cx, cy)
    {
      DrawKeepsOutside(fb2, BLUE, GREY, font, Codes(TITLE), HEADER_X, Pen(HEADER_X, HEADER_Y), cx, cy);
      DrawKeepsOutside(fb3, GREY, BLUE, font, Codes(text), MESSAGE_X, Pen(MESSAGE_X, MESSAGE_Y), cx, cy);
    }
    WithScreen(crashed, CountChangedPixelsAndReset(fb4).1)
  }

  // ---------------------------------------------------------------------
  // Fault texts

  const REBOOT_HINT: string := "\n\n\n\nHit R to reboot."
  const UNREACHABLE_TEXT: string := "The cartridge has\nreached a code \nsegment marked as\nunreachable."
  const OUT_OF_BOUNDS_TEXT: string := "The cartridge has\nattempted a memory\naccess that is\nout of bounds."
  const LINK_TEXT: string := "The cartridge has\ntried to import\na missing function.\n\n\nSee console for\nmore details."
  const CORRUPT_TEXT: string := "The cartridge is\ncorrupted.\n\n\nSee console for\nmore details."
  const UNKNOWN_TEXT: string := "Unknown error.\n\n\nSee console for\nmore details."
  /** What an unassigned variable turns into when concatenated to a string. */
  const UNDEFINED: string := "undefined"

  /** The `n` characters of `s` from position `i`. */
  function Segment(s: string, i: int, n: int): string
    requires 0 <= i && 0 <= n && i + n <= |s|
  {
    s[i..i + n]
  }

  /** `s.match(/pat/)` for a pattern with no special characters. */
  predicate Contains(s: string, pat: string)
  {
    exists i | 0 <= i <= |s| - |pat| :: Segment(s, i, |pat|) == pat
  }

  /** `errorToBlueScreenText(err)`.  A RuntimeError whose message mentions
      neither case it recognises leaves its explanation unassigned. */
  function ErrorToBlueScreenText(f: Fault): (r: string)
    requires f.IsError()
    ensures f.RuntimeError? ==> |r| >= |REBOOT_HINT| && r[|r| - |REBOOT_HINT|..] == REBOOT_HINT
    ensures f.RuntimeError? && Contains(f.message, "unreachable") ==> r == UNREACHABLE_TEXT + REBOOT_HINT
    ensures f.RuntimeError? && !Contains(f.message, "unreachable") && Contains(f.message, "out of bounds") ==>
      r == OUT_OF_BOUNDS_TEXT + REBOOT_HINT
    // any other RuntimeError leaves the explanation unassigned
    ensures f.RuntimeError? && !Contains(f.message, "unreachable") && !Contains(f.message, "out of bounds") ==>
      r == UNDEFINED + REBOOT_HINT
    ensures f.LinkError? ==> r == LINK_TEXT
    ensures f.CompileError? ==> r == CORRUPT_TEXT
    ensures f.Wasm4Error? ==> r == f.wasm4Message
    ensures f.RangeError? || f.OtherError? ==> r == UNKNOWN_TEXT
  {
    match f
    case RuntimeError(message) =>
      var explanation :=
        if Contains(message, "unreachable") then UNREACHABLE_TEXT
        else if Contains(message, "out of bounds") then OUT_OF_BOUNDS_TEXT
        else UNDEFINED;
      explanation + REBOOT_HINT
    case LinkError => LINK_TEXT
    case CompileError => CORRUPT_TEXT
    case Wasm4Error(w) => w
    case _ => UNKNOWN_TEXT
  }

  /** A division by zero is a RuntimeError the function does not recognise:
      its blue screen reads "undefined". */
  lemma UnrecognisedRuntimeError()
    ensures ErrorToBlueScreenText(RuntimeError("divide by zero")) == UNDEFINED + REBOOT_HINT
  {
    var msg := "divide by zero";
    assert msg == ['d', 'i', 'v', 'i', 'd', 'e', ' ', 'b', 'y', ' ', 'z', 'e', 'r', 'o'];
    forall i | 0 <= i <= |msg| - |"unreachable"|
      ensures Segment(msg, i, |"unreachable"|) != "unreachable"
    {
      assert Segment(msg, i, |"unreachable"|)[0] == msg[i] != 'u';
    }
    forall i | 0 <= i <= |msg| - |"out of bounds"|
      ensures Segment(msg, i, |"out of bounds"|) != "out of bounds"
    {
      assert Segment(msg, i, |"out of bounds"|)[0] == msg[i] != 'o';
    }
    assert !Contains(msg, "unreachable");
    assert !Contains(msg, "out of bounds");
  }

  /** The text with the unassigned case falling back to the unknown-error
      explanation. */
  function ErrorToBlueScreenTextCorrected(f: Fault): (r: string)
    requires f.IsError()
    ensures f.RuntimeError? ==>
      r == UNREACHABLE_TEXT + REBOOT_HINT || r == OUT_OF_BOUNDS_TEXT + REBOOT_HINT || r == UNKNOWN_TEXT
  {
    if f.RuntimeError? && !Contains(f.message, "unreachable") && !Contains(f.message, "out of bounds") then UNKNOWN_TEXT
    else ErrorToBlueScreenText(f)
  }

  /** The correction changes exactly the unrecognised RuntimeErrors. */
  lemma CorrectedAgrees(f: Fault)
    requires f.IsError()
    ensures ErrorToBlueScreenTextCorrected(f) == ErrorToBlueScreenText(f) <==>
      !(f.RuntimeError? && !Contains(f.message, "unreachable") && !Contains(f.message, "out of bounds"))
  {
    if f.RuntimeError? && !Contains(f.message, "unreachable") && !Contains(f.message, "out of bounds") {
      assert ErrorToBlueScreenText(f) == UNDEFINED + REBOOT_HINT;
      assert |UNDEFINED + REBOOT_HINT| != |UNKNOWN_TEXT|;
    }
  }

  // ---------------------------------------------------------------------
  // Running the guest

  /** What a call of one of the guest's exports did: returned, or threw
      `fault`, leaving the machine as `after`. */
  datatype Run = Returned(after: Machine) | Threw(after: Machine, fault: Fault)

  datatype Export = NotExported | Exported(run: Run)

  /** The guest cannot reach the pause flags or the audio unit's tick count. */
  predicate GuestCall(m: Machine, run: Run)
  {
    Valid(run.after) && run.after.pauseState == m.pauseState && run.after.ticks == m.ticks
  }

  /** `bluescreenOnError(fn)`: a thrown Error paints the blue screen with its
      explanation; any thrown value is passed on, as the promise's rejection. */
  function BluescreenOnError(run: Run, font: seq<int>): (res: (Machine, Option<Fault>))
    requires Valid(run.after)
    ensures Valid(res.0)
    ensures run.Returned? ==> res == (run.after, None)
    ensures run.Threw? ==> res.1 == Some(run.fault)
    ensures run.Threw? && run.fault.IsError() ==>
      res.0 == BlueScreen(run.after, ErrorToBlueScreenText(run.fault), font)
    ensures run.Threw? && !run.fault.IsError() ==> res.0 == run.after
  {
    match run
    case Returned(after) => (after, None)
    case Threw(after, fault) =>
      if fault.IsError() then (BlueScreen(after, ErrorToBlueScreenText(fault), font), Some(fault))
      else (after, Some(fault))
  }

  /** `start()`: the guest's start entry, if any, under the fault handler. */
  function Start(m: Machine, entry: Export, font: seq<int>): (res: (Machine, Option<Fault>))
    requires Valid(m) && (entry.Exported? ==> GuestCall(m, entry.run))
    ensures Valid(res.0) && res.0.ticks == m.ticks
    ensures entry.NotExported? ==> res == (m, None)
    ensures entry.Exported? ==> res == BluescreenOnError(entry.run, font)
    ensures entry.Exported? && entry.run.Returned? ==> res == (entry.run.after, None)
  {
    if entry.Exported? then BluescreenOnError(entry.run, font) else (m, None)
  }

  /** `update()`: nothing at all while any pause flag is up; otherwise the
      guest's update entry, if any, under the fault handler, and then one
      audio tick, whether or not the guest faulted. */
  function Update(m: Machine, entry: Export, font: seq<int>): (res: (Machine, Option<Fault>))
    requires Valid(m) && (entry.Exported? ==> GuestCall(m, entry.run))
    ensures Valid(res.0)
    ensures m.pauseState != 0 ==> res == (m, None)
    ensures m.pauseState == 0 ==> res.0.ticks == m.ticks + 1
    ensures m.pauseState == 0 && entry.NotExported? ==> res == (m.(ticks := m.ticks + 1), None)
    ensures m.pauseState == 0 && entry.Exported? ==>
      var (after, rejected) := BluescreenOnError(entry.run, font);
      res == (after.(ticks := m.ticks + 1), rejected)
    // a call that returns keeps what the guest did, and ticks the audio unit
    ensures m.pauseState == 0 && entry.Exported? && entry.run.Returned? ==>
      res == (entry.run.after.(ticks := m.ticks + 1), None)
    ensures m.pauseState == 0 && entry.Exported? && entry.run.Threw? ==>
      res.1 == Some(entry.run.fault) && (entry.run.fault.IsError() <==> Crashed(res.0))
  {
    if m.pauseState != 0 then (m, None)
    else
      var (after, rejected) := if entry.Exported? then BluescreenOnError(entry.run, font) else (m, None);
      (after.(ticks := after.ticks + 1), rejected)
  }

  /** A fault stops the machine: every later update does nothing until a reset. */
  lemma CrashIsSticky(m: Machine, after: Machine, fault: Fault, next: Export, font: seq<int>)
    requires Valid(m) && m.pauseState == 0 && GuestCall(m, Threw(after, fault)) && fault.IsError()
    requires next.Exported? ==> GuestCall(Update(m, Exported(Threw(after, fault)), font).0, next.run)
    ensures var crashed := Update(m, Exported(Threw(after, fault)), font).0;
      Update(crashed, next, font) == (crashed, None)
  {
  }

  /** After a crash and a reset, updates run the guest again. */
  lemma CrashThenReset(m: Machine, after: Machine, fault: Fault, zeroMemory: bool, font: seq<int>)
    requires Valid(m) && m.pauseState == 0 && GuestCall(m, Threw(after, fault)) && fault.IsError()
    ensures Reset(Update(m, Exported(Threw(after, fault)), font).0, zeroMemory).pauseState == 0
  {
    var crashed := Update(m, Exported(Threw(after, fault)), font).0;
    assert crashed.pauseState == 0 | PAUSE_CRASHED;
  }

  // ---------------------------------------------------------------------
  // Typed-array views

  /** `new Uint8Array(buffer, offset, length)` over a buffer of `size` bytes
      succeeds exactly when the range lies inside the buffer. */
  predicate ViewFits(size: int, offset: int, length: int)
  {
    0 <= offset && 0 <= length && offset + length <= size
  }

  /** `read_flash(offset, dstPtr, length)`: copies `length` flash bytes from
      `offset` into memory at `dstPtr` and returns `length`; either view out
      of range is a RangeError before anything is copied. */
  function ReadFlash(m: Machine, offset: int, dstPtr: int, length: int): (r: Result<(Machine, int)>)
    requires Valid(m)
    ensures r.Ok? <==> ViewFits(FLASH_PAGE_SIZE, offset, length) && ViewFits(MEMORY_SIZE, dstPtr, length)
    ensures r.Err? ==> r.fault == RangeError
    ensures r.Ok? ==> var (m', n) := r.value;
      Valid(m') && n == length && m'.flash == m.flash && m'.pauseState == m.pauseState &&
      m'.changed == m.changed && m'.ticks == m.ticks &&
      m'.memory[dstPtr..dstPtr + length] == m.flash[offset..offset + length] &&
      (forall j | 0 <= j < MEMORY_SIZE && !(dstPtr <= j < dstPtr + length) :: m'.memory[j] == m.memory[j])
  {
    if !ViewFits(FLASH_PAGE_SIZE, offset, length) || !ViewFits(MEMORY_SIZE, dstPtr, length) then Err(RangeError)
    else
      var memory := m.memory[..dstPtr] + m.flash[offset..offset + length] + m.memory[dstPtr + length..];
      Ok((m.(memory := memory), length))
  }

  /** `write_flash_page(page, srcPtr)`: copies one page of memory from
      `srcPtr` into flash page `page`.  The flash holds a single page, so
      page 0 is the only one that can be written. */
  function WriteFlashPage(m: Machine, page: int, srcPtr: int): (r: Result<Machine>)
    requires Valid(m)
    ensures r.Ok? <==> page == 0 && 0 <= srcPtr <= MEMORY_SIZE - FLASH_PAGE_SIZE
    ensures r.Err? ==> r.fault == RangeError
    ensures r.Ok? ==> (Valid(r.value) && r.value.memory == m.memory && r.value.pauseState == m.pauseState &&
      r.value.changed == m.changed && r.value.ticks == m.ticks &&
      r.value.flash == m.memory[srcPtr..srcPtr + FLASH_PAGE_SIZE])
  {
    if !ViewFits(MEMORY_SIZE, srcPtr, FLASH_PAGE_SIZE) || !ViewFits(FLASH_PAGE_SIZE, page * FLASH_PAGE_SIZE, FLASH_PAGE_SIZE) then
      Err(RangeError)
    else
      Ok(m.(flash := m.memory[srcPtr..srcPtr + FLASH_PAGE_SIZE]))
  }

  /** A page written and read back lands where it was read from. */
  lemma FlashRoundTrip(m: Machine, srcPtr: int, offset: int, dstPtr: int, length: int)
    requires Valid(m) && 0 <= srcPtr <= MEMORY_SIZE - FLASH_PAGE_SIZE
    requires ViewFits(FLASH_PAGE_SIZE, offset, length) && ViewFits(MEMORY_SIZE, dstPtr, length)
    ensures var w := WriteFlashPage(m, 0, srcPtr).value;
      var (m', _) := ReadFlash(w, offset, dstPtr, length).value;
      m'.memory[dstPtr..dstPtr + length] == m.memory[srcPtr + offset..srcPtr + offset + length]
  {
  }

  /** `getCString(ptr)`: the byte codes from `ptr` up to the first zero
      byte; running off either end of memory is a RangeError. */
  function CString(mem: seq<int>, ptr: int): (r: Result<seq<int>>)
    ensures r.Ok? ==> var s := r.value;
      0 <= ptr && ptr + |s| < |mem| && mem[ptr + |s|] == 0 &&
      forall k | 0 <= k < |s| :: s[k] == mem[ptr + k] && s[k] != 0
    ensures r.Err? ==> r.fault == RangeError && (ptr < 0 || forall j | ptr <= j < |mem| :: mem[j] != 0)
    decreases |mem| - ptr
  {
    if ptr < 0 || ptr >= |mem| then Err(RangeError)
    else if mem[ptr] == 0 then Ok([])
    else
      match CString(mem, ptr + 1)
      case Ok(s) => Ok([mem[ptr]] + s)
      case Err(f) => Err(f)
  }

  function GetCString(m: Machine, ptr: int): (r: Result<seq<int>>)
    requires Valid(m)
    ensures r.Ok? ==> Bytes(r.value)
  {
    CString(m.memory, ptr)
  }

  /** The string stored at `ptr` with its terminator is read back whole. */
  lemma {:induction false} CStringStored(mem: seq<int>, ptr: int, s: seq<int>)
    requires 0 <= ptr && ptr + |s| < |mem| && mem[ptr + |s|] == 0
    requires forall k | 0 <= k < |s| :: mem[ptr + k] == s[k] && s[k] != 0
    ensures CString(mem, ptr) == Ok(s)
    decreases |s|
  {
    if s != [] {
      assert mem[ptr] == s[0];
      CStringStored(mem, ptr + 1, s[1..]);
      assert [s[0]] + s[1..] == s;
    }
  }

  // ---------------------------------------------------------------------
  // Registers

  /** `data.setUint16(addr, value, true)`. */
  function SetU16(m: Machine, addr: int, value: int): (r: Machine)
    requires Valid(m) && 0 <= addr && addr + 2 <= MEMORY_SIZE
    ensures Valid(r) && U16At(r.memory, addr) == ToUint16(value)
    ensures forall j | 0 <= j < MEMORY_SIZE && j != addr && j != addr + 1 :: r.memory[j] == m.memory[j]
    ensures r.flash == m.flash && r.pauseState == m.pauseState && r.changed == m.changed && r.ticks == m.ticks
  {
    var v := ToUint16(value);
    m.(memory := m.memory[addr := v % 256][addr + 1 := v / 256])
  }

  function SetControls(m: Machine, controls: int): (r: Machine)
    requires Valid(m)
    ensures Valid(r) && U16At(r.memory, ADDR_CONTROLS) == ToUint16(controls)
    ensures forall j | 0 <= j < MEMORY_SIZE && j != ADDR_CONTROLS && j != ADDR_CONTROLS + 1 :: r.memory[j] == m.memory[j]
    ensures Screen(r) == Screen(m)
  {
    SetU16(m, ADDR_CONTROLS, controls)
  }

  function SetLightLevel(m: Machine, value: int): (r: Machine)
    requires Valid(m)
    ensures Valid(r) && U16At(r.memory, ADDR_LIGHT_LEVEL) == ToUint16(value)
    ensures forall j | 0 <= j < MEMORY_SIZE && j != ADDR_LIGHT_LEVEL && j != ADDR_LIGHT_LEVEL + 1 :: r.memory[j] == m.memory[j]
    ensures Screen(r) == Screen(m)
  {
    SetU16(m, ADDR_LIGHT_LEVEL, value)
  }

  /** A 32-bit little-endian value at byte address `a`. */
  function U32At(mem: seq<int>, a: int): int
    requires 0 <= a && a + 4 <= |mem|
  {
    U16At(mem, a) + 0x1_0000 * U16At(mem, a + 2)
  }

  /** `getNeopixels()`: the low 24 bits of each of the five 32-bit words
      from ADDR_NEOPIXELS: their first three bytes, least significant first. */
  function GetNeopixels(m: Machine): (r: seq<int>)
    requires Valid(m)
    ensures |r| == NEOPIXEL_COUNT
    ensures forall i | 0 <= i < NEOPIXEL_COUNT ::
      var a := ADDR_NEOPIXELS + 4 * i;
      r[i] == m.memory[a] + 256 * m.memory[a + 1] + 0x1_0000 * m.memory[a + 2] && 0 <= r[i] < 0x100_0000
  {
    seq(NEOPIXEL_COUNT, i requires 0 <= i < NEOPIXEL_COUNT => LowBytes(m, ADDR_NEOPIXELS + 4 * i))
  }

  /** `word & 0xffffff` for the word at `a`. */
  function LowBytes(m: Machine, a: int): (v: int)
    requires Valid(m) && 0 <= a && a + 4 <= MEMORY_SIZE
    ensures v == m.memory[a] + 256 * m.memory[a + 1] + 0x1_0000 * m.memory[a + 2]
  {
    var low := m.memory[a] + 256 * m.memory[a + 1] + 0x1_0000 * m.memory[a + 2];
    assert U32At(m.memory, a) == low + 0x100_0000 * m.memory[a + 3];
    assert 0 <= low < 0x100_0000;
    U32At(m.memory, a) % 0x100_0000
  }

  /** `getRedLed()`: the LED is lit when its byte is nonzero. */
  function GetRedLed(m: Machine): (lit: bool)
    requires Valid(m)
    ensures lit <==> m.memory[ADDR_RED_LED] != 0
  {
    m.memory[ADDR_RED_LED] != 0
  }

  // ---------------------------------------------------------------------
  // Host drawing functions that read guest memory

  /** `flags & 1`, `flags & 2` and `flags & 4`, each taken as a truth value:
      bits 0, 1 and 2 of the 32-bit two's complement of `flags`. */
  function BlitFlags(flags: int): (bool, bool, bool)
  {
    var v := ToUint32(flags);
    (v % 2 == 1, (v / 2) % 2 == 1, (v / 4) % 2 == 1)
  }

  function FlagBits(flipX: bool, flipY: bool, rotate: bool): int
  {
    (if flipX then 1 else 0) + (if flipY then 2 else 0) + (if rotate then 4 else 0)
  }

  /** Each flag reads back from its own bit, whatever the higher bits hold. */
  lemma BlitFlagsDecode(flipX: bool, flipY: bool, rotate: bool, high: int)
    ensures BlitFlags(FlagBits(flipX, flipY, rotate) + 8 * high) == (flipX, flipY, rotate)
  {
    var e := FlagBits(flipX, flipY, rotate);
    var n := e + 8 * high;
    var v := ToUint32(n);
    var k := (n - v) / TWO_32;
    assert n - v == TWO_32 * k;
    LowBits(e, high - 0x2000_0000 * k);
  }

  /** The three low bits of `e + 8 * h` are those of `e`. */
  lemma LowBits(e: int, h: int)
    requires 0 <= e < 8
    ensures var v := e + 8 * h;
      v % 2 == e % 2 && (v / 2) % 2 == (e / 2) % 2 && (v / 4) % 2 == (e / 4) % 2
  {
    var v := e + 8 * h;
    var half := e / 2 + 4 * h;
    var quarter := e / 4 + 2 * h;
    assert v == 2 * half + e % 2;
    assert v / 2 == half && v % 2 == e % 2;
    assert v == 4 * quarter + e % 4;
    assert v / 4 == quarter;
    assert half == 2 * (e / 4 + 2 * h) + (e / 2) % 2;
    assert quarter == 2 * h + e / 4 && e / 4 < 2;
  }

  /** `text(textColor, backgroundColor, textPtr, byteLength, x, y)`: draws
      the `byteLength` bytes at `textPtr`; a range outside memory is a
      RangeError that draws nothing. */
  function HostText(m: Machine, textColor: int, backgroundColor: int, textPtr: int, byteLength: int,
                    x: int, y: int, font: seq<int>): (r: Result<Machine>)
    requires Valid(m)
    ensures r.Ok? <==> ViewFits(MEMORY_SIZE, textPtr, byteLength)
    ensures r.Err? ==> r.fault == RangeError
    ensures r.Ok? ==> (Valid(r.value) &&
      Screen(r.value) == Draw(Screen(m), textColor, backgroundColor, font, m.memory[textPtr..textPtr + byteLength], x, Pen(x, y)))
    // nothing but the framebuffer changes
    ensures r.Ok? ==>
      r.value.flash == m.flash && r.value.pauseState == m.pauseState && r.value.ticks == m.ticks &&
      forall j | 0 <= j < MEMORY_SIZE && !InScreen(j) :: r.value.memory[j] == m.memory[j]
  {
    if !ViewFits(MEMORY_SIZE, textPtr, byteLength) then Err(RangeError)
    else
      var codes := m.memory[textPtr..textPtr + byteLength];
      Ok(WithScreen(m, Draw(Screen(m), textColor, backgroundColor, font, codes, x, Pen(x, y))))
  }

  /** The Uint16Array from byte `ptr` to the end of memory. */
  function Words(mem: seq<int>, ptr: int): (w: seq<int>)
    requires 0 <= ptr <= |mem| && ptr % 2 == 0 && |mem| % 2 == 0
    ensures |w| == (|mem| - ptr) / 2
    ensures forall i | 0 <= i < |w| :: w[i] == U16At(mem, ptr + 2 * i)
  {
    seq((|mem| - ptr) / 2, i requires 0 <= i < (|mem| - ptr) / 2 => U16At(mem, ptr + 2 * i))
  }

  /** The placement a `blit` call describes, its flags decoded. */
  function BlitPlacement(x: int, y: int, width: int, height: int, srcX: int, srcY: int, stride: int, flags: int): Placement
  {
    var (flipX, flipY, rotate) := BlitFlags(flags);
    Placement(x, y, width, height, srcX, srcY, stride, flipX, flipY, rotate)
  }

  /** `blit(spritePtr, x, y, width, height, srcX, srcY, stride, flags)`: the
      16-bit sprite runs from `spritePtr` to the end of memory; an odd or
      out-of-range pointer is a RangeError. */
  function HostBlit(m: Machine, spritePtr: int, x: int, y: int, width: int, height: int,
                    srcX: int, srcY: int, stride: int, flags: int): (r: Result<Machine>)
    requires Valid(m)
    ensures r.Ok? <==> 0 <= spritePtr <= MEMORY_SIZE && spritePtr % 2 == 0
    ensures r.Err? ==> r.fault == RangeError
    ensures r.Ok? ==> Valid(r.value)
    ensures r.Ok? ==>
      var p := BlitPlacement(x, y, width, height, srcX, srcY, stride, flags);
      Screen(r.value).changed == m.changed + Area(p) &&
      forall cx, cy | OnScreen(cx, cy) && !Covered(p, cx, cy) :: At(Screen(r.value).pixels, cx, cy) == At(Screen(m).pixels, cx, cy)
    // the screen is the 16-bit blit of the words from spritePtr on
    ensures r.Ok? ==>
      Screen(r.value) == Blit(Screen(m), Words(m.memory, spritePtr), BlitPlacement(x, y, width, height, srcX, srcY, stride, flags))
    // nothing but the framebuffer changes
    ensures r.Ok? ==>
      r.value.flash == m.flash && r.value.pauseState == m.pauseState && r.value.ticks == m.ticks &&
      forall j | 0 <= j < MEMORY_SIZE && !InScreen(j) :: r.value.memory[j] == m.memory[j]
  {
    if spritePtr < 0 || spritePtr > MEMORY_SIZE || spritePtr % 2 != 0 then Err(RangeError)
    else
      Ok(WithScreen(m, Blit(Screen(m), Words(m.memory, spritePtr), BlitPlacement(x, y, width, height, srcX, srcY, stride, flags))))
  }
}
