/** Screen geometry, flash geometry, the memory-mapped register layout the
    guest compiles against, and the control and pause flag bits. */
module Constants {

  const WIDTH: int := 160
  const HEIGHT: int := 128

  const FLASH_PAGE_SIZE: int := 256
  const FLASH_PAGE_COUNT: int := 8000

  const CRASH_TITLE: string := "SYCL BADGE SIM"

  // Memory layout: byte addresses in the guest's linear memory.
  const ADDR_CONTROLS: int := 0x04
  const ADDR_LIGHT_LEVEL: int := 0x06
  const ADDR_NEOPIXELS: int := 0x08
  const ADDR_RED_LED: int := 0x1c
  const ADDR_BATTERY_LEVEL: int := 0x1e
  const ADDR_FRAMEBUFFER: int := 0x20

  const NEOPIXEL_COUNT: int := 5

  const CONTROLS_START: bv32 := 1
  const CONTROLS_SELECT: bv32 := 2
  const CONTROLS_A: bv32 := 4
  const CONTROLS_B: bv32 := 8
  const CONTROLS_CLICK: bv32 := 16
  const CONTROLS_UP: bv32 := 32
  const CONTROLS_DOWN: bv32 := 64
  const CONTROLS_LEFT: bv32 := 128
  const CONTROLS_RIGHT: bv32 := 256

  // Flags of the runtime's pause state.
  const PAUSE_CRASHED: bv32 := 1
  const PAUSE_REBOOTING: bv32 := 2

  /** The "no colour" sentinel of the stroke and fill arguments. */
  const OPTIONAL_COLOR_NONE: int := -1

  /** A register: `width` bytes starting at `addr`. */
  datatype Register = Register(addr: int, width: int)
  {
    function End(): int { addr + width }
  }

  /** The register map, each register with the width the runtime accesses it with:
      controls and light level as u16, five u32 neopixels, the red LED as u8,
      the battery level as u16. */
  const REGISTERS: seq<Register> := [
    Register(ADDR_CONTROLS, 2),
    Register(ADDR_LIGHT_LEVEL, 2),
    Register(ADDR_NEOPIXELS, 4 * NEOPIXEL_COUNT),
    Register(ADDR_RED_LED, 1),
    Register(ADDR_BATTERY_LEVEL, 2)
  ]

  predicate Disjoint(r: Register, s: Register)
  {
    r.End() <= s.addr || s.End() <= r.addr
  }

  /** No two registers share a byte, and all of them lie below the framebuffer. */
  lemma RegisterMapDisjoint()
    ensures forall i, j :: 0 <= i < j < |REGISTERS| ==> Disjoint(REGISTERS[i], REGISTERS[j])
    ensures forall i :: 0 <= i < |REGISTERS| ==> 0 <= REGISTERS[i].addr && REGISTERS[i].End() <= ADDR_FRAMEBUFFER
  {
  }

  /** The framebuffer holds WIDTH*HEIGHT pixels of two bytes each. */
  const FRAMEBUFFER_BYTES: int := 2 * WIDTH * HEIGHT

  lemma FramebufferSize()
    ensures FRAMEBUFFER_BYTES == 40960
    ensures ADDR_FRAMEBUFFER + FRAMEBUFFER_BYTES == 0xA020
  {
  }

  predicate IsPowerOfTwo(n: bv32)
  {
    n != 0 && n & (n - 1) == 0
  }

  const CONTROLS: seq<bv32> := [CONTROLS_START, CONTROLS_SELECT, CONTROLS_A, CONTROLS_B,
    CONTROLS_CLICK, CONTROLS_UP, CONTROLS_DOWN, CONTROLS_LEFT, CONTROLS_RIGHT]

  /** Every control is a single bit, and no two controls share a bit. */
  lemma ControlsAreDistinctBits()
    ensures forall i :: 0 <= i < |CONTROLS| ==> IsPowerOfTwo(CONTROLS[i])
    ensures forall i, j :: 0 <= i < j < |CONTROLS| ==> CONTROLS[i] & CONTROLS[j] == 0
  {
  }

  /** The two pause flags are distinct single bits: clearing one keeps the other. */
  lemma PauseFlagsIndependent(state: bv32)
    ensures IsPowerOfTwo(PAUSE_CRASHED) && IsPowerOfTwo(PAUSE_REBOOTING)
    ensures PAUSE_CRASHED & PAUSE_REBOOTING == 0
    ensures (state & !PAUSE_CRASHED) & PAUSE_REBOOTING == state & PAUSE_REBOOTING
    ensures (state & !PAUSE_REBOOTING) & PAUSE_CRASHED == state & PAUSE_CRASHED
    ensures (state | PAUSE_CRASHED) & PAUSE_REBOOTING == state & PAUSE_REBOOTING
  {
  }

  /** The sentinel cannot be confused with a 16-bit colour. */
  lemma NoneIsNotAColor()
    ensures !(0 <= OPTIONAL_COLOR_NONE < 0x1_0000)
  {
  }
}
