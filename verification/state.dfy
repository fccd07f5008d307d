/** Save states: a copy of the runtime's memory and flash, taken by `read`
    and put back by `write`, each a pair of `TypedArray.set` copies. */
module Snapshot {
  import opened Constants
  import opened Outcomes
  import opened Runtime

  datatype State = State(memory: seq<int>, flash: seq<int>)

  /** The sizes the constructor allocates: a 64 KiB memory buffer and a
      flash buffer of FLASH_PAGE_COUNT pages. */
  const STATE_MEMORY_SIZE: int := 0x1_0000
  const STATE_FLASH_SIZE: int := FLASH_PAGE_SIZE * FLASH_PAGE_COUNT

  /** `new State()`: two zeroed buffers of the constructor's sizes. */
  function New(): (s: State)
    ensures |s.memory| == STATE_MEMORY_SIZE && |s.flash| == STATE_FLASH_SIZE
    ensures Bytes(s.memory) && Bytes(s.flash)
  {
    State(seq(STATE_MEMORY_SIZE, _ => 0), seq(STATE_FLASH_SIZE, _ => 0))
  }

  /** `new Uint8Array(target).set(new Uint8Array(source))`: a source longer
      than the target is a RangeError that copies nothing; otherwise the
      source overwrites the front of the target. */
  function SetFrom(target: seq<int>, source: seq<int>): (r: Result<seq<int>>)
    ensures r.Ok? <==> |source| <= |target|
    ensures r.Err? ==> r.fault == RangeError
    ensures r.Ok? ==> |r.value| == |target| && r.value[..|source|] == source && r.value[|source|..] == target[|source|..]
  {
    if |source| > |target| then Err(RangeError) else Ok(source + target[|source|..])
  }

  /** `read(runtime)`: memory is copied first and flash second, so a fault
      on the flash keeps the memory already copied. */
  function Read(s: State, m: Machine): (res: (State, Option<Fault>))
    ensures |res.0.memory| == |s.memory| && |res.0.flash| == |s.flash|
    ensures res.1.None? <==> |m.memory| <= |s.memory| && |m.flash| <= |s.flash|
    ensures res.1.Some? ==> res.1.value == RangeError
    ensures |m.memory| > |s.memory| ==> res.0 == s
    // a memory that fits is copied over the front of the snapshot's memory
    ensures |m.memory| <= |s.memory| ==>
      res.0.memory[..|m.memory|] == m.memory && res.0.memory[|m.memory|..] == s.memory[|m.memory|..]
    // the flash is copied only when both fit; otherwise it is kept
    ensures res.1.None? ==> res.0.flash[..|m.flash|] == m.flash && res.0.flash[|m.flash|..] == s.flash[|m.flash|..]
    ensures res.1.Some? ==> res.0.flash == s.flash
  {
    match SetFrom(s.memory, m.memory)
    case Err(f) => (s, Some(f))
    case Ok(memory) =>
      match SetFrom(s.flash, m.flash)
      case Err(f) => (s.(memory := memory), Some(f))
      case Ok(flash) => (State(memory, flash), None)
  }

  /** `write(runtime)`: the saved memory is copied into the runtime first and
      the saved flash second, with the same partial effect. */
  function Write(s: State, m: Machine): (res: (Machine, Option<Fault>))
    ensures |res.0.memory| == |m.memory| && |res.0.flash| == |m.flash|
    ensures res.1.None? <==> |s.memory| <= |m.memory| && |s.flash| <= |m.flash|
    ensures res.1.Some? ==> res.1.value == RangeError
    ensures res.0.pauseState == m.pauseState && res.0.changed == m.changed && res.0.ticks == m.ticks
    ensures |s.memory| > |m.memory| ==> res.0 == m
    // a saved memory that fits is copied over the front of the runtime's memory
    ensures |s.memory| <= |m.memory| ==>
      res.0.memory[..|s.memory|] == s.memory && res.0.memory[|s.memory|..] == m.memory[|s.memory|..]
    // the flash is copied only when both fit; otherwise it is kept
    ensures res.1.None? ==> res.0.flash[..|s.flash|] == s.flash && res.0.flash[|s.flash|..] == m.flash[|s.flash|..]
    ensures res.1.Some? ==> res.0.flash == m.flash
  {
    match SetFrom(m.memory, s.memory)
    case Err(f) => (m, Some(f))
    case Ok(memory) =>
      match SetFrom(m.flash, s.flash)
      case Err(f) => (m.(memory := memory), Some(f))
      case Ok(flash) => (m.(memory := memory, flash := flash), None)
  }

  /** With the constructor's sizes, reading any runtime fails: its 64-page
      memory does not fit in 64 KiB, and the snapshot is left as it was. */
  lemma ReadAlwaysFails(m: Machine)
    requires Runtime.Valid(m)
    ensures Read(New(), m) == (New(), Some(RangeError))
  {
  }

  /** With the constructor's sizes, writing a snapshot back overwrites the
      first 64 KiB of memory and then fails on the one-page flash, which is
      left as it was. */
  lemma WriteHalfRestores(s: State, m: Machine)
    requires Runtime.Valid(m) && |s.memory| == STATE_MEMORY_SIZE && |s.flash| == STATE_FLASH_SIZE
    ensures var (m', fault) := Write(s, m);
      fault == Some(RangeError) && m'.flash == m.flash &&
      m'.memory[..STATE_MEMORY_SIZE] == s.memory && m'.memory[STATE_MEMORY_SIZE..] == m.memory[STATE_MEMORY_SIZE..]
  {
  }

  /** A snapshot whose buffers have the runtime's own sizes. */
  function NewSized(): (s: State)
    ensures |s.memory| == MEMORY_SIZE && |s.flash| == FLASH_PAGE_SIZE
    ensures Bytes(s.memory) && Bytes(s.flash)
  {
    State(seq(MEMORY_SIZE, _ => 0), seq(FLASH_PAGE_SIZE, _ => 0))
  }

  /** With matching sizes a snapshot round-trips: reading `m1` and writing
      the result into any `m2` gives `m2` the memory and flash of `m1`, and
      nothing else of it changes. */
  lemma SnapshotRoundTrip(m1: Machine, m2: Machine)
    requires Runtime.Valid(m1) && Runtime.Valid(m2)
    ensures var (s, readFault) := Read(NewSized(), m1);
      var (m, writeFault) := Write(s, m2);
      readFault.None? && writeFault.None? && m == m2.(memory := m1.memory, flash := m1.flash) && Runtime.Valid(m)
  {
    var (s, _) := Read(NewSized(), m1);
    assert s.memory == m1.memory[..] && s.flash == m1.flash;
  }
}
