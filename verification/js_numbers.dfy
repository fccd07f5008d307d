/** The JavaScript number conversions and operators the simulator relies on,
    stated over Dafny's unbounded integers.  Dafny's `/` and `%` are Euclidean;
    JavaScript's `%` truncates toward zero, and typed-array stores wrap. */
module JsNumbers {

  const TWO_16: int := 0x1_0000
  const TWO_31: int := 0x8000_0000
  const TWO_32: int := 0x1_0000_0000

  function Abs(n: int): (r: nat)
    ensures r == n || r == -n
  {
    if n < 0 then -n else n
  }

  /** ToUint16: the value a Uint16Array element or DataView.setUint16 stores. */
  function ToUint16(n: int): (r: int)
    ensures 0 <= r < TWO_16
    ensures (n - r) % TWO_16 == 0
    ensures 0 <= n < TWO_16 ==> r == n
  {
    n % TWO_16
  }

  /** ToUint32: the operand of `>>>` and of a Uint32Array store. */
  function ToUint32(n: int): (r: int)
    ensures 0 <= r < TWO_32
    ensures (n - r) % TWO_32 == 0
    ensures 0 <= n < TWO_32 ==> r == n
  {
    n % TWO_32
  }

  /** ToInt32: the operand of `&`, `|`, `^`, `<<` and `>>`. */
  function ToInt32(n: int): (r: int)
    ensures -TWO_31 <= r < TWO_31
    ensures (n - r) % TWO_32 == 0
    ensures -TWO_31 <= n < TWO_31 ==> r == n
  {
    (n + TWO_31) % TWO_32 - TWO_31
  }

  /** `a % b` in JavaScript: the remainder of division truncated toward zero,
      carrying the sign of the dividend. */
  function Rem(a: int, b: int): (r: int)
    requires b > 0
    ensures -b < r < b
    ensures a >= 0 ==> 0 <= r
    ensures a < 0 ==> r <= 0
    ensures a >= 0 ==> r == a % b
    ensures Abs(r) == Abs(a) % b
  {
    if a >= 0 then a % b else -((-a) % b)
  }

  /** The JavaScript remainder by 2 is 0 on even numbers, 1 on positive odd
      numbers and -1 on negative odd ones, where Dafny's Euclidean `%` gives 1. */
  lemma RemByTwo(a: int)
    ensures a % 2 == 0 ==> Rem(a, 2) == 0
    ensures a % 2 == 1 && a > 0 ==> Rem(a, 2) == 1
    ensures a % 2 == 1 && a < 0 ==> Rem(a, 2) == -1
  {
  }
}
