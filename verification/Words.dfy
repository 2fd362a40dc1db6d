/** Machine words and result types shared by every component.
    Words are subset types of `int`: arithmetic is unbounded, and each place where the
    simulator saturates, wraps or checks for overflow says so explicitly. */
module Words {

  const TWO_TO_THE_64: int := 0x1_0000_0000_0000_0000

  type u64 = x: int | 0 <= x < 0x1_0000_0000_0000_0000

  type u16 = x: int | 0 <= x < 0x1_0000

  type byte = x: int | 0 <= x < 256

  datatype Option<+T> = None | Some(value: T)

  /** A failure-compatible result, so that `:-` plays the part of Rust's `?`. */
  datatype Result<+T, +E> = Ok(value: T) | Err(error: E) {

    predicate IsFailure() {
      Err?
    }

    function PropagateFailure<U>(): Result<U, E>
      requires Err?
    {
      Err(error)
    }

    function Extract(): T
      requires Ok?
    {
      value
    }
  }

  function Min(x: int, y: int): int {
    if x <= y then x else y
  }

  function Max(x: int, y: int): int {
    if x <= y then y else x
  }

  function SaturatingAdd(x: u64, y: u64): u64 {
    if x + y < TWO_TO_THE_64 then x + y else TWO_TO_THE_64 - 1
  }

  function SaturatingSub(x: u64, y: u64): u64 {
    if y <= x then x - y else 0
  }

  function SaturatingMul(x: u64, y: u64): u64 {
    var p := (x as int) * (y as int);
    if 0 <= p < TWO_TO_THE_64 then p else TWO_TO_THE_64 - 1
  }

  function WrappingSub(x: u64, y: u64): u64 {
    if y <= x then x - y else x - y + TWO_TO_THE_64
  }

  /** The low 64 bits. */
  function Wrap(n: nat): u64 {
    n % TWO_TO_THE_64
  }

  function WrappingAdd(x: u64, y: u64): u64 {
    Wrap(x + y)
  }

  lemma WrapMultiple(q: nat, r: nat)
    ensures Wrap(TWO_TO_THE_64 * q + r) == Wrap(r)
  {
  }

  /** Wrapping early or late makes no difference to a sum. */
  lemma WrapSum(a: nat, b: nat)
    ensures Wrap(Wrap(a) + Wrap(b)) == Wrap(a + b)
  {
    var m := TWO_TO_THE_64;
    var q := a / m + b / m;
    assert a + b == m * q + (Wrap(a) + Wrap(b));
    WrapMultiple(q, Wrap(a) + Wrap(b));
  }

  lemma SmallWrap(n: u64)
    ensures Wrap(n) == n
  {
  }

  /** Adding to a wrapped sum. */
  lemma WrapPlus(sum: nat, n: nat)
    ensures WrappingAdd(Wrap(sum), Wrap(n)) == Wrap(sum + n)
    ensures n < TWO_TO_THE_64 ==> WrappingAdd(Wrap(sum), n) == Wrap(sum + n)
  {
    WrapSum(sum, n);
  }

  function CheckedAdd(x: u64, y: u64): Option<u64> {
    if x + y < TWO_TO_THE_64 then Some(x + y) else None
  }
}
