/** The runtime values of Minilux and the value rules the interpreter applies itself.
    The arithmetic and coercions of value.rs (add, to_int, compare, equals, is_truthy,
    to_string) are not part of this model: they are the uninterpreted operations of
    `ValueOps`, and nothing is assumed about them. */
module Values {

  datatype Option<+T> = None | Some(value: T)

  /** Rust's `Result<T, String>`, plus `Exhausted` for a run the model's fuel bound cut off
      (the source has no such outcome: it runs on, or overflows its stack). A failure
      propagates like `?`. */
  datatype Outcome<+T> = Ok(value: T) | Err(msg: string) | Exhausted
  {
    predicate IsFailure() {
      !Ok?
    }

    function PropagateFailure<U>(): Outcome<U>
      requires IsFailure()
    {
      if Err? then Err(msg) else Exhausted
    }

    function Extract(): T
      requires Ok?
    {
      value
    }
  }

  /** A Minilux value: `Value::{Int, String, Array, Regex, Nil}`. */
  datatype Value =
    | Int(n: int)
    | Str(s: string)
    | Array(elems: seq<Value>)
    | Regex(pattern: string)
    | Nil

  /** `std::cmp::Ordering`, as returned by `Value::compare` when the operands are ordered. */
  datatype Ordering = Less | Equal | Greater

  /** The operations value.rs provides, taken as uninterpreted. */
  datatype ValueOps = ValueOps(
    add: (Value, Value) -> Value,
    subtract: (Value, Value) -> Value,
    multiply: (Value, Value) -> Value,
    divide: (Value, Value) -> Value,
    modulo: (Value, Value) -> Value,
    toInt: Value -> I64,
    compare: (Value, Value) -> Option<Ordering>,
    equals: (Value, Value) -> bool,
    isTruthy: Value -> bool,
    toString: Value -> string)

  const I64_MIN: int := -0x8000_0000_0000_0000
  const I64_MAX: int := 0x7FFF_FFFF_FFFF_FFFF
  /** 2^64: `as usize` on a 64-bit target keeps an i64's bits, so it reduces modulo this. */
  const USIZE_MODULUS: int := 0x1_0000_0000_0000_0000

  predicate IsI64(n: int) {
    I64_MIN <= n <= I64_MAX
  }

  /** Rust's `i64`: what `Value::to_int` returns. */
  type I64 = n: int | I64_MIN <= n <= I64_MAX

  /** The cast `n as usize` of an i64 on a 64-bit target (two's complement reinterpretation). */
  function AsUsize(n: int): (u: nat)
    ensures 0 <= n < USIZE_MODULUS ==> u == n
    ensures IsI64(n) && n < 0 ==> u == n + USIZE_MODULUS && u > I64_MAX
  {
    n % USIZE_MODULUS
  }

  /** `Value::Int(1)` or `Value::Int(0)`, the interpreter's encoding of a boolean. */
  function Truth(b: bool): Value {
    Int(if b then 1 else 0)
  }

  /** Indexing `target[index]`, where `index` is the i64 that `to_int` produced: arrays by
      position, strings by character, anything else `Nil`; out of bounds is `Nil`. */
  function Index(target: Value, index: int): (r: Value)
    ensures IsI64(index) && target.Array? && 0 <= index < |target.elems| ==> r == target.elems[index]
    ensures IsI64(index) && target.Str? && 0 <= index < |target.s| ==> r == Str([target.s[index]])
    ensures !target.Array? && !target.Str? ==> r == Nil
    ensures (IsI64(index) && target.Array? && |target.elems| <= I64_MAX &&
             (index < 0 || index >= |target.elems|)) ==> r == Nil
    ensures (IsI64(index) && target.Str? && |target.s| <= I64_MAX &&
             (index < 0 || index >= |target.s|)) ==> r == Nil
  {
    var idx := AsUsize(index);
    match target
    case Array(elems) => if idx < |elems| then elems[idx] else Nil
    case Str(s) => if idx < |s| then Str([s[idx]]) else Nil
    case _ => Nil
  }

  /** The examples of the language description: `[1, 2, 3][5]` is `Nil`, `"hi"[1]` is `"i"`,
      and a negative index never reaches an element. */
  lemma IndexExamples()
    ensures Index(Array([Int(1), Int(2), Int(3)]), 5) == Nil
    ensures Index(Str("hi"), 1) == Str("i")
    ensures Index(Array([Int(1), Int(2), Int(3)]), -1) == Nil
    ensures Index(Str("hi"), -2) == Nil
    ensures Index(Int(7), 0) == Nil
  {
  }
}
