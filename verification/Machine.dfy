/** Machine integers and the usual wrappers, shared by the models of the C, C++ and Go code. */
module Machine {

  newtype Byte = x: int | 0 <= x < 0x100

  type U32 = x: nat | x < 0x1_0000_0000

  type U64 = x: nat | x < 0x1_0000_0000_0000_0000

  datatype Option<+T> = None | Some(value: T)

  function Min(a: nat, b: nat): (m: nat)
    ensures m <= a && m <= b && (m == a || m == b)
  {
    if a < b then a else b
  }

  function Zeros(n: nat): (z: seq<Byte>)
    ensures |z| == n && forall i :: 0 <= i < n ==> z[i] == 0
  {
    seq(n, _ => 0)
  }

  /** Concatenation is associative; the verifier needs to be told. */
  lemma Regroup<T>(a: seq<T>, b: seq<T>, c: seq<T>)
    ensures a + (b + c) == a + b + c
  {
  }

  /** Unsigned 32-bit addition and subtraction. */
  function Add32(a: U32, b: U32): (r: U32)
    ensures r == a + b || r == a + b - 0x1_0000_0000
  {
    if a + b < 0x1_0000_0000 then a + b else a + b - 0x1_0000_0000
  }

  function Sub32(a: U32, b: U32): (r: U32)
    ensures r == a - b || r == a - b + 0x1_0000_0000
  {
    if a >= b then a - b else a - b + 0x1_0000_0000
  }

  /** Unsigned 64-bit addition and subtraction. */
  function Add64(a: U64, b: U64): (r: U64)
    ensures r == a + b || r == a + b - 0x1_0000_0000_0000_0000
  {
    if a + b < 0x1_0000_0000_0000_0000 then a + b else a + b - 0x1_0000_0000_0000_0000
  }

  function Sub64(a: U64, b: U64): (r: U64)
    ensures r == a - b || r == a - b + 0x1_0000_0000_0000_0000
  {
    if a >= b then a - b else a - b + 0x1_0000_0000_0000_0000
  }
}
