/** Binary Lambda Calculus: the term model and the grammar table that
    serialises a term to a string of '0'/'1' bytes.

    | term        | lambda | BLC      |
    | abstraction | λM     | 00M      |
    | application | MN     | 01MN     |
    | variable    | i      | 1^i 0    |
 */
module Blc {

  /** A byte of the input (Rust `u8`). */
  newtype byte = b: int | 0 <= b < 256

  /** ASCII '0' and '1', the two symbols of the encoding. */
  const ZERO: byte := 48
  const ONE: byte := 49

  /** Untyped lambda terms with De Bruijn indices (1 names the innermost binder). */
  datatype Term = Var(index: nat) | Abs(body: Term) | App(func: Term, arg: Term)

  /** Every index is at least 1: the grammar has no token for index 0. */
  predicate WellFormed(t: Term) {
    match t
    case Var(i) => i >= 1
    case Abs(m) => WellFormed(m)
    case App(m, n) => WellFormed(m) && WellFormed(n)
  }

  /** A run of `n` '1' bytes. */
  function Ones(n: nat): (r: seq<byte>)
    ensures |r| == n
    ensures forall k :: 0 <= k < n ==> r[k] == ONE
  {
    if n == 0 then [] else [ONE] + Ones(n - 1)
  }

  /** True when every byte of `s` is one of the two symbols. */
  predicate IsBinary(s: seq<byte>) {
    forall k :: 0 <= k < |s| ==> s[k] == ZERO || s[k] == ONE
  }

  /** The serialiser given by the grammar table. */
  function Serialize(t: Term): seq<byte> {
    match t
    case Var(i) => Ones(i) + [ZERO]
    case Abs(m) => [ZERO, ZERO] + Serialize(m)
    case App(m, n) => [ZERO, ONE] + Serialize(m) + Serialize(n)
  }

  /** A serialisation uses only the two symbols and ends with '0'. */
  lemma {:induction false} SerializeBinary(t: Term)
    ensures IsBinary(Serialize(t))
    ensures Serialize(t)[|Serialize(t)| - 1] == ZERO
  {
    match t
    case Var(i) =>
    case Abs(m) =>
      SerializeBinary(m);
    case App(m, n) =>
      SerializeBinary(m);
      SerializeBinary(n);
  }
}
