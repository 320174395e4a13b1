/** The recursive-descent decoder of src/parser.rs: `_parse` reads one term
    from the front of a byte string and returns it with the unconsumed
    remainder; `parse` strips whitespace first, unwraps, and keeps the term.

    Rust slicing panics when a range runs past the end of the slice and the
    panic unwinds through every recursive call, so the decoder's result has
    three cases: a term with the remainder, `None` (Fail) and a panic.
 */
module Parser {
  import opened Blc

  /** Result of `_parse`. */
  datatype Step = Ok(term: Term, rest: seq<byte>) | Fail | Panic

  /** Result of the public `parse`: a term, or a panic (`unwrap` on `None`
      or an out-of-range slice further down). */
  datatype Outcome = Returned(term: Term) | Panicked

  /** `r` is what is left of `s` after a non-empty prefix was consumed. */
  predicate ProperSuffix(r: seq<byte>, s: seq<byte>) {
    |r| < |s| && s[|s| - |r|..] == r
  }

  /** The number of '1' bytes at the front of `s`
      (`take_while(|&b| *b == b'1').count()`). */
  function LeadingOnes(s: seq<byte>): (n: nat)
    ensures n <= |s|
    ensures forall k :: 0 <= k < n ==> s[k] == ONE
    ensures n < |s| ==> s[n] != ONE
  {
    if s == [] || s[0] != ONE then 0 else 1 + LeadingOnes(s[1..])
  }

  /** `_parse`: dispatch on the first two bytes. `00` is an abstraction,
      `01` an application, `10`/`11` a variable; an empty input and any
      other pair give `None`. */
  function ParseTerm(input: seq<byte>): (r: Step)
    ensures r.Ok? ==> ProperSuffix(r.rest, input)
    ensures r.Ok? ==> WellFormed(r.term)
    decreases |input|, 1
  {
    if |input| == 0 then Fail
    else if |input| == 1 then Panic  // `&input[0..2]` is out of range
    else if input[0] == ZERO && input[1] == ZERO then ParseAbs(input[2..])
    else if input[0] == ZERO && input[1] == ONE then ParseApp(input[2..])
    else if input[0] == ONE && (input[1] == ZERO || input[1] == ONE) then ParseVar(input)
    else Fail
  }

  /** The `00` arm, given what follows the pair: the body's term under a
      binder, with the body's remainder. */
  function ParseAbs(s: seq<byte>): (r: Step)
    ensures r.Ok? ==> ProperSuffix(r.rest, s)
    ensures r.Ok? ==> WellFormed(r.term) && r.term.Abs?
    decreases |s|, 2
  {
    match ParseTerm(s)
    case Ok(body, rest) => Ok(Abs(body), rest)
    case Fail => Fail
    case Panic => Panic
  }

  /** The `01` arm, given what follows the pair: the function term, then the
      argument term read from the function's remainder. */
  function ParseApp(s: seq<byte>): (r: Step)
    ensures r.Ok? ==> ProperSuffix(r.rest, s)
    ensures r.Ok? ==> WellFormed(r.term) && r.term.App?
    decreases |s|, 2
  {
    match ParseTerm(s)
    case Ok(func, rest1) =>
      (match ParseTerm(rest1)
       case Ok(arg, rest2) => Ok(App(func, arg), rest2)
       case Fail => Fail
       case Panic => Panic)
    case Fail => Fail
    case Panic => Panic
  }

  /** The `10 | 11` arm: the index is the number of leading '1's of the whole
      remaining input. Exactly two remaining bytes end the input; otherwise
      the token is those '1's and one more byte, which is not inspected. */
  function ParseVar(input: seq<byte>): (r: Step)
    requires |input| >= 2 && input[0] == ONE
    ensures r.Ok? ==> ProperSuffix(r.rest, input)
    ensures r.Ok? ==> r.term.Var? && r.term.index >= 1
  {
    var i := LeadingOnes(input);
    if |input| == 2 then Ok(Var(i), [])
    else if i + 1 > |input| then Panic  // `&input[i+1..]` is out of range
    else Ok(Var(i), input[i + 1..])
  }

  /** The four bytes `parse` deletes: tab, line feed, carriage return, space. */
  predicate IsWhitespace(b: byte) {
    b == 9 || b == 10 || b == 13 || b == 32
  }

  /** The input with every whitespace byte deleted, order kept. */
  function Unspaced(s: seq<byte>): (r: seq<byte>)
    ensures |r| <= |s|
    ensures forall k :: 0 <= k < |r| ==> !IsWhitespace(r[k])
  {
    if s == [] then []
    else if IsWhitespace(s[0]) then Unspaced(s[1..])
    else [s[0]] + Unspaced(s[1..])
  }

  /** `parse`: decode the unspaced input, panic on `None`, drop the remainder. */
  function Parse(input: seq<byte>): (r: Outcome)
    ensures r.Returned? ==> WellFormed(r.term)
    ensures r.Returned? && IsBinary(Unspaced(input)) ==>
              exists rest :: Spells(Unspaced(input), r.term, rest)
  {
    var u := Unspaced(input);
    ParseTermSound(u);
    match ParseTerm(u)
    case Ok(t, _) => Returned(t)
    case Fail => Panicked
    case Panic => Panicked
  }

  // ---------------------------------------------------------------------
  // Boundary behaviour of `_parse`

  /** Empty input, and a first byte pair that is none of 00, 01, 10, 11,
      give `None`. */
  lemma FailsOnEmptyOrUnknownPrefix(input: seq<byte>)
    requires |input| == 0 ||
             (|input| >= 2 && !((input[0] == ZERO || input[0] == ONE) && (input[1] == ZERO || input[1] == ONE)))
    ensures ParseTerm(input) == Fail
  {
  }

  /** One remaining byte panics at the two-byte slice, whatever the byte. */
  lemma PanicsOnSingleByte(input: seq<byte>)
    requires |input| == 1
    ensures ParseTerm(input) == Panic
  {
  }

  /** A remaining input made only of '1's: exactly two of them read as
      Var(2); one of them, or three and more, panic. */
  lemma OnesRun(n: nat)
    requires n >= 1
    ensures n == 2 ==> ParseTerm(Ones(n)) == Ok(Var(2), [])
    ensures n != 2 ==> ParseTerm(Ones(n)) == Panic
  {
    var s := Ones(n);
    if n >= 2 {
      assert s[0] == ONE && s[1] == ONE;
      assert LeadingOnes(s) == n;
    }
  }

  /** The end-of-input rule: the two-byte inputs "10" and "11". */
  lemma VarAtEnd()
    ensures ParseTerm([ONE, ZERO]) == Ok(Var(1), [])
    ensures ParseTerm([ONE, ONE]) == Ok(Var(2), [])
  {
    assert LeadingOnes([ONE, ZERO]) == 1;
    assert LeadingOnes([ONE, ONE]) == 2;
  }

  /** The terminator law: `n` '1's, a '0' and anything else (more than two
      bytes in all) read as Var(n) and leave exactly the rest. The byte
      after the run is skipped without being inspected, so for `n >= 2` any
      byte other than '1' ends the token just as '0' does. */
  lemma VarTerminated(n: nat, c: byte, rest: seq<byte>)
    requires n >= 1 && c != ONE && n + 1 + |rest| > 2
    requires n == 1 ==> c == ZERO
    ensures ParseTerm(Ones(n) + [c] + rest) == Ok(Var(n), rest)
  {
    var s := Ones(n) + [c] + rest;
    assert s[n] == c;
    assert forall k :: 0 <= k < n ==> s[k] == ONE;
    assert LeadingOnes(s) == n;
    assert s[0] == ONE && (s[1] == ZERO || s[1] == ONE);
    assert s[n + 1..] == rest;
  }

  /** With a single '1', the byte after it is the second byte of the
      dispatch pair, so anything but '0' or '1' there fails. */
  lemma VarNeedsBinaryPair(c: byte, rest: seq<byte>)
    requires c != ZERO && c != ONE
    ensures ParseTerm([ONE, c] + rest) == Fail
  {
  }

  /** A variable token's index is the length of the whole run of '1's the
      remaining input starts with. */
  lemma VarIsRunLength(input: seq<byte>)
    requires ParseTerm(input).Ok? && ParseTerm(input).term.Var?
    ensures ParseTerm(input).term.index == LeadingOnes(input)
    ensures ParseTerm(input).term.index >= 1
  {
    assert ParseTerm(input) == ParseVar(input);
  }

  // ---------------------------------------------------------------------
  // Abstraction and application

  /** "00" followed by `s` is an abstraction over what `s` reads as, with
      the same remainder; it fails or panics exactly when `s` does. */
  lemma AbsLaw(s: seq<byte>)
    ensures var p := ParseTerm(s);
            var q := ParseTerm([ZERO, ZERO] + s);
            && (p.Ok? <==> q.Ok?)
            && (p.Ok? ==> q.term == Abs(p.term) && q.rest == p.rest)
            && (p == Fail <==> q == Fail)
            && (p == Panic <==> q == Panic)
  {
    assert ([ZERO, ZERO] + s)[2..] == s;
  }

  /** "01" followed by `s` is an application: the function is read from `s`,
      the argument from what that leaves, and the argument's remainder is
      the whole remainder. A failure or panic in either part is the result. */
  lemma AppLaw(s: seq<byte>)
    ensures var p := ParseTerm(s);
            var q := ParseTerm([ZERO, ONE] + s);
            && (q.Ok? <==> p.Ok? && ParseTerm(p.rest).Ok?)
            && (q.Ok? ==> q.term == App(p.term, ParseTerm(p.rest).term) && q.rest == ParseTerm(p.rest).rest)
            && (q == Panic <==> p == Panic || (p.Ok? && ParseTerm(p.rest) == Panic))
  {
    assert ([ZERO, ONE] + s)[2..] == s;
  }

  // ---------------------------------------------------------------------
  // Agreement with the serialiser of the grammar table

  /** Reading a serialised well-formed term gives back that term and leaves
      whatever followed it. */
  lemma {:induction false} RoundTrip(t: Term, rest: seq<byte>)
    requires WellFormed(t)
    ensures ParseTerm(Serialize(t) + rest) == Ok(t, rest)
  {
    match t
    case Var(i) =>
      if i == 1 && rest == [] {
        VarAtEnd();
        assert Serialize(t) + rest == [ONE, ZERO];
      } else {
        VarTerminated(i, ZERO, rest);
      }
    case Abs(m) =>
      RoundTrip(m, rest);
      RoundTripAbs(m, rest);
    case App(m, n) =>
      RoundTrip(n, rest);
      RoundTrip(m, Serialize(n) + rest);
      RoundTripApp(m, n, rest);
  }

  /** The abstraction step of RoundTrip. */
  lemma RoundTripAbs(m: Term, rest: seq<byte>)
    requires ParseTerm(Serialize(m) + rest) == Ok(m, rest)
    ensures ParseTerm(Serialize(Abs(m)) + rest) == Ok(Abs(m), rest)
  {
    var s := Serialize(m) + rest;
    assert Serialize(Abs(m)) + rest == [ZERO, ZERO] + s;
    AbsOk(s, m, rest);
  }

  /** A successful read after "00" makes an abstraction. */
  lemma AbsOk(s: seq<byte>, body: Term, rest: seq<byte>)
    requires ParseTerm(s) == Ok(body, rest)
    ensures ParseTerm([ZERO, ZERO] + s) == Ok(Abs(body), rest)
  {
    var input := [ZERO, ZERO] + s;
    assert input[0] == ZERO && input[1] == ZERO && input[2..] == s;
    assert ParseTerm(input) == ParseAbs(s);
  }

  /** The application step of RoundTrip. */
  lemma RoundTripApp(m: Term, n: Term, rest: seq<byte>)
    requires ParseTerm(Serialize(n) + rest) == Ok(n, rest)
    requires ParseTerm(Serialize(m) + (Serialize(n) + rest)) == Ok(m, Serialize(n) + rest)
    ensures ParseTerm(Serialize(App(m, n)) + rest) == Ok(App(m, n), rest)
  {
    var mid := Serialize(n) + rest;
    var s := Serialize(m) + mid;
    assert Serialize(App(m, n)) + rest == [ZERO, ONE] + s;
    AppOk(s, m, mid, n, rest);
  }

  /** Two successful reads after "01" make an application. */
  lemma AppOk(s: seq<byte>, func: Term, mid: seq<byte>, arg: Term, rest: seq<byte>)
    requires ParseTerm(s) == Ok(func, mid) && ParseTerm(mid) == Ok(arg, rest)
    ensures ParseTerm([ZERO, ONE] + s) == Ok(App(func, arg), rest)
  {
    var input := [ZERO, ONE] + s;
    assert input[0] == ZERO && input[1] == ONE && input[2..] == s;
    assert ParseTerm(input) == ParseApp(s);
  }

  /** A suffix of a string of '0'/'1' bytes is one too. */
  lemma BinarySuffix(r: seq<byte>, s: seq<byte>)
    requires IsBinary(s) && ProperSuffix(r, s)
    ensures IsBinary(r)
  {
    forall k | 0 <= k < |r| ensures r[k] == ZERO || r[k] == ONE {
      assert r[k] == s[|s| - |r| + k];
    }
  }

  /** The index of the rightmost variable of a term, the last token of its
      serialisation. */
  function LastIndex(t: Term): nat {
    match t
    case Var(i) => i
    case Abs(m) => LastIndex(m)
    case App(_, n) => LastIndex(n)
  }

  /** `input` spells `t` followed by `rest`: either the serialisation of `t`
      and then `rest`, or, with nothing left, the serialisation of a term
      whose last token is "110" with that final '0' missing. */
  predicate Spells(input: seq<byte>, t: Term, rest: seq<byte>) {
    input == Serialize(t) + rest ||
    (rest == [] && LastIndex(t) == 2 && input + [ZERO] == Serialize(t))
  }

  /** What `_parse` accepts from input made of '0'/'1' bytes is exactly what
      Spells describes: the serialisation of a well-formed term and the
      remainder, except that a final "11" stands for "110". */
  lemma ParseTermExact(input: seq<byte>, t: Term, rest: seq<byte>)
    requires IsBinary(input)
    ensures ParseTerm(input) == Ok(t, rest) <==> WellFormed(t) && Spells(input, t, rest)
  {
    ParseTermSound(input);
    if WellFormed(t) && Spells(input, t, rest) {
      if input == Serialize(t) + rest {
        RoundTrip(t, rest);
      } else {
        EndRule(t);
        assert input == Serialize(t)[..|Serialize(t)| - 1];
      }
    }
  }

  /** A term whose last token is "110" is read from its serialisation
      without the final '0', with nothing left. */
  lemma {:induction false} EndRule(t: Term)
    requires WellFormed(t) && LastIndex(t) == 2
    ensures |Serialize(t)| >= 1
    ensures ParseTerm(Serialize(t)[..|Serialize(t)| - 1]) == Ok(t, [])
  {
    match t
    case Var(i) =>
      VarAtEnd();
      assert Serialize(t)[..|Serialize(t)| - 1] == [ONE, ONE];
    case Abs(m) =>
      EndRule(m);
      EndRuleAbs(m);
    case App(m, n) =>
      EndRule(n);
      EndRuleApp(m, n);
  }

  /** The abstraction case of EndRule. */
  lemma EndRuleAbs(m: Term)
    requires WellFormed(m) && |Serialize(m)| >= 1
    requires ParseTerm(Serialize(m)[..|Serialize(m)| - 1]) == Ok(m, [])
    ensures ParseTerm(Serialize(Abs(m))[..|Serialize(Abs(m))| - 1]) == Ok(Abs(m), [])
  {
    var s := Serialize(m)[..|Serialize(m)| - 1];
    ChopAbs(m);
    AbsOk(s, m, []);
  }

  /** The application case of EndRule. */
  lemma EndRuleApp(m: Term, n: Term)
    requires WellFormed(m) && WellFormed(n) && |Serialize(n)| >= 1
    requires ParseTerm(Serialize(n)[..|Serialize(n)| - 1]) == Ok(n, [])
    ensures ParseTerm(Serialize(App(m, n))[..|Serialize(App(m, n))| - 1]) == Ok(App(m, n), [])
  {
    var x := Serialize(n)[..|Serialize(n)| - 1];
    RoundTrip(m, x);
    ChopApp(m, n);
    AppOk(Serialize(m) + x, m, x, n, []);
  }

  /** Dropping the last byte of an abstraction drops that of its body. */
  lemma ChopAbs(m: Term)
    requires |Serialize(m)| >= 1
    ensures Serialize(Abs(m))[..|Serialize(Abs(m))| - 1]
         == [ZERO, ZERO] + Serialize(m)[..|Serialize(m)| - 1]
  {
  }

  /** Dropping the last byte of an application drops that of its argument. */
  lemma ChopApp(m: Term, n: Term)
    requires |Serialize(n)| >= 1
    ensures Serialize(App(m, n))[..|Serialize(App(m, n))| - 1]
         == [ZERO, ONE] + (Serialize(m) + Serialize(n)[..|Serialize(n)| - 1])
  {
  }

  /** On input made of '0'/'1' bytes, whatever `_parse` reads, it reads as
      Spells describes. */
  lemma {:induction false} ParseTermSound(input: seq<byte>)
    ensures var p := ParseTerm(input);
            IsBinary(input) && p.Ok? ==> Spells(input, p.term, p.rest)
    decreases |input|
  {
    var p := ParseTerm(input);
    if IsBinary(input) && p.Ok? {
      assert |input| >= 2;
      if input[0] == ZERO && input[1] == ZERO {
        SoundAbs(input);
      } else if input[0] == ZERO && input[1] == ONE {
        SoundApp(input);
      } else {
        SoundVar(input);
      }
    }
  }

  /** The abstraction case of ParseTermSound. */
  lemma {:induction false} SoundAbs(input: seq<byte>)
    requires IsBinary(input) && |input| >= 2 && input[0] == ZERO && input[1] == ZERO
    requires ParseTerm(input).Ok?
    ensures Spells(input, ParseTerm(input).term, ParseTerm(input).rest)
    decreases |input|, 0
  {
    var s := input[2..];
    assert input == [ZERO, ZERO] + s;
    AbsLaw(s);
    ParseTermSound(s);
  }

  /** The application case of ParseTermSound. */
  lemma {:induction false} SoundApp(input: seq<byte>)
    requires IsBinary(input) && |input| >= 2 && input[0] == ZERO && input[1] == ONE
    requires ParseTerm(input).Ok?
    ensures Spells(input, ParseTerm(input).term, ParseTerm(input).rest)
    decreases |input|, 0
  {
    var s := input[2..];
    assert input == [ZERO, ONE] + s;
    AppLaw(s);
    var p1 := ParseTerm(s);
    var p2 := ParseTerm(p1.rest);
    ParseTermSound(s);
    assert p1.rest != [];
    BinarySuffix(p1.rest, s);
    ParseTermSound(p1.rest);
    JoinApp(input, p1.term, p1.rest, p2.term, p2.rest);
  }

  /** The bytes of an application, put together from those of its parts. */
  lemma JoinApp(input: seq<byte>, func: Term, mid: seq<byte>, arg: Term, rest: seq<byte>)
    requires input == [ZERO, ONE] + (Serialize(func) + mid)
    requires Spells(mid, arg, rest)
    ensures Spells(input, App(func, arg), rest)
  {
    if mid == Serialize(arg) + rest {
      assert input == Serialize(App(func, arg)) + rest;
    } else {
      assert input + [ZERO] == Serialize(App(func, arg));
    }
  }

  /** The variable case of ParseTermSound. */
  lemma SoundVar(input: seq<byte>)
    requires IsBinary(input) && |input| >= 2 && input[0] == ONE
    requires ParseTerm(input).Ok?
    ensures Spells(input, ParseTerm(input).term, ParseTerm(input).rest)
  {
    assert ParseTerm(input) == ParseVar(input);
    if |input| == 2 {
      VarAtEnd();
      assert input == [ONE, ZERO] || input == [ONE, ONE];
    } else {
      SoundVarTerminated(input);
    }
  }

  /** A variable token with its terminator, on input made of '0'/'1' bytes. */
  lemma SoundVarTerminated(input: seq<byte>)
    requires IsBinary(input) && |input| > 2 && input[0] == ONE
    requires ParseVar(input).Ok?
    ensures input == Serialize(ParseVar(input).term) + ParseVar(input).rest
  {
    var i := LeadingOnes(input);
    assert input[i] == ZERO;
    OnesPrefix(input, i);
    assert input == input[..i] + [input[i]] + input[i + 1..];
  }

  /** A prefix made of '1's is a run of '1's. */
  lemma OnesPrefix(s: seq<byte>, n: nat)
    requires n <= |s| && forall k :: 0 <= k < n ==> s[k] == ONE
    ensures s[..n] == Ones(n)
  {
  }

  /** The end-of-input rule does not survive appending: "11" reads as Var(2)
      while "111" panics. */
  lemma EndRuleNotExtensible()
    ensures ParseTerm([ONE, ONE]).Ok?
    ensures ParseTerm([ONE, ONE] + [ONE]) == Panic
  {
    VarAtEnd();
    OnesRun(3);
    assert Ones(3) == [ONE, ONE, ONE];
  }

  // ---------------------------------------------------------------------
  // Whitespace filter and the public `parse`

  /** Deleting whitespace distributes over concatenation. */
  lemma {:induction false} UnspacedAppend(a: seq<byte>, b: seq<byte>)
    ensures Unspaced(a + b) == Unspaced(a) + Unspaced(b)
    decreases |a|
  {
    if a != [] {
      UnspacedAppend(a[1..], b);
      assert (a + b)[0] == a[0];
      assert (a + b)[1..] == a[1..] + b;
      if !IsWhitespace(a[0]) {
        assert Unspaced(a + b) == [a[0]] + (Unspaced(a[1..]) + Unspaced(b));
      }
    } else {
      assert a + b == b;
    }
  }

  /** A run of whitespace disappears entirely. */
  lemma {:induction false} UnspacedWhitespace(w: seq<byte>)
    requires forall k :: 0 <= k < |w| ==> IsWhitespace(w[k])
    ensures Unspaced(w) == []
    decreases |w|
  {
    if w != [] {
      UnspacedWhitespace(w[1..]);
    }
  }

  /** Bytes other than whitespace are kept as they are. */
  lemma {:induction false} UnspacedKeeps(s: seq<byte>)
    requires forall k :: 0 <= k < |s| ==> !IsWhitespace(s[k])
    ensures Unspaced(s) == s
    decreases |s|
  {
    if s != [] {
      UnspacedKeeps(s[1..]);
    }
  }

  /** Inserting whitespace anywhere does not change what `parse` returns. */
  lemma WhitespaceInvariant(a: seq<byte>, w: seq<byte>, b: seq<byte>)
    requires forall k :: 0 <= k < |w| ==> IsWhitespace(w[k])
    ensures Parse(a + w + b) == Parse(a + b)
  {
    UnspacedAppend(a + w, b);
    UnspacedAppend(a, w);
    UnspacedAppend(a, b);
    UnspacedWhitespace(w);
    assert Unspaced(a + w + b) == Unspaced(a + b);
  }

  /** `parse` of a serialised term returns the term whatever follows it:
      the remainder is dropped, not rejected. */
  lemma ParseIgnoresTrailing(t: Term, trailing: seq<byte>)
    requires WellFormed(t)
    ensures Parse(Serialize(t) + trailing) == Returned(t)
  {
    var s := Serialize(t);
    UnspacedAppend(s, trailing);
    SerializeBinary(t);
    assert forall k :: 0 <= k < |s| ==> !IsWhitespace(s[k]);
    UnspacedKeeps(s);
    RoundTrip(t, Unspaced(trailing));
  }

  /** A `None` from `_parse` on the unspaced input is a panic of `parse`,
      as is a panic of `_parse`; otherwise `parse` returns the term. */
  lemma ParseUnwraps(input: seq<byte>)
    ensures ParseTerm(Unspaced(input)).Ok? <==> Parse(input).Returned?
    ensures ParseTerm(Unspaced(input)) == Fail ==> Parse(input) == Panicked
  {
  }
}
