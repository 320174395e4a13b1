/** The decoding examples of the test module in src/parser.rs, with the
    rendered terms written as term values. */
module ParserExamples {
  import opened Blc
  import opened Parser

  const TAB: byte := 9
  const LF: byte := 10
  const CR: byte := 13
  const SPACE: byte := 32

  /** The byte of a character of the test strings; any character not
      listed stands for '?', a byte that is neither a symbol nor whitespace. */
  function Ascii1(c: char): byte {
    if c == '0' then ZERO
    else if c == '1' then ONE
    else if c == '\t' then TAB
    else if c == '\n' then LF
    else if c == '\r' then CR
    else if c == ' ' then SPACE
    else if c == 'a' then 97
    else 63
  }

  /** The bytes of a test string. */
  function Ascii(s: string): seq<byte> {
    seq(|s|, k requires 0 <= k < |s| => Ascii1(s[k]))
  }

  /** Bytes other than whitespace in front are kept. */
  lemma KeepThen(a: seq<byte>, r: seq<byte>)
    requires forall k :: 0 <= k < |a| ==> !IsWhitespace(a[k])
    ensures Unspaced(a + r) == a + Unspaced(r)
  {
    UnspacedAppend(a, r);
    UnspacedKeeps(a);
  }

  /** Whitespace in front is dropped. */
  lemma DropThen(w: seq<byte>, r: seq<byte>)
    requires forall k :: 0 <= k < |w| ==> IsWhitespace(w[k])
    ensures Unspaced(w + r) == Unspaced(r)
  {
    UnspacedAppend(w, r);
    UnspacedWhitespace(w);
  }

  /** Two runs of whitespace between three runs of symbols disappear. */
  lemma DropTwoRuns(a: seq<byte>, w1: seq<byte>, b: seq<byte>, w2: seq<byte>, c: seq<byte>)
    requires forall k :: 0 <= k < |a| ==> !IsWhitespace(a[k])
    requires forall k :: 0 <= k < |b| ==> !IsWhitespace(b[k])
    requires forall k :: 0 <= k < |c| ==> !IsWhitespace(c[k])
    requires forall k :: 0 <= k < |w1| ==> IsWhitespace(w1[k])
    requires forall k :: 0 <= k < |w2| ==> IsWhitespace(w2[k])
    ensures Unspaced(a + (w1 + (b + (w2 + c)))) == a + (b + c)
  {
    KeepThen(a, w1 + (b + (w2 + c)));
    DropThen(w1, b + (w2 + c));
    KeepThen(b, w2 + c);
    DropThen(w2, c);
    UnspacedKeeps(c);
  }

  /** Three runs of whitespace between four runs of symbols disappear. */
  lemma DropThreeRuns(a: seq<byte>, w1: seq<byte>, b: seq<byte>, w2: seq<byte>, c: seq<byte>,
                      w3: seq<byte>, d: seq<byte>)
    requires forall k :: 0 <= k < |a| ==> !IsWhitespace(a[k])
    requires forall k :: 0 <= k < |b| ==> !IsWhitespace(b[k])
    requires forall k :: 0 <= k < |c| ==> !IsWhitespace(c[k])
    requires forall k :: 0 <= k < |d| ==> !IsWhitespace(d[k])
    requires forall k :: 0 <= k < |w1| ==> IsWhitespace(w1[k])
    requires forall k :: 0 <= k < |w2| ==> IsWhitespace(w2[k])
    requires forall k :: 0 <= k < |w3| ==> IsWhitespace(w3[k])
    ensures Unspaced(a + (w1 + (b + (w2 + (c + (w3 + d)))))) == a + (b + (c + d))
  {
    KeepThen(a, w1 + (b + (w2 + (c + (w3 + d)))));
    DropThen(w1, b + (w2 + (c + (w3 + d))));
    DropTwoRuns(b, w2, c, w3, d);
  }

  lemma Variables()
    ensures Parse(Ascii("10")) == Returned(Var(1))
    ensures Parse(Ascii("110")) == Returned(Var(2))
    ensures Parse(Ascii("1110")) == Returned(Var(3))
  {
    assert Ascii("10") == Serialize(Var(1)) + [];
    ParseIgnoresTrailing(Var(1), []);
    assert Ascii("110") == Serialize(Var(2)) + [];
    ParseIgnoresTrailing(Var(2), []);
    assert Ascii("1110") == Serialize(Var(3)) + [];
    ParseIgnoresTrailing(Var(3), []);
  }

  lemma AbstractionTab()
    ensures Parse(Ascii("00\t10")) == Returned(Abs(Var(1)))
  {
    var a, w, b := [ZERO, ZERO], [TAB], [ONE, ZERO];
    assert Ascii("00\t10") == a + (w + b);
    KeepThen(a, w + b);
    DropThen(w, b);
    UnspacedKeeps(b);
    assert a + b == Serialize(Abs(Var(1))) + [];
    RoundTrip(Abs(Var(1)), []);
  }

  lemma AbstractionNewlines()
    ensures Parse(Ascii("00\n00\r\n10")) == Returned(Abs(Abs(Var(1))))
  {
    NewlinesUnspaced();
    RoundTrip(Abs(Abs(Var(1))), []);
  }

  lemma NewlinesUnspaced()
    ensures Unspaced(Ascii("00\n00\r\n10")) == Serialize(Abs(Abs(Var(1)))) + []
  {
    var a, w1, b, w2, c := [ZERO, ZERO], [LF], [ZERO, ZERO], [CR, LF], [ONE, ZERO];
    assert Ascii("00\n00\r\n10") == [ZERO, ZERO, LF, ZERO, ZERO, CR, LF, ONE, ZERO];
    assert [ZERO, ZERO, LF, ZERO, ZERO, CR, LF, ONE, ZERO] == a + (w1 + (b + (w2 + c)));
    DropTwoRuns(a, w1, b, w2, c);
    assert a + (b + c) == Serialize(Abs(Abs(Var(1)))) + [];
  }

  lemma AbstractionSpaces()
    ensures Parse(Ascii("00 00\t00\n10")) == Returned(Abs(Abs(Abs(Var(1)))))
  {
    SpacesUnspaced();
    RoundTrip(Abs(Abs(Abs(Var(1)))), []);
  }

  lemma SpacesUnspaced()
    ensures Unspaced(Ascii("00 00\t00\n10")) == Serialize(Abs(Abs(Abs(Var(1))))) + []
  {
    var a, w1, b, w2, c, w3, d := [ZERO, ZERO], [SPACE], [ZERO, ZERO], [TAB], [ZERO, ZERO], [LF], [ONE, ZERO];
    assert Ascii("00 00\t00\n10") == [ZERO, ZERO, SPACE, ZERO, ZERO, TAB, ZERO, ZERO, LF, ONE, ZERO];
    assert [ZERO, ZERO, SPACE, ZERO, ZERO, TAB, ZERO, ZERO, LF, ONE, ZERO]
        == a + (w1 + (b + (w2 + (c + (w3 + d)))));
    DropThreeRuns(a, w1, b, w2, c, w3, d);
    assert a + (b + (c + d)) == Serialize(Abs(Abs(Abs(Var(1))))) + [];
  }

  lemma Applications()
    ensures Parse(Ascii("011010")) == Returned(App(Var(1), Var(1)))
    ensures Parse(Ascii("0110110")) == Returned(App(Var(1), Var(2)))
    ensures Parse(Ascii("0111010")) == Returned(App(Var(2), Var(1)))
  {
    assert Ascii("011010") == Serialize(App(Var(1), Var(1))) + [];
    ParseIgnoresTrailing(App(Var(1), Var(1)), []);
    assert Ascii("0110110") == Serialize(App(Var(1), Var(2))) + [];
    ParseIgnoresTrailing(App(Var(1), Var(2)), []);
    assert Ascii("0111010") == Serialize(App(Var(2), Var(1))) + [];
    ParseIgnoresTrailing(App(Var(2), Var(1)), []);
  }

  /** The k combinator and the bare variable 15 of the rendering test. */
  lemma Combinators()
    ensures Parse(Ascii("0000110")) == Returned(Abs(Abs(Var(2))))
    ensures Parse(Ascii("1111111111111110")) == Returned(Var(15))
  {
    assert Ascii("0000110") == Serialize(Abs(Abs(Var(2)))) + [];
    ParseIgnoresTrailing(Abs(Abs(Var(2))), []);
    assert Ascii("1111111111111110") == Serialize(Var(15)) + [];
    ParseIgnoresTrailing(Var(15), []);
  }

  /** The s combinator λλλ31(21) of the rendering test. */
  const S := Abs(Abs(Abs(App(App(Var(3), Var(1)), App(Var(2), Var(1))))))

  /** The successor function λλλ2(321) of the rendering test. */
  const Succ := Abs(Abs(Abs(App(Var(2), App(App(Var(3), Var(2)), Var(1))))))

  lemma CombinatorS()
    ensures Parse(Ascii("00000001011110100111010")) == Returned(S)
  {
    SBytes();
    ParseIgnoresTrailing(S, []);
  }

  lemma SBytes()
    ensures Ascii("00000001011110100111010") == Serialize(S) + []
  {
  }

  lemma Successor()
    ensures Parse(Ascii("000000011100101111011010")) == Returned(Succ)
  {
    SuccBytes();
    ParseIgnoresTrailing(Succ, []);
  }

  lemma SuccBytes()
    ensures Ascii("000000011100101111011010") == Serialize(Succ) + []
  {
  }

  /** Truncated inputs panic rather than fail. */
  lemma Truncations()
    ensures ParseTerm(Ascii("0")) == Panic
    ensures ParseTerm(Ascii("1")) == Panic
    ensures ParseTerm(Ascii("111")) == Panic
  {
    PanicsOnSingleByte(Ascii("0"));
    PanicsOnSingleByte(Ascii("1"));
    OnesRun(3);
    assert Ascii("111") == Ones(3);
  }

  /** An abstraction whose body is cut after one byte panics. */
  lemma TruncatedAbstraction()
    ensures ParseTerm(Ascii("001")) == Panic
  {
    assert Ascii("001") == [ZERO, ZERO] + [ONE];
    PanicsOnSingleByte([ONE]);
    AbsLaw([ONE]);
  }

  /** An application whose argument is cut after one byte panics. */
  lemma TruncatedApplication()
    ensures ParseTerm(Ascii("01100")) == Panic
  {
    assert Ascii("01100") == [ZERO, ONE] + [ONE, ZERO, ZERO];
    VarTerminated(1, ZERO, [ZERO]);
    assert Ones(1) + [ZERO] + [ZERO] == [ONE, ZERO, ZERO];
    PanicsOnSingleByte([ZERO]);
    AppLaw([ONE, ZERO, ZERO]);
  }

  /** Empty input and a non-symbol byte give `None`. */
  lemma Unknown()
    ensures ParseTerm(Ascii("")) == Fail
    ensures ParseTerm(Ascii("0a")) == Fail
  {
    FailsOnEmptyOrUnknownPrefix(Ascii(""));
    FailsOnEmptyOrUnknownPrefix(Ascii("0a"));
  }
}
