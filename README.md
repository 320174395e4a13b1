# blc parser — a Dafny model of the Binary Lambda Calculus term decoder

The `blc` crate reads programs of the binary lambda calculus. A program is a
string of ASCII '0'/'1' bytes that encodes an untyped lambda term with
De Bruijn indices, using the grammar table of `src/lib.rs`:

| term        | BLC     |
|-------------|---------|
| abstraction | `00M`   |
| application | `01MN`  |
| variable i  | `1^i 0` |

This project models the decoder in `src/parser.rs`:

- `_parse` is a recursive descent that dispatches on the first two bytes. It
  returns the term and the unconsumed remainder.
- `parse` deletes the whitespace bytes 9, 10, 13 and 32, runs `_parse`,
  unwraps the result and keeps only the term.

Files:

- `blc.dfy` (module `Blc`) holds the byte and term types. It also holds a
  serialiser written from the grammar table, and the facts about that
  serialiser.
- `parser.dfy` (module `Parser`) holds `_parse` as `ParseTerm`, with one
  function per match arm (`ParseAbs`, `ParseApp`, `ParseVar`). It also holds
  `parse` as `Parse`, and the lemmas about both.
- `examples_test.dfy` (module `ParserExamples`) restates the decoding cases of
  the crate's unit tests as lemmas over term values.

`_parse` has three outcomes: `Ok(term, rest)`, `Fail` (Rust's `None`) and
`Panic`. A panic is an out-of-range slice, and it unwinds through every
recursive call. `parse` turns a `Fail` into a panic through `unwrap`.

The model follows the code, which differs from the grammar table's informal
reading at the end of the input:

- A remaining input of exactly "10" or "11" reads as a variable: "10" is
  `Var(1)` and "11" is `Var(2)`. This happens before any terminator is looked
  for. The other two-byte inputs "00" and "01" give `None`, because their
  body is empty.
- One remaining byte panics, whatever it is, because the dispatch slices two
  bytes.
- A run of three or more '1's with nothing after it panics, because the
  terminator slice starts past the end.
- The byte after a run of '1's is skipped without being inspected. With two or
  more '1's, any byte other than '1' ends the token, just as '0' does.
- `parse` does not reject a leftover remainder; it drops it.

The main results:

- Soundness and completeness on '0'/'1' input. `ParseTerm(input) == Ok(t, rest)`
  holds exactly when `t` is well formed and `input` is the serialisation of `t`
  followed by `rest`. The one exception is the end rule: the input may instead
  be the serialisation of a term whose last token is "110", with its final '0'
  missing and nothing left over.
- A round trip for every well-formed term and every remainder.
- Whitespace invariance of `parse`.

## Model

| member | source | states |
|---|---|---|
| Blc.Ones | src/lib.rs:15 | the `1^i` part of a variable token: exactly `n` bytes, each of them '1' |
| Blc.SerializeBinary | src/lib.rs:11-15 | the serialisation given by the grammar table uses only '0'/'1' and ends with '0' |
| Parser.LeadingOnes | src/parser.rs:29 | the count of leading '1's: at most the length; every byte before it is '1'; the byte at it, if any, is not '1' |
| Parser.ParseTerm | src/parser.rs:6-38 | a successful read leaves a proper suffix of the input (strictly shorter, the shrinking the second recursive call relies on) and yields a term whose indices are all at least 1 |
| Parser.ParseAbs | src/parser.rs:10-16 | the `00` arm: on success the remainder is a proper suffix of what follows the pair, and the term is a well-formed abstraction |
| Parser.ParseApp | src/parser.rs:17-27 | the `01` arm: on success the remainder is a proper suffix of what follows the pair, and the term is a well-formed application |
| Parser.ParseVar | src/parser.rs:28-35 | the `10`/`11` arm: on success the remainder is a proper suffix and the term is a variable with index at least 1 |
| Parser.Unspaced | src/parser.rs:42 | the filter keeps no whitespace byte and never lengthens the input |
| Parser.Parse | src/parser.rs:41-45 | a returned term is well formed; on '0'/'1' input after filtering, the filtered input spells the returned term followed by some remainder |
| Parser.FailsOnEmptyOrUnknownPrefix | src/parser.rs:7 | empty input, or a first pair that is not two of '0'/'1', gives `None` (the `_` arm at line 36) |
| Parser.PanicsOnSingleByte | src/parser.rs:9 | a remaining input of one byte panics at the two-byte slice |
| Parser.OnesRun | src/parser.rs:28-34 | a remaining input of `n` '1's reads as `Var(2)` with nothing left when `n` is 2, panics at the two-byte slice of line 9 when `n` is 1, and panics at the slice of line 33 when `n` is at least 3 |
| Parser.VarAtEnd | src/parser.rs:30-31 | the end-of-input rule: "10" reads as `Var(1)` and "11" as `Var(2)`, both with an empty remainder |
| Parser.VarTerminated | src/parser.rs:28-34 | `n` '1's, one terminator byte and `rest`, more than two bytes in all, read as `Var(n)` and leave exactly `rest`; the terminator must be '0' only when `n` is 1 |
| Parser.VarNeedsBinaryPair | src/parser.rs:28 | a single '1' followed by a byte other than '0'/'1' is not a variable token and gives `None` |
| Parser.VarIsRunLength | src/parser.rs:29 | a variable's index is exactly the number of leading '1' bytes of the remaining input (the full `take_while` count), and at least 1 |
| Parser.AbsLaw | src/parser.rs:10-15 | "00"+s succeeds exactly when s does, with `Abs` of s's term and s's remainder; it fails exactly when s fails and panics exactly when s panics |
| Parser.AppLaw | src/parser.rs:17-26 | "01"+s succeeds exactly when s and then s's remainder both succeed; the term is `App` of the two terms and the remainder is the second one's; it panics exactly when either read panics |
| Parser.RoundTrip | src/parser.rs:6-37 | for every well-formed term and any remainder, reading the term's serialisation (src/lib.rs:11-15) followed by the remainder gives back the term and exactly that remainder |
| Parser.ParseTermSound | src/parser.rs:6-37 | every successful read of '0'/'1' input is a serialisation followed by the remainder, or the end-rule truncation of a term ending in "110" |
| Parser.EndRule | src/parser.rs:30-31 | a term whose last token is "110" is read from its serialisation without the final '0', with nothing left |
| Parser.ParseTermExact | src/parser.rs:6-37 | on '0'/'1' input, `_parse` returns `(t, rest)` if and only if `t` is well formed and the input spells `t` followed by `rest` |
| Parser.EndRuleNotExtensible | src/parser.rs:30-33 | "11" reads as a term, but "111" panics, so the end rule is not a prefix property |
| Parser.UnspacedAppend | src/parser.rs:42 | the whitespace filter distributes over concatenation, keeping order |
| Parser.UnspacedWhitespace | src/parser.rs:42 | a run of bytes 9/10/13/32 is deleted entirely |
| Parser.UnspacedKeeps | src/parser.rs:42 | bytes other than whitespace are kept unchanged |
| Parser.WhitespaceInvariant | src/parser.rs:41-45 | inserting whitespace bytes anywhere does not change what `parse` returns or whether it panics |
| Parser.ParseIgnoresTrailing | src/parser.rs:44 | `parse` of a serialised well-formed term returns that term whatever follows it: the remainder is dropped, not rejected |
| Parser.ParseUnwraps | src/parser.rs:44 | `parse` returns exactly when `_parse` of the filtered input succeeds; a `None` becomes a panic |
| ParserExamples.Variables | src/parser.rs:52-56 | "10", "110", "1110" parse to `Var(1)`, `Var(2)`, `Var(3)` |
| ParserExamples.AbstractionTab | src/parser.rs:60 | "00\t10" parses to λ1 |
| ParserExamples.AbstractionNewlines | src/parser.rs:61 | "00\n00\r\n10" parses to λλ1 |
| ParserExamples.AbstractionSpaces | src/parser.rs:62 | "00 00\t00\n10" parses to λλλ1 |
| ParserExamples.Applications | src/parser.rs:66-70 | "011010", "0110110", "0111010" parse to `1 1`, `1 2`, `2 1` |
| ParserExamples.Combinators | src/parser.rs:74-75 | k = "0000110" parses to λλ2, and the sixteen-byte string parses to `Var(15)` |
| ParserExamples.CombinatorS | src/parser.rs:76 | the s combinator string parses to λλλ31(21) |
| ParserExamples.Successor | src/parser.rs:77 | the successor string parses to λλλ2(321) |
| ParserExamples.Truncations | src/parser.rs:9 | "0", "1" (one byte) and "111" (the slice at line 33) panic |
| ParserExamples.TruncatedAbstraction | src/parser.rs:9-12 | "001" panics: the body's read hits the two-byte slice on one byte |
| ParserExamples.TruncatedApplication | src/parser.rs:17-19 | "01100" panics: the argument's read hits the two-byte slice on one byte |
| ParserExamples.Unknown | src/parser.rs:7 | "" and "0a" give `None` (line 7 and the `_` arm at line 36) |

## Left out

- `src/execution.rs` `run` is not modelled. It calls decoding, encoding and
  beta reduction in the external `lambda_calculus` crate and in modules that are
  not part of this model, and reduction need not terminate.
- The `Display` rendering of terms (the strings "λλ2", "λλλ31(21)", ...)
  belongs to the external crate. The rendering tests are restated as term
  values.
- The quine, primes and blc strings of the rendering test are not stated as
  concrete lemmas. Each is an instance of `Parser.RoundTrip`, and they are too
  long for the verifier to evaluate literally.
- The `lambda_encoding` and `binary_encoding` modules, including the
  Church-bit table in `src/lib.rs`, are not part of this model.
- `usize` is modelled as an unbounded `nat`. The count of leading '1's cannot
  overflow for a slice that fits in memory.
- A panic is a single outcome. Its message and the slice bounds that caused it
  are not modelled.
