# wk-types validated strings, in Dafny

A model of two of the crate's validated string types and of the test-data
logic around them.

- `Username` (`src/internet/username.rs`) wraps a user handle. Its `FromStr`
  is a parser-combinator chain: one ASCII letter or digit, then a greedy run
  of ASCII letters, digits and `_`, then an end-of-input anchor. The collected
  characters become the value. Any failure becomes
  `Error::FailedParsing(Kind::Username, input)`. The model writes this chain
  as `Username.FromStr` over a greedy scanner, `Username.RepeatedHandleChars`.
  It proves that the parse accepts exactly the declarative language
  `Username.Valid`, i.e. `[a-zA-Z0-9][a-zA-Z0-9_]*`. It also proves that a
  parsed value holds the input verbatim and that every failure carries the
  original input.
- The test-data side of `Username` has two pieces of logic. The positive
  generator rewrites `.` to `_` in a fake handle (`Username.Repair`). The
  negative generator draws from the complement pattern
  `[^a-zA-Z0-9].*|.*[^a-zA-Z0-9_].*` (`Username.InComplement`). Both are
  modelled as pure functions; the random sources are parameters or left out.
- `Text` (`src/text.rs`) wraps any string. Its parse is total and keeps the
  input unchanged. Its `size_hint` adds three `(lower, Option<upper>)` bounds
  through `zip` and `map` (`Text.SizeHint`).

Files: `wrappers.dfy` (`Option`, `Result`, `zip`, `map`), `errors.dfy`
(`Kind`, `Error`), `username.dfy`, `text.dfy`.

Two properties of the test-data logic:
- The complement pattern allows its bad character at ANY position, the first
  included. Its `.` does not match a line feed, as in the default pattern
  syntax. So the pattern equals "non-empty and not valid" only on single-line
  strings (`Username.ComplementExactOnOneLine`). Some rejected strings lie
  outside it, such as `""` and `"\n\n"` (`Username.ComplementMissesSomeRejected`).
- The generator's repair rewrites only `.`. It is not a general repair. It
  makes a fake handle valid exactly when that handle already has the shape
  `[a-zA-Z0-9][a-zA-Z0-9_.]*` (`Username.RepairValidIff`,
  `Username.ArbitraryRoundTrip`). Any other disallowed character survives it,
  and the generated value is then rejected (`Username.RepairIsNotValidation`).

## Model

| member | source | states |
|---|---|---|
| Username.RepeatedHandleChars | src/internet/username.rs:28 | the repeated filter consumes a prefix of the input made only of `[a-zA-Z0-9_]` characters, and stops only at the end or at a character outside that class |
| Username.FromStr | src/internet/username.rs:22-36 | the parse succeeds exactly when the input is non-empty, starts with an ASCII letter or digit and continues with letters, digits or `_`; on success the value holds the input verbatim; on failure the error is `FailedParsing(Username, input)` |
| Username.EmptyRejected | src/internet/username.rs:25-33 | the empty string is rejected, with the empty string as payload |
| Username.NoPrefixAcceptance | src/internet/username.rs:28-33 | because of the end anchor, a valid handle followed by any character outside `[a-zA-Z0-9_]` and any further text is rejected, with the whole input as payload |
| Username.ValidParses | src/internet/username.rs:96-98 | every string of `[a-zA-Z0-9][a-zA-Z0-9_]*` parses, to a value holding that string |
| Username.DisplayRoundTrip | src/internet/username.rs:39-43 | displaying a parsed value and parsing the output gives the same value back |
| Username.ParseIsVerbatim | src/internet/username.rs:25-35 | a successful parse displays as its input: no trimming, no case change |
| Username.Examples | src/internet/username.rs:22-36 | `a`, `a_` and `Ab1_2` parse to themselves; `_a` and `.bad` are rejected with themselves as payload |
| Username.ReplaceChar | src/internet/username.rs:68 | replacing one character by another keeps the length, puts the replacement at every position that held the old character, and changes no other position |
| Username.Repair | src/internet/username.rs:66-68 | the `.`-to-`_` repair keeps the length, turns every `.` into `_`, leaves no `.` and changes no character other than `.` |
| Username.RepairIdempotent | src/internet/username.rs:66-68 | repairing an already repaired handle changes nothing |
| Username.RepairKeepsValid | src/internet/username.rs:66-68 | the repair leaves every valid handle unchanged |
| Username.ArbitraryRoundTrip | src/internet/username.rs:60-71 | a fake handle of shape `[a-zA-Z0-9][a-zA-Z0-9_.]*`, once repaired and wrapped, is valid and re-parses to the same value after display |
| Username.RepairValidIff | src/internet/username.rs:66-68 | the repaired fake handle is valid exactly when the fake handle has the shape `[a-zA-Z0-9][a-zA-Z0-9_.]*`, in both directions |
| Username.RepairIsNotValidation | src/internet/username.rs:60-71 | for every fake handle not of that shape, the generated value is rejected by the parse, with the repaired text as payload |
| Username.RepairIsNotValidationExample | src/internet/username.rs:66-68 | the fake handle `o'hara` passes through the repair unchanged and the generated value is rejected |
| Username.ComplementRejected | src/internet/username.rs:110-115 | every string matched by the complement pattern (a bad first character, or a character outside `[a-zA-Z0-9_]` anywhere, on one line) is rejected with exactly `FailedParsing(Username, s)` |
| Username.ComplementExactOnOneLine | src/internet/username.rs:81 | on strings without a line feed, the complement pattern matches exactly the non-empty strings the grammar rejects, in both directions |
| Username.ComplementMissesSomeRejected | src/internet/username.rs:101-103 | the empty string and a string of two line feeds are rejected by the parse, yet the complement pattern matches neither |
| Text.FromStr | src/text.rs:19-21 | the parse never fails, for any input including the empty string, and the value holds the input verbatim |
| Text.DisplayRoundTrip | src/text.rs:79-81 | displaying any `Text` and parsing the output gives the same value back |
| Text.ParseRoundTrip | src/text.rs:24-28 | parsing any string and displaying the value gives the string back |
| Text.FromStrInjective | src/text.rs:19-21 | two inputs that parse to the same value are the same string: nothing is normalised |
| Wrappers.Zip | src/text.rs:64 | `Option::zip` gives a pair exactly when both sides are present, holding both values |
| Wrappers.MapOption | src/text.rs:64 | `Option::map` is present exactly when its input is, and then holds the function applied to the input's value |
| Text.SizeHint | src/text.rs:57-66 | the lower bound is the sum of the three lower bounds; the upper bound is present exactly when all three are, and is then their sum; the result stays within `usize` |
| Text.SizeHintDominates | src/text.rs:57-66 | the combined hint's lower bound is at least each part's, and its upper bound, when present, is at least each part's upper bound |

## Left out

- `Deref` and `DerefMut` on both types: they are borrowing pass-throughs. `DerefMut` lets a caller change a `Username` buffer without re-validation, so the validity invariant holds only for values that come from `FromStr` or from the generator. Mutation is not modelled.
- `Display` formatting: the model keeps only "writes the inner string" (`Username.Display`, `Text.Display`).
- The serde derives: they are attribute-driven library code.
- The chumsky combinators (`filter`, `chain`, `repeated`, `then_ignore(end())`, `collect`, `Cheap` errors): the model states the language they accept, following their structure, and not the library.
- The random sources: the fake username source, lipsum prose, `StdRng` seeding, the `arbitrary::Unstructured` byte source, and the pattern generators `from_regex` / `NegateArbitrary` of the `testing` module. That module is not part of this model. The fake handle is a parameter of `Username.Arbitrary`. The negative generator is modelled only through the pattern it draws from.
- `Text`'s `arbitrary` (lipsum text of a random `u8` length) and `Username`'s `size_hint` (a plain delegation to `String::size_hint`): there is no logic in them beyond the random sources above.
- `Text.SizeHint`: the component hints of `String`, `[u8; 32]` and `u8` come from the arbitrary crate and are parameters here. `usize` is taken to be 64 bits wide. A sum that would overflow is excluded by the precondition, since a debug build panics there. Release-build wrap-around is not modelled.
- `Errors.Kind`: only the `Username` tag is modelled; the crate's other kinds belong to types outside this model.
- The proptest harness and the test macros.
