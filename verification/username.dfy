/** `Username`: a user handle of ASCII letters, digits and underscores whose
    first character is a letter or digit. The parse follows the combinator
    chain of the source (one leading filter, a greedy repeated filter, an
    end-of-input anchor, then collect) and is proved to accept exactly the
    language `[a-zA-Z0-9][a-zA-Z0-9_]*`. The test-data side contributes the
    `.`-to-`_` repair of generated handles and the complement pattern that
    negative generation draws from. */
module Username {
  import opened Wrappers
  import Errors

  datatype Username = Username(value: string)

  /** `char::is_ascii_alphanumeric`. */
  predicate IsAsciiAlphanumeric(c: char)
  {
    ('a' <= c <= 'z') || ('A' <= c <= 'Z') || ('0' <= c <= '9')
  }

  /** The character class `[a-zA-Z0-9_]` allowed after the first position. */
  predicate IsHandleChar(c: char)
  {
    IsAsciiAlphanumeric(c) || c == '_'
  }

  /** The accepted language, stated declaratively:
      `[a-zA-Z0-9][a-zA-Z0-9_]*` matched against the whole string. */
  predicate Valid(s: string)
  {
    && |s| >= 1
    && IsAsciiAlphanumeric(s[0])
    && forall i :: 1 <= i < |s| ==> IsHandleChar(s[i])
  }

  // ---------------------------------------------------------------------
  // Parsing
  // ---------------------------------------------------------------------

  /** `filter(IsHandleChar).repeated()`: consumes handle characters greedily
      and yields them; it stops at the first character outside the class. */
  function RepeatedHandleChars(s: string): (r: string)
    ensures r <= s
    ensures forall i :: 0 <= i < |r| ==> IsHandleChar(r[i])
    ensures |r| < |s| ==> !IsHandleChar(s[|r|])
    decreases |s|
  {
    if |s| > 0 && IsHandleChar(s[0]) then [s[0]] + RepeatedHandleChars(s[1..])
    else []
  }

  /** The rejection every failing parse returns: the kind and the whole input. */
  function Failure(s: string): Errors.Error
  {
    Errors.FailedParsing(Errors.Kind.Username, s)
  }

  /** `Username::from_str`. The leading filter needs one alphanumeric
      character; the repeated filter takes what follows; `end()` fails when
      it stopped before the end of the input; the collected characters
      become the wrapped string. Any failure maps to `FailedParsing`
      carrying the original input. */
  function FromStr(s: string): (r: Result<Username, Errors.Error>)
    ensures r.Ok? <==> Valid(s)
    ensures r.Ok? ==> r.value.value == s
    ensures r.Err? ==> r.error == Failure(s)
  {
    if |s| == 0 || !IsAsciiAlphanumeric(s[0]) then Err(Failure(s))
    else
      var tail := RepeatedHandleChars(s[1..]);
      if 1 + |tail| < |s| then Err(Failure(s))
      else
        assert [s[0]] + tail == s;
        Ok(Username([s[0]] + tail))
  }

  /** `Display`: writes the wrapped buffer. */
  function Display(u: Username): string
  {
    u.value
  }

  // ---------------------------------------------------------------------
  // Properties of the parse
  // ---------------------------------------------------------------------

  /** The empty string is rejected: the leading filter needs a character. */
  lemma EmptyRejected()
    ensures FromStr("") == Err(Failure(""))
  {
  }

  /** No prefix acceptance: a valid handle followed by any character outside
      `[a-zA-Z0-9_]`, and then anything at all, is rejected with the whole
      input as payload. */
  lemma NoPrefixAcceptance(p: string, c: char, rest: string)
    requires Valid(p)
    requires !IsHandleChar(c)
    ensures FromStr(p + [c] + rest) == Err(Failure(p + [c] + rest))
  {
    var s := p + [c] + rest;
    assert s[|p|] == c;
    assert 1 <= |p| < |s|;
  }

  /** Every string of `[a-zA-Z0-9][a-zA-Z0-9_]*` parses to a value holding
      exactly that string. */
  lemma ValidParses(s: string)
    requires Valid(s)
    ensures FromStr(s) == Ok(Username(s))
  {
  }

  /** Parsing the displayed form of a parsed value gives the same value. */
  lemma DisplayRoundTrip(s: string)
    requires FromStr(s).Ok?
    ensures FromStr(Display(FromStr(s).value)) == FromStr(s)
  {
  }

  /** Parsing never changes the text: a successful parse displays as its
      input, with no trimming and no case change. */
  lemma ParseIsVerbatim(s: string)
    requires FromStr(s).Ok?
    ensures Display(FromStr(s).value) == s
  {
  }

  /** Boundary cases of the grammar. */
  lemma Examples()
    ensures FromStr("a") == Ok(Username("a"))
    ensures FromStr("a_") == Ok(Username("a_"))
    ensures FromStr("Ab1_2") == Ok(Username("Ab1_2"))
    ensures FromStr("_a") == Err(Failure("_a"))
    ensures FromStr(".bad") == Err(Failure(".bad"))
  {
  }

  // ---------------------------------------------------------------------
  // Test-data generation: the repair of generated handles
  // ---------------------------------------------------------------------

  /** `str::replace` of one character by a one-character string. */
  function ReplaceChar(s: string, from: char, to: char): (r: string)
    ensures |r| == |s|
    ensures forall i :: 0 <= i < |s| ==> r[i] == (if s[i] == from then to else s[i])
    decreases |s|
  {
    if |s| == 0 then []
    else [if s[0] == from then to else s[0]] + ReplaceChar(s[1..], from, to)
  }

  /** The repair applied to a generated handle: `replace('.', "_")`. */
  function Repair(s: string): (r: string)
    ensures |r| == |s|
    ensures '.' !in r
    ensures forall i :: 0 <= i < |s| && s[i] == '.' ==> r[i] == '_'
    ensures forall i :: 0 <= i < |s| && s[i] != '.' ==> r[i] == s[i]
  {
    var r := ReplaceChar(s, '.', '_');
    assert forall i :: 0 <= i < |r| ==> r[i] != '.';
    r
  }

  /** Repairing twice is repairing once. */
  lemma RepairIdempotent(s: string)
    ensures Repair(Repair(s)) == Repair(s)
  {
  }

  /** Valid handles contain no `.`, so the repair leaves them as they are. */
  lemma RepairKeepsValid(s: string)
    requires Valid(s)
    ensures Repair(s) == s
  {
  }

  /** The shape a generated handle must have for the repair to make it
      valid: a leading letter or digit, then letters, digits, `_` and `.`. */
  predicate RepairableHandle(s: string)
  {
    && |s| >= 1
    && IsAsciiAlphanumeric(s[0])
    && forall i :: 1 <= i < |s| ==> IsHandleChar(s[i]) || s[i] == '.'
  }

  /** The positive generator: wraps the repaired fake handle directly,
      without calling the parse. The fake source itself is a parameter. */
  function Arbitrary(fake: string): Username
  {
    Username(Repair(fake))
  }

  /** A repairable fake handle yields a value that displays and re-parses to
      itself, so the generator upholds the parse's invariant. */
  lemma ArbitraryRoundTrip(fake: string)
    requires RepairableHandle(fake)
    ensures Valid(Arbitrary(fake).value)
    ensures FromStr(Display(Arbitrary(fake))) == Ok(Arbitrary(fake))
  {
  }

  /** The repair yields a valid handle exactly when the fake handle already
      has the shape `[a-zA-Z0-9][a-zA-Z0-9_.]*`: both directions. */
  lemma RepairValidIff(fake: string)
    ensures Valid(Repair(fake)) <==> RepairableHandle(fake)
  {
  }

  /** The repair only removes dots, so a fake handle of any other shape gives
      a generated value that the parse rejects, with the repaired text as
      payload. */
  lemma RepairIsNotValidation(fake: string)
    requires !RepairableHandle(fake)
    ensures FromStr(Display(Arbitrary(fake))) == Err(Failure(Repair(fake)))
  {
    RepairValidIff(fake);
  }

  /** One such handle: the apostrophe survives the repair unchanged. */
  lemma RepairIsNotValidationExample()
    ensures Repair("o'hara") == "o'hara"
    ensures FromStr(Display(Arbitrary("o'hara"))).Err?
  {
  }

  // ---------------------------------------------------------------------
  // Test-data generation: the complement pattern
  // ---------------------------------------------------------------------

  /** `.*` of the pattern syntax: any run of characters other than a line
      feed (`.` does not match `\n` without the `s` flag). */
  predicate AnyLine(t: string)
  {
    forall j :: 0 <= j < |t| ==> t[j] != '\n'
  }

  /** First alternative, `[^a-zA-Z0-9].*`. */
  predicate LeadingBad(s: string)
  {
    |s| >= 1 && !IsAsciiAlphanumeric(s[0]) && AnyLine(s[1..])
  }

  /** Second alternative, `.*[^a-zA-Z0-9_].*`, with the class character at
      position `i`. */
  predicate BadAt(s: string, i: int)
  {
    0 <= i < |s| && !IsHandleChar(s[i]) && AnyLine(s[..i]) && AnyLine(s[i + 1..])
  }

  /** The complement pattern `[^a-zA-Z0-9].*|.*[^a-zA-Z0-9_].*` matched
      against the whole string. */
  predicate InComplement(s: string)
  {
    LeadingBad(s) || exists i :: 0 <= i < |s| && BadAt(s, i)
  }

  /** Every string the complement pattern produces is rejected, with exactly
      `FailedParsing(Username, s)`. */
  lemma ComplementRejected(s: string)
    requires InComplement(s)
    ensures FromStr(s) == Err(Failure(s))
  {
  }

  /** On single-line input the complement pattern is exactly the negation of
      the grammar, less the empty string that no pattern alternative can
      produce: both directions. */
  lemma ComplementExactOnOneLine(s: string)
    requires AnyLine(s)
    ensures InComplement(s) <==> (|s| >= 1 && !Valid(s))
  {
    if |s| >= 1 && !Valid(s) {
      if !IsAsciiAlphanumeric(s[0]) {
        assert LeadingBad(s);
      } else {
        var i :| 1 <= i < |s| && !IsHandleChar(s[i]);
        assert BadAt(s, i);
      }
    }
    if InComplement(s) {
      ComplementRejected(s);
    }
  }

  /** The complement pattern does not reach every rejected string: the empty
      string and a string of two line feeds are rejected by the parse but
      matched by neither alternative, since `.` excludes `\n`. */
  lemma ComplementMissesSomeRejected()
    ensures FromStr("").Err? && !InComplement("")
    ensures FromStr("\n\n").Err? && !InComplement("\n\n")
  {
  }
}
