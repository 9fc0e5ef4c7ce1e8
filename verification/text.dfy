/** `Text`: a wrapper around any string, parsed by a total identity
    grammar, and the bound arithmetic of its test-data size hint. */
module Text {
  import opened Wrappers
  import Errors

  datatype Text = Text(value: string)

  /** `FromStr`: every input is accepted and kept verbatim. */
  function FromStr(s: string): (r: Result<Text, Errors.Error>)
    ensures r.Ok?
    ensures r.value.value == s
  {
    Ok(Text(s))
  }

  /** `Display`: writes the wrapped buffer. */
  function Display(t: Text): string
  {
    t.value
  }

  /** Displaying a `Text` and parsing the output gives the value back. */
  lemma DisplayRoundTrip(t: Text)
    ensures FromStr(Display(t)) == Ok(t)
  {
  }

  /** Parsing and then displaying gives the input back: the two are inverse. */
  lemma ParseRoundTrip(s: string)
    ensures FromStr(s).Ok? && Display(FromStr(s).value) == s
  {
  }

  /** Distinct inputs give distinct values: nothing is normalised away. */
  lemma FromStrInjective(s: string, s': string)
    requires FromStr(s) == FromStr(s')
    ensures s == s'
  {
  }

  /** `usize` on the 64-bit targets the crate is built for. */
  const UsizeLimit: nat := 0x1_0000_0000_0000_0000

  /** An `Arbitrary::size_hint`: a lower bound and an optional upper bound on
      the number of bytes consumed. */
  datatype Hint = Hint(lower: nat, upper: Option<nat>)

  predicate InUsize(h: Hint)
  {
    h.lower < UsizeLimit && (h.upper.Some? ==> h.upper.value < UsizeLimit)
  }

  /** The three sums of `size_hint` stay within `usize`; a debug build panics
      otherwise, so callers must keep to this. */
  predicate SumFits(s: Hint, v: Hint, u: Hint)
  {
    && InUsize(s) && InUsize(v) && InUsize(u)
    && s.lower + v.lower + u.lower < UsizeLimit
    && (s.upper.Some? && v.upper.Some? && u.upper.Some? ==>
          s.upper.value + v.upper.value + u.upper.value < UsizeLimit)
  }

  /** `Text::size_hint` from the hints of its three inputs: the `String`
      hint `s`, the 32-byte seed hint `v` and the `u8` length hint `u`.
      The lower bound adds up; the upper bound adds up only when every
      part has one, through `s.zip(v).zip(u).map(..)`. */
  function SizeHint(s: Hint, v: Hint, u: Hint): (r: Hint)
    requires SumFits(s, v, u)
    ensures InUsize(r)
    ensures r.lower == s.lower + v.lower + u.lower
    ensures r.upper.Some? <==> s.upper.Some? && v.upper.Some? && u.upper.Some?
    ensures r.upper.Some? ==> r.upper.value == s.upper.value + v.upper.value + u.upper.value
  {
    Hint(
      s.lower + v.lower + u.lower,
      MapOption(Zip(Zip(s.upper, v.upper), u.upper),
                (t: ((nat, nat), nat)) => t.0.0 + t.0.1 + t.1))
  }

  /** The combined hint is never tighter than any of its parts: its lower
      bound is at least each part's, and an upper bound, when present, is at
      least each part's upper bound. */
  lemma SizeHintDominates(s: Hint, v: Hint, u: Hint)
    requires SumFits(s, v, u)
    ensures var r := SizeHint(s, v, u);
      && s.lower <= r.lower && v.lower <= r.lower && u.lower <= r.lower
      && (r.upper.Some? ==>
            s.upper.value <= r.upper.value && v.upper.value <= r.upper.value
            && u.upper.value <= r.upper.value)
  {
  }
}
