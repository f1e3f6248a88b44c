/** The few Python `str` operations the bone-name converters rely on, with
    Python's own semantics: `endswith`, `startswith`, and `rstrip`/`lstrip`
    with an argument, which strip a SET of characters (every character of the
    argument string), not one suffix or prefix. */
module PyStr {

  predicate EndsWith(s: string, suffix: string) {
    |suffix| <= |s| && s[|s| - |suffix|..] == suffix
  }

  predicate StartsWith(s: string, prefix: string) {
    |prefix| <= |s| && s[..|prefix|] == prefix
  }

  /** `s.rstrip(chars)`: the longest prefix of `s` after which every
      character belongs to `chars`. */
  function RStrip(s: string, chars: string): (r: string)
    ensures |r| <= |s| && r == s[..|r|]
    ensures forall k :: |r| <= k < |s| ==> s[k] in chars
    ensures |r| > 0 ==> r[|r| - 1] !in chars
  {
    if |s| > 0 && s[|s| - 1] in chars then RStrip(s[..|s| - 1], chars) else s
  }

  /** `s.lstrip(chars)`: the longest suffix of `s` before which every
      character belongs to `chars`. */
  function LStrip(s: string, chars: string): (r: string)
    ensures |r| <= |s| && r == s[|s| - |r|..]
    ensures forall k :: 0 <= k < |s| - |r| ==> s[k] in chars
    ensures |r| > 0 ==> r[0] !in chars
  {
    if |s| > 0 && s[0] in chars then LStrip(s[1..], chars) else s
  }

  /** Stripping a tail made only of `chars` from a text whose last character
      is not in `chars` gives back exactly that text. */
  lemma RStripAppended(p: string, q: string, chars: string)
    requires |p| > 0 ==> p[|p| - 1] !in chars
    requires forall k :: 0 <= k < |q| ==> q[k] in chars
    ensures RStrip(p + q, chars) == p
  {
    var s, r := p + q, RStrip(p + q, chars);
    assert |p| > 0 ==> s[|p| - 1] !in chars;
    assert r == s[..|p|] == p;
  }

  /** Stripping a head made only of `chars` from a text whose first character
      is not in `chars` gives back exactly that text. */
  lemma LStripPrepended(q: string, p: string, chars: string)
    requires |p| > 0 ==> p[0] !in chars
    requires forall k :: 0 <= k < |q| ==> q[k] in chars
    ensures LStrip(q + p, chars) == p
  {
    var s, r := q + p, LStrip(q + p, chars);
    assert |p| > 0 ==> s[|q|] !in chars;
    assert r == s[|q|..] == p;
  }
}
