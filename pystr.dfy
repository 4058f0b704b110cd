/** Python's string whitespace and `str.strip`. */
module PyStr {

  /** Python's whitespace: the characters that `str.isspace` accepts and that
      the `\s` class of a `str` regular expression matches. */
  predicate IsSpace(c: char) {
    || ('\t' <= c <= '\r')
    || ('\U{1c}' <= c <= ' ')
    || c == '\U{85}' || c == '\U{a0}' || c == '\U{1680}'
    || ('\U{2000}' <= c <= '\U{200a}')
    || c == '\U{2028}' || c == '\U{2029}' || c == '\U{202f}' || c == '\U{205f}' || c == '\U{3000}'
  }

  /** What a call of `strip` removes: whitespace (`strip()`) or one given
      character (`strip(c)`). */
  datatype Strippable = Whitespace | Char(c: char)

  predicate Drops(m: Strippable, c: char) {
    match m
    case Whitespace => IsSpace(c)
    case Char(d) => c == d
  }

  /** Length of the leading run of characters that `m` drops. */
  function LeadingRun(s: string, m: Strippable): (n: nat)
    ensures n <= |s|
    ensures forall k :: 0 <= k < n ==> Drops(m, s[k])
    ensures n == |s| || !Drops(m, s[n])
  {
    if s != [] && Drops(m, s[0]) then 1 + LeadingRun(s[1..], m) else 0
  }

  /** Start of the trailing run of characters that `m` drops, not looking
      below index `lo`. */
  function TrailingRunStart(s: string, m: Strippable, lo: nat): (j: nat)
    requires lo <= |s|
    ensures lo <= j <= |s|
    ensures forall k :: j <= k < |s| ==> Drops(m, s[k])
    ensures j == lo || !Drops(m, s[j - 1])
    decreases |s|
  {
    if |s| > lo && Drops(m, s[|s| - 1]) then TrailingRunStart(s[..|s| - 1], m, lo) else |s|
  }

  /** `s.strip()` or `s.strip(c)`: removes the leading and the trailing run of
      dropped characters, each end on its own, so that what is left neither
      begins nor ends with a dropped character. */
  function Strip(s: string, m: Strippable): (r: string)
    ensures |r| <= |s|
    ensures r != [] ==> !Drops(m, r[0]) && !Drops(m, r[|r| - 1])
  {
    var i := LeadingRun(s, m);
    var j := TrailingRunStart(s, m, i);
    s[i..j]
  }

  /** What `Strip` removes is dropped characters only: the result is one
      contiguous slice of `s` with only dropped characters around it. */
  lemma StripIsSlice(s: string, m: Strippable)
    ensures exists i, j :: (0 <= i <= j <= |s| && Strip(s, m) == s[i..j]
                            && (forall k :: 0 <= k < i ==> Drops(m, s[k]))
                            && (forall k :: j <= k < |s| ==> Drops(m, s[k])))
  {
    var i := LeadingRun(s, m);
    var j := TrailingRunStart(s, m, i);
    assert Strip(s, m) == s[i..j];
  }

  /** `Strip` is the only such slice: whenever `s[i..j]` has only dropped
      characters outside it and no dropped character at either of its ends,
      it is what `Strip` returns. */
  lemma StripIsUnique(s: string, m: Strippable, i: nat, j: nat)
    requires i <= j <= |s|
    requires forall k :: 0 <= k < i ==> Drops(m, s[k])
    requires forall k :: j <= k < |s| ==> Drops(m, s[k])
    requires i < j ==> !Drops(m, s[i]) && !Drops(m, s[j - 1])
    ensures Strip(s, m) == s[i..j]
  {
    var i' := LeadingRun(s, m);
    if i < j {
      assert i' == i;
      var j' := TrailingRunStart(s, m, i');
      assert j' == j;
    } else {
      assert i' == |s|;
    }
  }
}
