/** The one routine of Go's `strings` package that the header flattening calls. */
module Strings {

  /** True when the last character of s is one of the characters of cutset. */
  predicate EndsIn(s: string, cutset: string)
  {
    |s| > 0 && s[|s| - 1] in cutset
  }

  /** strings.TrimRight(s, cutset): removes the whole trailing run of characters
      that occur in cutset. The cutset is a set of characters, not a suffix. */
  function TrimRight(s: string, cutset: string): (r: string)
    ensures r <= s
    ensures !EndsIn(r, cutset)
    ensures forall i :: |r| <= i < |s| ==> s[i] in cutset
    decreases |s|
  {
    if EndsIn(s, cutset) then TrimRight(s[..|s| - 1], cutset) else s
  }

  /** The three properties in TrimRight's contract determine its result:
      any prefix of s that does not end in a cutset character and leaves only
      cutset characters behind is TrimRight(s, cutset). */
  lemma TrimRightUnique(s: string, cutset: string, t: string)
    requires t <= s
    requires !EndsIn(t, cutset)
    requires forall i :: |t| <= i < |s| ==> s[i] in cutset
    ensures t == TrimRight(s, cutset)
  {
  }

  /** Appending cutset characters does not change what TrimRight returns. */
  lemma TrimRightAbsorbs(s: string, tail: string, cutset: string)
    requires forall i :: 0 <= i < |tail| ==> tail[i] in cutset
    ensures TrimRight(s + tail, cutset) == TrimRight(s, cutset)
  {
    var r := TrimRight(s, cutset);
    forall i | |r| <= i < |s + tail|
      ensures (s + tail)[i] in cutset
    {
      if i >= |s| {
        assert (s + tail)[i] == tail[i - |s|];
      }
    }
    TrimRightUnique(s + tail, cutset, r);
  }
}
