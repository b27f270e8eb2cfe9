/**
 File-name extraction from a storage download URL: the JavaScript regular
 expression `public%2F(.*?)\?` applied with `String.prototype.match`. The
 match found is the leftmost one; at a given start the lazy group grows one
 character at a time until a `?` follows, and `.` matches any character but
 a line terminator, so the group is exactly the text up to the first `?`
 after the marker, provided no line terminator comes first.
 */
module FileName {
  import opened Wrappers

  const Marker: string := "public%2F"

  /** The characters that `.` does not match in a JavaScript regular expression. */
  predicate IsLineTerminator(c: char) {
    c == '\n' || c == '\r' || c == '\U{2028}' || c == '\U{2029}'
  }

  /** The lazy group may span s[from..to]: no `?` and no line terminator in it. */
  predicate IsGroupSpan(s: string, from: int, to: int)
    requires 0 <= from <= to <= |s|
  {
    forall k :: from <= k < to ==> s[k] != '?' && !IsLineTerminator(s[k])
  }

  /** The pattern matches at i, with its group s[i + |Marker|..j] and the `?` at j. */
  predicate MatchesAt(s: string, i: int, j: int) {
    && 0 <= i
    && i + |Marker| <= j < |s|
    && s[i..i + |Marker|] == Marker
    && s[j] == '?'
    && IsGroupSpan(s, i + |Marker|, j)
  }

  /** The match that `match` reports: no match starts further left. */
  ghost predicate IsLeftmostMatch(s: string, i: int, j: int) {
    MatchesAt(s, i, j) && forall i', j' :: 0 <= i' < i ==> !MatchesAt(s, i', j')
  }

  /** At one start, the lazy group can end at one `?` only. */
  lemma MatchEndUnique(s: string, i: int, j: int, j': int)
    requires MatchesAt(s, i, j) && MatchesAt(s, i, j')
    ensures j == j'
  {
  }

  /** Where the lazy group starting at k ends: the first `?` at or after k. */
  function GroupEnd(s: string, k: nat): (r: Option<nat>)
    requires k <= |s|
    ensures r.Some? ==> k <= r.value < |s| && s[r.value] == '?' && IsGroupSpan(s, k, r.value)
    ensures r.None? ==> forall j :: k <= j < |s| && s[j] == '?' ==> !IsGroupSpan(s, k, j)
    decreases |s| - k
  {
    if k == |s| then None
    else if s[k] == '?' then Some(k)
    else if IsLineTerminator(s[k]) then None
    else GroupEnd(s, k + 1)
  }

  /** The leftmost match starting at or after i, as the pair (start, position of `?`). */
  function MatchFrom(s: string, i: nat): (r: Option<(nat, nat)>)
    requires i <= |s|
    ensures r.Some? ==> i <= r.value.0 && MatchesAt(s, r.value.0, r.value.1)
    ensures r.Some? ==> forall i', j' :: i <= i' < r.value.0 ==> !MatchesAt(s, i', j')
    ensures r.None? ==> forall i', j' :: i <= i' ==> !MatchesAt(s, i', j')
    decreases |s| - i
  {
    if i + |Marker| > |s| then None
    else if s[i..i + |Marker|] == Marker && GroupEnd(s, i + |Marker|).Some? then
      Some((i, GroupEnd(s, i + |Marker|).value))
    else MatchFrom(s, i + 1)
  }

  /**
   The captured group of `s.match(/public%2F(.*?)\?/)`, or None when the
   pattern does not match.
   */
  function Extract(s: string): (r: Option<string>)
    ensures r.None? <==> forall i, j :: !MatchesAt(s, i, j)
    ensures r.Some? <==> exists i, j :: IsLeftmostMatch(s, i, j)
    ensures forall i, j :: IsLeftmostMatch(s, i, j) ==> r == Some(s[i + |Marker|..j])
  {
    match MatchFrom(s, 0)
    case None => None
    case Some((i, j)) =>
      assert IsLeftmostMatch(s, i, j);
      forall i', j' | IsLeftmostMatch(s, i', j')
        ensures i' == i && j' == j
      {
        MatchEndUnique(s, i, j, j');
      }
      Some(s[i + |Marker|..j])
  }

  /**
   A URL built as prefix, marker, name, `?`, rest yields that name, provided
   the prefix holds no `%` (so no earlier marker) and the name holds no `?`
   and no line terminator.
   */
  lemma ExtractComposed(prefix: string, name: string, rest: string)
    requires '%' !in prefix
    requires '?' !in name && forall c :: c in name ==> !IsLineTerminator(c)
    ensures Extract(prefix + Marker + name + "?" + rest) == Some(name)
  {
    var s := prefix + Marker + name + "?" + rest;
    var i, j := |prefix|, |prefix| + |Marker| + |name|;
    assert s[i..i + |Marker|] == Marker;
    assert s[i + |Marker|..j] == name;
    assert MatchesAt(s, i, j);
    forall i', j' | 0 <= i' < i
      ensures !MatchesAt(s, i', j')
    {
      // the `%` of a marker at i' would lie in the prefix or in "public"
      if i' + 6 < i {
        assert s[i' + 6] == prefix[i' + 6];
      } else {
        assert s[i' + 6] == Marker[i' + 6 - i];
      }
      assert s[i' + 6] != '%';
    }
    assert IsLeftmostMatch(s, i, j);
  }
}
