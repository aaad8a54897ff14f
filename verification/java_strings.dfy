/**
 * The java.lang.String operations the resolver relies on, written out over seq<char>:
 * `contains`, `replace(target, "")` and the last element of `split("/")`.
 */
module JavaStrings {
  import opened Wrappers

  /** t occurs in s at position i. */
  ghost predicate OccursAt(s: string, t: string, i: int) {
    0 <= i && i + |t| <= |s| && s[i..i + |t|] == t
  }

  /** `s.contains(t)`: t is a contiguous substring of s (the empty string is in every string). */
  function Contains(s: string, t: string): (b: bool)
    ensures b <==> exists i :: OccursAt(s, t, i)
    decreases |s|
  {
    if t <= s then
      assert OccursAt(s, t, 0);
      true
    else if s == [] then
      false
    else
      var b := Contains(s[1..], t);
      assert forall i :: OccursAt(s[1..], t, i) ==> OccursAt(s, t, i + 1);
      assert forall i :: OccursAt(s, t, i) && i > 0 ==> OccursAt(s[1..], t, i - 1);
      b
  }

  /**
   * `s.replace(pat, "")`: one left-to-right pass that drops every non-overlapping
   * occurrence of pat; text that the removals bring together is not scanned again.
   */
  function RemoveAll(s: string, pat: string): (r: string)
    requires pat != []
    ensures |r| <= |s|
    decreases |s|
  {
    if s == [] then []
    else if pat <= s then RemoveAll(s[|pat|..], pat)
    else [s[0]] + RemoveAll(s[1..], pat)
  }

  /** A string in which pat does not occur is left as it is. */
  lemma {:induction false} RemoveAllAbsent(s: string, pat: string)
    requires pat != []
    requires !Contains(s, pat)
    ensures RemoveAll(s, pat) == s
    decreases |s|
  {
    if s != [] {
      assert !OccursAt(s, pat, 0);
      assert !(pat <= s);
      assert forall i :: OccursAt(s[1..], pat, i) ==> OccursAt(s, pat, i + 1);
      RemoveAllAbsent(s[1..], pat);
      assert s == [s[0]] + s[1..];
    }
  }

  /** A leading occurrence is dropped and the scan continues after it. */
  lemma RemoveAllLeading(pat: string, rest: string)
    requires pat != []
    ensures RemoveAll(pat + rest, pat) == RemoveAll(rest, pat)
  {
    assert pat <= pat + rest;
    assert (pat + rest)[|pat|..] == rest;
  }

  /** Drops the '/' characters at the end of s. */
  function TrimTrailingSlashes(s: string): (r: string)
    ensures r <= s
    ensures r == [] || r[|r| - 1] != '/'
    ensures forall k :: |r| <= k < |s| ==> s[k] == '/'
    decreases |s|
  {
    if s != [] && s[|s| - 1] == '/' then TrimTrailingSlashes(s[..|s| - 1]) else s
  }

  /** The characters of s after its last '/' (all of s when it has none). */
  function AfterLastSlash(s: string): (r: string)
    ensures |r| <= |s| && r == s[|s| - |r|..]
    ensures '/' !in r
    ensures |r| == |s| || s[|s| - |r| - 1] == '/'
    decreases |s|
  {
    if s == [] || s[|s| - 1] == '/' then []
    else
      var init := s[..|s| - 1];
      var r := AfterLastSlash(init);
      assert init[|init| - |r|..] + [s[|s| - 1]] == s[|s| - |r| - 1..];
      r + [s[|s| - 1]]
  }

  /** s consists of '/' characters only (and at least one of them). */
  ghost predicate AllSlashes(s: string) {
    s != [] && forall k :: 0 <= k < |s| ==> s[k] == '/'
  }

  /**
   * The last element of Java's `s.split("/")`, or None when that array is empty.
   * `split` drops trailing empty strings, so a string of slashes only yields no element
   * at all, while the empty string yields the single element "".
   */
  function LastSplitSegment(s: string): (r: Option<string>)
    ensures r.None? <==> AllSlashes(s)
    ensures r.Some? ==>
      var seg := r.value;
      exists k :: OccursAt(s, seg, k)
        && (k == 0 || s[k - 1] == '/')
        && (forall m :: k + |seg| <= m < |s| ==> s[m] == '/')
    ensures r.Some? ==> '/' !in r.value && (r.value == [] <==> s == [])
  {
    if '/' !in s then
      assert OccursAt(s, s, 0);
      assert s != [] ==> s[0] != '/';
      Some(s)
    else
      var t := TrimTrailingSlashes(s);
      if t == [] then
        None
      else
        var seg := AfterLastSlash(t);
        assert OccursAt(s, seg, |t| - |seg|);
        Some(seg)
  }

  /** Splitting dir + name, with dir ending in '/' and name a plain file name, ends with name. */
  lemma LastSegmentOfJoin(dir: string, name: string)
    requires dir != [] && dir[|dir| - 1] == '/'
    requires name != [] && '/' !in name
    ensures LastSplitSegment(dir + name) == Some(name)
  {
    var s := dir + name;
    assert s[|s| - 1] == name[|name| - 1];
    assert !AllSlashes(s);
    var seg := LastSplitSegment(s).value;
    var k :| OccursAt(s, seg, k) && (k == 0 || s[k - 1] == '/')
      && (forall m :: k + |seg| <= m < |s| ==> s[m] == '/');
    assert k + |seg| == |s|;
    assert seg == s[|dir|..] == name;
  }
}
