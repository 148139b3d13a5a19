/** The string helpers of `common/common.h` and `common/common.cpp` that the
    message parser is built from. A string is a sequence of bytes, each written
    as a `char` below 256. */
module Strings {
  import opened Chars
  import opened Wrappers

  predicate AllSpace(s: string) {
    forall i :: 0 <= i < |s| ==> IsSpace(s[i])
  }

  predicate Contains(s: string, pat: string) {
    exists i :: 0 <= i <= |s| && OccursAt(s, pat, i)
  }

  /** `std::string::find`: the first occurrence at or after `from`. */
  function Find(s: string, pat: string, from: nat): (r: Option<nat>)
    ensures r.Some? ==> from <= r.value && r.value + |pat| <= |s|
    decreases |s| - from
  {
    if from + |pat| > |s| then None
    else if s[from..from + |pat|] == pat then Some(from)
    else Find(s, pat, from + 1)
  }

  lemma {:induction false} FindSpec(s: string, pat: string, from: nat)
    ensures var r := Find(s, pat, from);
            && (r.Some? ==> OccursAt(s, pat, r.value))
            && (r.Some? ==> forall j :: from <= j < r.value ==> !OccursAt(s, pat, j))
            && (r.None? ==> forall j :: from <= j ==> !OccursAt(s, pat, j))
    decreases |s| - from
  {
    if from + |pat| <= |s| && s[from..from + |pat|] != pat {
      FindSpec(s, pat, from + 1);
    }
  }

  /** The answer of `Find` is the only index with its defining property. */
  lemma FindIs(s: string, pat: string, from: nat, i: nat)
    requires from <= i && OccursAt(s, pat, i)
    requires forall j :: from <= j < i ==> !OccursAt(s, pat, j)
    ensures Find(s, pat, from) == Some(i)
  {
    FindSpec(s, pat, from);
    var r := Find(s, pat, from);
    assert r.Some?;
    assert !(r.value < i);
  }

  // ---------------------------------------------------------------- string_strip

  /** First index at or after `i` that is not whitespace. */
  function SkipSpaces(s: string, i: nat): (r: nat)
    requires i <= |s|
    ensures i <= r <= |s|
    decreases |s| - i
  {
    if i < |s| && IsSpace(s[i]) then SkipSpaces(s, i + 1) else i
  }

  lemma {:induction false} SkipSpacesSpec(s: string, i: nat)
    requires i <= |s|
    ensures var r := SkipSpaces(s, i);
            && (forall k :: i <= k < r ==> IsSpace(s[k]))
            && (r < |s| ==> !IsSpace(s[r]))
    decreases |s| - i
  {
    if i < |s| && IsSpace(s[i]) { SkipSpacesSpec(s, i + 1); }
  }

  lemma SkipAtEnd(s: string)
    ensures SkipSpaces(s, |s|) == |s|
  {
  }

  lemma SkipSpacesIs(s: string, i: nat, r: nat)
    requires i <= r <= |s|
    requires forall k :: i <= k < r ==> IsSpace(s[k])
    requires r < |s| ==> !IsSpace(s[r])
    ensures SkipSpaces(s, i) == r
  {
    SkipSpacesSpec(s, i);
    var q := SkipSpaces(s, i);
    assert !(q < r);
    assert !(r < q);
  }

  /** A stripped string is the part between the outermost non-blank characters. */
  ghost predicate IsStripOf(r: string, s: string, lo: nat, hi: nat) {
    && lo <= hi <= |s| && r == s[lo..hi]
    && (forall k :: 0 <= k < lo ==> IsSpace(s[k]))
    && (forall k :: hi <= k < |s| ==> IsSpace(s[k]))
    && (lo < hi ==> !IsSpace(s[lo]) && !IsSpace(s[hi - 1]))
  }

  /** First index from which everything up to `hi` is whitespace, not below `lo`. */
  function TrailingFrom(s: string, lo: nat, hi: nat): (r: nat)
    requires lo <= hi <= |s|
    ensures lo <= r <= hi
    decreases hi
  {
    if lo < hi && IsSpace(s[hi - 1]) then TrailingFrom(s, lo, hi - 1) else hi
  }

  lemma {:induction false} TrailingFromSpec(s: string, lo: nat, hi: nat)
    requires lo <= hi <= |s|
    ensures var r := TrailingFrom(s, lo, hi);
            && (forall k :: r <= k < hi ==> IsSpace(s[k]))
            && (lo < r ==> !IsSpace(s[r - 1]))
    decreases hi
  {
    if lo < hi && IsSpace(s[hi - 1]) { TrailingFromSpec(s, lo, hi - 1); }
  }

  function Strip(s: string): (r: string)
  {
    var lo := SkipSpaces(s, 0);
    s[lo..TrailingFrom(s, lo, |s|)]
  }

  lemma StripIs(s: string, r: string, lo: nat, hi: nat)
    requires IsStripOf(r, s, lo, hi)
    ensures Strip(s) == r
  {
    if lo < hi {
      SkipSpacesIs(s, 0, lo);
      TrailingFromSpec(s, lo, |s|);
      var t := TrailingFrom(s, lo, |s|);
      assert !(t < hi);
      assert !(hi < t);
    } else {
      SkipSpacesIs(s, 0, |s|);
    }
  }

  lemma StripSpec(s: string) returns (lo: nat, hi: nat)
    ensures IsStripOf(Strip(s), s, lo, hi)
  {
    lo := SkipSpaces(s, 0);
    hi := TrailingFrom(s, lo, |s|);
    SkipSpacesSpec(s, 0);
    TrailingFromSpec(s, lo, |s|);
  }

  lemma StripOfBlank(s: string, from: nat)
    requires from <= |s| && SkipSpaces(s, from) == |s|
    ensures Strip(s[from..]) == ""
  {
    SkipSpacesSpec(s, from);
    StripIs(s[from..], "", 0, 0);
  }

  /** Stripping is monotone in the prefix order: what was already shown of a
      growing text is never taken back. */
  lemma StripMonotone(s: string, s': string)
    requires s <= s'
    ensures Strip(s) <= Strip(s')
  {
    hide SkipSpaces, TrailingFrom, IsSpace;
    var lo := SkipSpaces(s, 0);
    SkipSpacesSpec(s, 0);
    if lo < |s| {
      assert forall k :: 0 <= k < |s| ==> s[k] == s'[k];
      SkipSpacesIs(s', 0, lo);
      TrailingGrows(s, s', lo);
      var hi := TrailingFrom(s, lo, |s|);
      assert s[lo..hi] == s'[lo..hi];
    }
  }

  lemma TrailingGrows(s: string, s': string, lo: nat)
    requires s <= s' && lo < |s| && !IsSpace(s[lo])
    ensures TrailingFrom(s, lo, |s|) <= TrailingFrom(s', lo, |s'|)
  {
    hide TrailingFrom, IsSpace;
    TrailingFromSpec(s, lo, |s|);
    TrailingFromSpec(s', lo, |s'|);
    var hi := TrailingFrom(s, lo, |s|);
    assert hi > lo ==> s'[hi - 1] == s[hi - 1];
  }

  method StringStrip(str: string) returns (r: string)
    ensures r == Strip(str)
  {
    var start, end := 0, |str|;
    while start < end && IsSpace(str[start])
      invariant 0 <= start <= end
      invariant forall k :: 0 <= k < start ==> IsSpace(str[k])
    {
      start := start + 1;
    }
    while end > start && IsSpace(str[end - 1])
      invariant start <= end <= |str|
      invariant start < end ==> !IsSpace(str[start])
      invariant forall k :: end <= k < |str| ==> IsSpace(str[k])
    {
      end := end - 1;
    }
    r := str[start..end];
    assert IsStripOf(r, str, start, end);
    StripIs(str, r, start, end);
  }

  // ------------------------------------------------------ string_find_partial_stop

  /** The least index `i >= from` such that `s[i..]` is a non-empty prefix of `stop`. */
  function PartialFrom(s: string, stop: string, from: nat): (r: Option<nat>)
    ensures r.Some? ==> from <= r.value < |s|
    decreases |s| - from
  {
    if from >= |s| then None
    else if s[from..] <= stop then Some(from)
    else PartialFrom(s, stop, from + 1)
  }

  lemma {:induction false} PartialFromSpec(s: string, stop: string, from: nat)
    ensures var r := PartialFrom(s, stop, from);
            && (r.Some? ==> s[r.value..] <= stop)
            && (r.Some? ==> forall j :: from <= j < r.value ==> !(s[j..] <= stop))
            && (r.None? ==> forall j :: from <= j < |s| ==> !(s[j..] <= stop))
    decreases |s| - from
  {
    if from < |s| && !(s[from..] <= stop) { PartialFromSpec(s, stop, from + 1); }
  }

  function PartialStop(s: string, stop: string): (r: Option<nat>)
    ensures r.Some? ==> r.value < |s|
  {
    PartialFrom(s, stop, 0)
  }

  /** Where the text that is certainly not part of `stop` ends. */
  function StopIndex(s: string, stop: string): (r: nat)
    ensures r <= |s|
  {
    match PartialStop(s, stop) case Some(i) => i case None => |s|
  }

  /** It is the least index whose rest is a prefix of `stop`. */
  lemma StopIndexSpec(s: string, stop: string)
    ensures var r := StopIndex(s, stop);
            && s[r..] <= stop
            && forall j :: 0 <= j < r ==> !(s[j..] <= stop)
  {
    PartialFromSpec(s, stop, 0);
  }

  method FindPartialStop(str: string, stop: string) returns (r: Option<nat>)
    ensures r == PartialStop(str, stop)
  {
    PartialFromSpec(str, stop, 0);
    if str != [] && stop != [] {
      var len := if |str| < |stop| then |str| else |stop|;
      while len > 0
        invariant 0 <= len <= |str| && len <= |stop|
        invariant forall j :: 0 <= j < |str| - len ==> !(str[j..] <= stop)
      {
        assert str[|str| - len..] <= stop <==> str[|str| - len..] == stop[..len];
        if stop[len - 1] == str[|str| - 1] && str[|str| - len..] == stop[..len] {
          return Some(|str| - len);
        }
        if stop[len - 1] != str[|str| - 1] {
          assert str[|str| - len..][len - 1] != stop[..len][len - 1];
        }
        len := len - 1;
      }
    }
    r := None;
  }

  lemma OccursInPrefix(s: string, u: string, pat: string, i: int)
    requires s <= u && 0 <= i && i + |pat| <= |s|
    ensures OccursAt(u, pat, i) <==> OccursAt(s, pat, i)
    ensures OccursAt(s, pat, i) ==> Contains(s, pat)
  {
    assert u[i..i + |pat|] == s[i..i + |pat|];
  }

  /** Nothing before the index can become the start of `stop`, whatever follows. */
  lemma PartialStopSafe(s: string, u: string, stop: string, i: int)
    requires s <= u && !Contains(s, stop)
    requires OccursAt(u, stop, i)
    ensures StopIndex(s, stop) <= i
  {
    StopIndexSpec(s, stop);
    if i + |stop| <= |s| {
      OccursInPrefix(s, u, stop, i);
    } else if i < |s| {
      assert s[i..] == u[i..i + |stop|][..|s| - i];
      assert s[i..] <= stop;
    }
  }

  /** ... and the index itself is attained by some continuation. */
  lemma PartialStopAttained(s: string, stop: string) returns (u: string)
    ensures s <= u && OccursAt(u, stop, StopIndex(s, stop))
  {
    var i := StopIndex(s, stop);
    StopIndexSpec(s, stop);
    u := s + stop[|s| - i..];
    assert u[i..i + |stop|] == s[i..] + stop[|s| - i..];
    assert s[i..] == stop[..|s| - i];
  }

  /** The index never moves back while the text grows without completing `stop`,
      and when `stop` does get completed its first occurrence is not before the index. */
  lemma StopIndexMonotone(s: string, u: string, stop: string)
    requires s <= u && !Contains(s, stop)
    ensures StopIndex(s, stop) <= StopIndex(u, stop)
    ensures Contains(u, stop) ==> Find(u, stop, 0).Some? && StopIndex(s, stop) <= Find(u, stop, 0).value
  {
    var v := PartialStopAttained(u, stop);
    PartialStopSafe(s, v, stop, StopIndex(u, stop));
    if Contains(u, stop) {
      FindSpec(u, stop, 0);
      PartialStopSafe(s, u, stop, Find(u, stop, 0).value);
    }
  }
}
