/** Cutting a streamed text at a character boundary (`utf8_truncate_safe` in
    `common/chat-parser-xml-toolcall.cpp`), against the syntax of UTF-8 in section 4 of RFC 3629. */
module Utf8 {

  // ------------------------------------------------------------------ well-formed UTF-8

  predicate Between(c: char, lo: int, hi: int) {
    lo <= c as int <= hi
  }

  predicate Tail(c: char) {
    Between(c, 0x80, 0xBF)
  }

  /** The length of the character that `s` begins with; 0 when it begins with none. */
  function CharLen(s: string): (n: nat)
    ensures n <= |s| && n <= 4
  {
    if |s| >= 1 && s[0] as int < 0x80 then 1
    else if |s| >= 2 && Between(s[0], 0xC2, 0xDF) && Tail(s[1]) then 2
    else if |s| >= 3 && Between(s[0], 0xE0, 0xEF) && Second3(s[0], s[1]) && Tail(s[2]) then 3
    else if |s| >= 4 && Between(s[0], 0xF0, 0xF4) && Second4(s[0], s[1]) && Tail(s[2]) && Tail(s[3]) then 4
    else 0
  }

  predicate Second3(a: char, b: char) {
    if a as int == 0xE0 then Between(b, 0xA0, 0xBF)
    else if a as int == 0xED then Between(b, 0x80, 0x9F)
    else Tail(b)
  }

  predicate Second4(a: char, b: char) {
    if a as int == 0xF0 then Between(b, 0x90, 0xBF)
    else if a as int == 0xF4 then Between(b, 0x80, 0x8F)
    else Tail(b)
  }

  /** A sequence of whole characters. */
  predicate WellFormed(s: string) {
    s == "" || (CharLen(s) > 0 && WellFormed(s[CharLen(s)..]))
  }

  // ---------------------------------------------------------------------- the scan

  /** The number of bytes that a lead byte announces; 0 for a byte that no character begins with. */
  function Announced(c: char): nat {
    var b := c as int;
    if 0xC0 <= b < 0xE0 then 2 else if 0xE0 <= b < 0xF0 then 3 else if 0xF0 <= b < 0xF8 then 4 else 0
  }

  /** The answer for a scan that has passed `back` continuation bytes at the end of `s`. */
  function Truncated(s: string, back: nat): (n: nat)
    requires back <= 4
    ensures n <= |s|
    decreases 4 - back
  {
    if back == 4 || back >= |s| then |s| - (if |s| < 3 then |s| else 3)
    else
      var i := |s| - 1 - back;
      if s[i] as int < 0x80 then |s|
      else if s[i] as int >= 0xC0 then if Announced(s[i]) > 0 && |s| - i >= Announced(s[i]) then |s| else i
      else Truncated(s, back + 1)
  }

  function TruncateSafe(s: string): (n: nat)
    ensures n <= |s|
  {
    if s == "" then 0 else Truncated(s, 0)
  }

  method Utf8TruncateSafe(s: string) returns (n: nat)
    ensures n == TruncateSafe(s)
  {
    var len := |s|;
    if len == 0 { return 0; }
    var i := len;
    var back := 0;
    while back < 4 && i > 0
      invariant 0 <= back <= 4 && i == len - back
      invariant TruncateSafe(s) == Truncated(s, back)
    {
      i := i - 1;
      var c := s[i] as int;
      if c < 0x80 {
        return len;
      } else if c >= 0xC0 {
        var expected := 0;
        if c < 0xE0 { expected := 2; }
        else if c < 0xF0 { expected := 3; }
        else if c < 0xF8 { expected := 4; }
        else { return i; }
        return if len - i >= expected then len else i;
      }
      back := back + 1;
    }
    n := len - if len < 3 then len else 3;
  }

  // -------------------------------------------------------------------- the theorem

  lemma CharLenOfPrefix(s: string, m: nat)
    requires 0 < CharLen(s) <= m <= |s|
    ensures CharLen(s[..m]) == CharLen(s)
  {
  }

  lemma CharLenOfCut(s: string, m: nat)
    requires m <= |s| && m < CharLen(s)
    ensures CharLen(s[..m]) == 0
  {
  }

  /** Characters are read one way only. */
  lemma {:induction false} WellFormedRest(a: string, b: string)
    requires WellFormed(a) && WellFormed(a + b)
    ensures WellFormed(b)
    decreases |a|
  {
    if a == "" {
      assert a + b == b;
    } else {
      var n := CharLen(a);
      assert (a + b)[..|a|] == a;
      assert CharLen(a + b) == n;
      assert (a + b)[n..] == a[n..] + b;
      WellFormedRest(a[n..], b);
    }
  }

  lemma FrontThen(s: string, b: nat)
    requires CharLen(s) > 0 && CharLen(s) + b <= |s|
    requires WellFormed(s[CharLen(s)..][..b])
    ensures WellFormed(s[..CharLen(s) + b])
  {
    hide CharLen;
    var n := CharLen(s);
    var p := s[..n + b];
    assert CharLen(p) == n by { CharLenOfPrefix(s, n + b); }
    assert p[n..] == s[n..][..b];
  }

  /** Where the last whole character before byte `n` ends. */
  lemma {:induction false} LastBoundary(s: string, n: nat) returns (b: nat, prev: nat)
    requires WellFormed(s) && n <= |s|
    ensures prev <= b <= n && WellFormed(s[..b]) && WellFormed(s[b..])
    ensures b < n ==> CharLen(s[b..]) > n - b
    ensures b == 0 || (prev < b && CharLen(s[prev..]) == b - prev)
    decreases |s|
  {
    hide CharLen;
    var len := CharLen(s);
    if s == "" || n < len {
      b, prev := 0, 0;
      assert s[0..] == s && s[..0] == "";
    } else {
      var b', prev' := LastBoundary(s[len..], n - len);
      b := b' + len;
      assert s[len..][b'..] == s[b..];
      FrontThen(s, b');
      if b' == 0 {
        prev := 0;
        assert s[0..] == s;
      } else {
        prev := prev' + len;
        assert s[len..][prev'..] == s[prev..];
      }
    }
  }

  /** What a character looks like from its end. */
  lemma CharShape(s: string)
    requires CharLen(s) > 0
    ensures forall k :: 1 <= k < CharLen(s) ==> Tail(s[k])
    ensures CharLen(s) == 1 <==> s[0] as int < 0x80
    ensures CharLen(s) > 1 ==> s[0] as int >= 0xC0 && Announced(s[0]) == CharLen(s)
  {
  }

  /** The scan over `k` continuation bytes. */
  lemma {:induction false} ScanOverTail(p: string, k: nat, back: nat)
    requires back <= k < 4 && k < |p|
    requires forall i :: |p| - k <= i < |p| ==> Tail(p[i])
    ensures Truncated(p, back) == Truncated(p, k)
    decreases k - back
  {
    if back < k {
      assert Tail(p[|p| - 1 - back]);
      ScanOverTail(p, k, back + 1);
    }
  }

  /** TRUNCATION IS MAXIMAL. For every byte prefix of well-formed UTF-8 the scan returns the length of the
      longest well-formed prefix. */
  lemma TruncationIsMaximal(s: string, n: nat)
    requires WellFormed(s) && n <= |s|
    ensures WellFormed(s[..n][..TruncateSafe(s[..n])])
    ensures forall m :: TruncateSafe(s[..n]) < m <= n ==> !WellFormed(s[..n][..m])
  {
    hide TruncateSafe, CharLen;
    var p := s[..n];
    var b, prev := LastBoundary(s, n);
    assert TruncateSafe(p) == b by { ScanFindsBoundary(s, n, b, prev); }
    assert p[..b] == s[..b];
    forall m | b < m <= n ensures !WellFormed(p[..m]) {
      assert p[..m] == s[..m];
      CutInside(s, b, m);
    }
  }

  lemma CutInside(s: string, b: nat, m: nat)
    requires b < m <= |s| && WellFormed(s[..b]) && m - b < CharLen(s[b..])
    ensures !WellFormed(s[..m])
  {
    hide CharLen;
    assert s[..m] == s[..b] + s[b..m] && s[b..m] == s[b..][..m - b];
    if WellFormed(s[..m]) { WellFormedRest(s[..b], s[b..m]); }
    CharLenOfCut(s[b..], m - b);
  }

  lemma ScanFindsBoundary(s: string, n: nat, b: nat, prev: nat)
    requires prev <= b <= n <= |s|
    requires b < n ==> CharLen(s[b..]) > n - b
    requires b == 0 || (prev < b && CharLen(s[prev..]) == b - prev)
    ensures TruncateSafe(s[..n]) == b
  {
    var p := s[..n];
    if n == 0 {
    } else if b < n {
      CharShape(s[b..]);
      forall i | b + 1 <= i < n ensures Tail(p[i]) {
        assert p[i] == s[b..][i - b];
      }
      ScanOverTail(p, n - b - 1, 0);
      assert p[b] == s[b..][0];
    } else {
      CharShape(s[prev..]);
      forall i | prev + 1 <= i < n ensures Tail(p[i]) {
        assert p[i] == s[prev..][i - prev];
      }
      ScanOverTail(p, b - prev - 1, 0);
      assert p[prev] == s[prev..][0];
    }
  }
}
