/** The parts of Go's `strings` package that the tag tokenizer relies on.
    A Go string is a sequence of bytes; here every `char` stands for one byte. */
module Strings {

  /** `sub` occurs in `s` starting at index `k`. */
  predicate OccursAt(s: string, sub: string, k: int)
  {
    0 <= k && k + |sub| <= |s| && s[k..k + |sub|] == sub
  }

  /** `strings.Index`: the first index at which `sub` occurs in `s`, or -1. */
  function Index(s: string, sub: string): (r: int)
    ensures r == -1 || OccursAt(s, sub, r)
    ensures forall k :: 0 <= k && (r == -1 || k < r) ==> !OccursAt(s, sub, k)
  {
    IndexFrom(s, sub, 0)
  }

  /** The first occurrence of `sub` in `s` at or after `from`, or -1. */
  function IndexFrom(s: string, sub: string, from: nat): (r: int)
    requires from <= |s|
    ensures r == -1 || (from <= r && OccursAt(s, sub, r))
    ensures forall k :: from <= k && (r == -1 || k < r) ==> !OccursAt(s, sub, k)
    decreases |s| - from
  {
    if from + |sub| > |s| then -1
    else if s[from..from + |sub|] == sub then from
    else IndexFrom(s, sub, from + 1)
  }

  /** For a one-character pattern, `Index` is the first position holding that character. */
  lemma IndexOfChar(s: string, c: char)
    ensures Index(s, [c]) == -1 <==> forall k :: 0 <= k < |s| ==> s[k] != c
    ensures Index(s, [c]) != -1 ==>
      var r := Index(s, [c]);
      0 <= r < |s| && s[r] == c && forall k :: 0 <= k < r ==> s[k] != c
  {
    forall k | 0 <= k < |s|
      ensures OccursAt(s, [c], k) <==> s[k] == c
    {
      assert s[k..k + 1] == [s[k]];
    }
  }

  /** ASCII white space, the part of `unicode.IsSpace` that a single byte can hold. */
  predicate IsSpace(c: char)
  {
    c == ' ' || c == '\t' || c == '\n' || c == '\U{000B}' || c == '\U{000C}' || c == '\r'
  }

  /** Drops leading white space. */
  function TrimLeft(s: string): (r: string)
    ensures |r| <= |s|
  {
    if |s| > 0 && IsSpace(s[0]) then TrimLeft(s[1..]) else s
  }

  /** Drops trailing white space. */
  function TrimRight(s: string): (r: string)
    ensures |r| <= |s|
  {
    if |s| > 0 && IsSpace(s[|s| - 1]) then TrimRight(s[..|s| - 1]) else s
  }

  /** `strings.TrimSpace`, restricted to ASCII white space. */
  function TrimSpace(s: string): (r: string)
    ensures |r| <= |s|
  {
    TrimRight(TrimLeft(s))
  }

  /** What `TrimLeft` removes is white space, and what it keeps is a suffix
      that does not start with white space. */
  lemma {:induction false} TrimLeftFacts(s: string)
    ensures var r := TrimLeft(s);
      && r == s[|s| - |r|..]
      && (forall k :: 0 <= k < |s| - |r| ==> IsSpace(s[k]))
      && (r != [] ==> !IsSpace(r[0]))
  {
    if |s| > 0 && IsSpace(s[0]) {
      TrimLeftFacts(s[1..]);
    }
  }

  /** What `TrimRight` removes is white space, and what it keeps is a prefix
      that does not end with white space. */
  lemma {:induction false} TrimRightFacts(s: string)
    ensures var r := TrimRight(s);
      && r == s[..|r|]
      && (forall k :: |r| <= k < |s| ==> IsSpace(s[k]))
      && (r != [] ==> !IsSpace(r[|r| - 1]))
  {
    if |s| > 0 && IsSpace(s[|s| - 1]) {
      TrimRightFacts(s[..|s| - 1]);
    }
  }

  /** The trimmed string is a slice of the original with only white space cut off
      on either side, and it neither starts nor ends with white space. */
  lemma TrimSpaceFacts(s: string)
    ensures var r := TrimSpace(s);
      && (r != [] ==> !IsSpace(r[0]) && !IsSpace(r[|r| - 1]))
      && (forall c :: c in r ==> c in s)
      && (exists a, b :: 0 <= a <= b <= |s| && r == s[a..b]
            && (forall k :: 0 <= k < a ==> IsSpace(s[k]))
            && (forall k :: b <= k < |s| ==> IsSpace(s[k])))
  {
    var l := TrimLeft(s);
    TrimLeftFacts(s);
    TrimRightFacts(l);
    SpaceTrimmedSlice(s, l, TrimRight(l));
  }

  /** A suffix `l` of `s` and a prefix `r` of `l`, cut off at white space only. */
  lemma SpaceTrimmedSlice(s: string, l: string, r: string)
    requires |l| <= |s| && l == s[|s| - |l|..]
    requires forall k :: 0 <= k < |s| - |l| ==> IsSpace(s[k])
    requires |r| <= |l| && r == l[..|r|]
    requires forall k :: |r| <= k < |l| ==> IsSpace(l[k])
    ensures forall c :: c in r ==> c in s
    ensures exists a, b :: 0 <= a <= b <= |s| && r == s[a..b]
              && (forall k :: 0 <= k < a ==> IsSpace(s[k]))
              && (forall k :: b <= k < |s| ==> IsSpace(s[k]))
  {
    var a := |s| - |l|;
    var b := a + |r|;
    assert r == s[a..b];
    forall k | b <= k < |s|
      ensures IsSpace(s[k])
    {
      assert s[k] == l[k - a];
    }
  }

  /** A string with no white space at either end is its own trim. */
  lemma TrimSpaceOfTrimmed(s: string)
    requires s != [] ==> !IsSpace(s[0]) && !IsSpace(s[|s| - 1])
    ensures TrimSpace(s) == s
  {
  }

  /** Trimming is idempotent. */
  lemma TrimSpaceIdempotent(s: string)
    ensures TrimSpace(TrimSpace(s)) == TrimSpace(s)
  {
    TrimSpaceFacts(s);
    TrimSpaceOfTrimmed(TrimSpace(s));
  }

  /** White space in front of a string does not change its trim. */
  lemma TrimSpaceSkipsLeading(sp: string, x: string)
    requires forall k :: 0 <= k < |sp| ==> IsSpace(sp[k])
    ensures TrimSpace(sp + x) == TrimSpace(x)
  {
    TrimLeftSkipsLeading(sp, x);
  }

  lemma {:induction false} TrimLeftSkipsLeading(sp: string, x: string)
    requires forall k :: 0 <= k < |sp| ==> IsSpace(sp[k])
    ensures TrimLeft(sp + x) == TrimLeft(x)
    decreases |sp|
  {
    if sp != [] {
      var t := sp + x;
      assert t[0] == sp[0] && IsSpace(sp[0]);
      assert TrimLeft(t) == TrimLeft(t[1..]);
      assert t[1..] == sp[1..] + x;
      forall k | 0 <= k < |sp[1..]| ensures IsSpace(sp[1..][k]) {
        assert sp[1..][k] == sp[k + 1];
      }
      TrimLeftSkipsLeading(sp[1..], x);
    } else {
      assert sp + x == x;
    }
  }
}
