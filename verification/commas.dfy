/** Bare (unescaped) commas inside a single value, how to find them and how to
    escape them (`containsUnescapedComma`, `escapeCommasInValue`). */
module Commas {

  /** Index `i` of `s` holds a comma that is not directly preceded by a backslash. */
  predicate BareCommaAt(s: string, i: int)
  {
    0 <= i < |s| && s[i] == ',' && (i == 0 || s[i - 1] != '\\')
  }

  /** `containsUnescapedComma`: some comma of `s` is not preceded by a backslash. */
  function ContainsUnescapedComma(s: string): (b: bool)
    ensures b <==> exists i :: BareCommaAt(s, i)
  {
    BareCommaFrom(s, 0)
  }

  /** The scan of `containsUnescapedComma` from index `i` on. */
  function BareCommaFrom(s: string, i: nat): (b: bool)
    requires i <= |s|
    ensures b <==> exists p :: i <= p && BareCommaAt(s, p)
    decreases |s| - i
  {
    if i == |s| then false
    else if s[i] == ',' && !(i > 0 && s[i - 1] == '\\') then
      assert BareCommaAt(s, i);
      true
    else BareCommaFrom(s, i + 1)
  }

  /** How many bare commas lie below index `n`. */
  function BareCount(s: string, n: nat): (c: nat)
    requires n <= |s|
    ensures c == 0 <==> forall p :: 0 <= p < n ==> !BareCommaAt(s, p)
    ensures c <= n
  {
    if n == 0 then 0
    else BareCount(s, n - 1) + (if BareCommaAt(s, n - 1) then 1 else 0)
  }

  /** What `escapeCommasInValue` writes for the character at index `i`: a bare comma
      becomes backslash, backslash, comma; everything else is copied. */
  function EscapedAt(s: string, i: nat): string
    requires i < |s|
  {
    if s[i] == ',' then
      (if i > 0 && s[i - 1] == '\\' then "," else "\\\\,")
    else [s[i]]
  }

  /** The output of `escapeCommasInValue` for the first `n` characters of `s`. */
  function EscapePrefix(s: string, n: nat): (r: string)
    requires n <= |s|
    ensures |r| == n + 2 * BareCount(s, n)
    ensures n == 0 <==> r == []
    ensures n > 0 ==> r[|r| - 1] == s[n - 1]
    ensures forall p :: !BareCommaAt(r, p)
    ensures BareCount(s, n) == 0 ==> r == s[..n]
  {
    if n == 0 then []
    else
      var r0 := EscapePrefix(s, n - 1);
      var piece := EscapedAt(s, n - 1);
      var r := r0 + piece;
      assert forall p :: 0 <= p < |r0| ==> (BareCommaAt(r, p) <==> BareCommaAt(r0, p));
      assert forall p :: |r0| <= p < |r| && BareCommaAt(r, p) ==> p == |r0| && s[n - 1] == ',';
      r
  }

  /** `escapeCommasInValue`: every bare comma of `s` gets two backslashes in front.
      The output has no bare comma, grows by two characters per bare comma of the
      input, and is the input itself when the input had none. */
  function EscapeCommasInValue(s: string): (r: string)
    ensures !ContainsUnescapedComma(r)
    ensures |r| == |s| + 2 * BareCount(s, |s|)
    ensures !ContainsUnescapedComma(s) <==> r == s
  {
    var r := EscapePrefix(s, |s|);
    assert s[..|s|] == s;
    r
  }

  /** Escaping keeps the last character of a value. */
  lemma EscapeKeepsLast(s: string)
    ensures var r := EscapeCommasInValue(s);
      s != [] ==> r != [] && r[|r| - 1] == s[|s| - 1]
  {
  }

  /** A value with one comma, not preceded by a backslash, gets exactly two
      backslashes in front of that comma. */
  lemma EscapeOneComma(x: string, y: string)
    requires ',' !in x && ',' !in y
    requires x == [] || x[|x| - 1] != '\\'
    ensures EscapeCommasInValue(x + "," + y) == x + "\\\\," + y
  {
    var s := x + "," + y;
    EscapeUpToComma(x, y);
    assert forall m :: |x| + 1 <= m < |s| ==> s[m] == y[m - |x| - 1];
    EscapeCopies(s, |x| + 1, |s|);
    TailOfThree(x, ",", y);
  }

  lemma TailOfThree(x: string, c: string, y: string)
    ensures (x + c + y)[|x| + |c|..|x + c + y|] == y
  {
  }

  lemma SliceSnoc(s: string, a: nat, b: nat)
    requires a < b <= |s|
    ensures s[a..b] == s[a..b - 1] + [s[b - 1]]
  {
  }

  /** Up to and including the comma: the text before it copied, the comma escaped. */
  lemma EscapeUpToComma(x: string, y: string)
    requires ',' !in x
    requires x == [] || x[|x| - 1] != '\\'
    ensures EscapePrefix(x + "," + y, |x| + 1) == x + "\\\\,"
  {
    var s := x + "," + y;
    assert s[..|x|] == x;
    assert forall p :: 0 <= p < |x| ==> !BareCommaAt(s, p);
    assert BareCount(s, |x|) == 0;
    assert EscapePrefix(s, |x|) == x;
  }

  /** Text without commas is copied as it is. */
  lemma {:induction false} EscapeCopies(s: string, n0: nat, n: nat)
    requires n0 <= n <= |s|
    requires forall m :: n0 <= m < n ==> s[m] != ','
    ensures EscapePrefix(s, n) == EscapePrefix(s, n0) + s[n0..n]
    decreases n
  {
    if n > n0 {
      EscapeCopies(s, n0, n - 1);
      EscapeCopiesOne(s, n);
      SliceSnoc(s, n0, n);
    }
  }

  lemma EscapeCopiesOne(s: string, n: nat)
    requires 0 < n <= |s| && s[n - 1] != ','
    ensures EscapePrefix(s, n) == EscapePrefix(s, n - 1) + [s[n - 1]]
  {
  }

  /** `x` ends in a backslash and `y` starts with a comma: laid together, the two
      form an escaped comma that neither holds alone. */
  predicate Glued(x: string, y: string)
  {
    x != [] && x[|x| - 1] == '\\' && y != [] && y[0] == ','
  }

  /** One step of the builder. */
  lemma EscapePrefixStep(s: string, n: nat)
    requires 0 < n <= |s|
    ensures EscapePrefix(s, n) == EscapePrefix(s, n - 1) + EscapedAt(s, n - 1)
  {
  }

  /** The builder after `n` characters depends on those characters only. */
  lemma {:induction false} EscapePrefixOfPrefix(s: string, t: string, n: nat)
    requires n <= |s| && n <= |t| && s[..n] == t[..n]
    ensures EscapePrefix(s, n) == EscapePrefix(t, n)
    decreases n
  {
    if n > 0 {
      assert s[..n - 1] == s[..n][..n - 1] && t[..n - 1] == t[..n][..n - 1];
      EscapePrefixOfPrefix(s, t, n - 1);
      assert s[n - 1] == s[..n][n - 1] && t[n - 1] == t[..n][n - 1];
      if n > 1 {
        assert s[n - 2] == s[..n][n - 2] && t[n - 2] == t[..n][n - 2];
      }
      assert EscapedAt(s, n - 1) == EscapedAt(t, n - 1);
      EscapePrefixStep(s, n);
      EscapePrefixStep(t, n);
    }
  }

  /** A character of `y` is written the same after `x` as alone, unless it is the
      comma that the backslash ending `x` escapes. */
  lemma EscapedAtShift(x: string, y: string, i: nat)
    requires i < |y| && (i == 0 ==> !Glued(x, y))
    ensures EscapedAt(x + y, |x| + i) == EscapedAt(y, i)
  {
    assert (x + y)[|x| + i] == y[i];
    if i > 0 {
      assert (x + y)[|x| + i - 1] == y[i - 1];
    } else if x != [] {
      assert (x + y)[|x| - 1] == x[|x| - 1];
    }
  }

  /** One step of the builder over `x + y`, past the end of `x`. */
  lemma EscapePrefixShiftStep(x: string, y: string, n: nat, k: nat)
    requires 0 < n <= |y| && k == |x| + n && (n == 1 ==> !Glued(x, y))
    ensures EscapePrefix(x + y, k) == EscapePrefix(x + y, k - 1) + EscapedAt(y, n - 1)
  {
    EscapePrefixStep(x + y, k);
    EscapedAtShift(x, y, n - 1);
  }

  lemma EscapeSplitBase(x: string, y: string, n: nat, k: nat)
    requires n == 0 && k == |x|
    ensures EscapePrefix(x + y, k) == EscapePrefix(x, |x|) + EscapePrefix(y, n)
  {
    assert (x + y)[..|x|] == x[..|x|];
    EscapePrefixOfPrefix(x + y, x, |x|);
    AppendEmpty(EscapePrefix(x, |x|), EscapePrefix(y, 0));
  }

  lemma AppendEmpty(a: string, e: string)
    requires e == []
    ensures a + e == a
  {
  }

  /** After `k` characters of `x + y`, of which the last `n` come from `y`, the
      builder has written the escape of `x` followed by that of `y`'s first `n`. */
  predicate SplitsAt(x: string, y: string, n: nat, k: nat)
    requires n <= |y| && k == |x| + n
  {
    EscapePrefix(x + y, k) == EscapePrefix(x, |x|) + EscapePrefix(y, n)
  }

  lemma EscapeSplitStep(x: string, y: string, n: nat, k: nat)
    requires 0 < n <= |y| && k == |x| + n && (n == 1 ==> !Glued(x, y))
    requires SplitsAt(x, y, n - 1, k - 1)
    ensures SplitsAt(x, y, n, k)
  {
    EscapePrefixShiftStep(x, y, n, k);
    EscapePrefixStep(y, n);
    AppendBoth(EscapePrefix(x + y, k - 1), EscapePrefix(x, |x|), EscapePrefix(y, n - 1),
               EscapedAt(y, n - 1), EscapePrefix(x + y, k), EscapePrefix(y, n));
  }

  /** Past the end of `x`, the builder over `x + y` writes what the builder over
      `y` alone writes; `k` is the position in `x + y`. */
  lemma {:induction false} EscapePrefixSplit(x: string, y: string, n: nat, k: nat)
    requires n <= |y| && k == |x| + n && !Glued(x, y)
    ensures SplitsAt(x, y, n, k)
    decreases n
  {
    if n == 0 {
      EscapeSplitBase(x, y, n, k);
    } else {
      EscapePrefixSplit(x, y, n - 1, k - 1);
      EscapeSplitStep(x, y, n, k);
    }
  }

  lemma AppendBoth(p: string, e: string, q: string, piece: string, a: string, b: string)
    requires p == e + q && a == p + piece && b == q + piece
    ensures a == e + b
  {
  }

  /** Escaping two values laid together is escaping each, unless the first ends in
      the backslash that escapes the comma the second starts with. */
  lemma EscapeConcat(x: string, y: string)
    requires !Glued(x, y)
    ensures EscapeCommasInValue(x + y) == EscapeCommasInValue(x) + EscapeCommasInValue(y)
  {
    EscapePrefixSplit(x, y, |y|, |x + y|);
    assert SplitsAt(x, y, |y|, |x + y|);
  }

  /** The rewrite read left to right, one token at a time: an escaped comma is
      copied, a bare comma gets two backslashes, any other character is copied. */
  function EscapeSpec(s: string): (r: string)
    decreases |s|
  {
    if s == [] then []
    else if |s| >= 2 && s[0] == '\\' && s[1] == ',' then "\\," + EscapeSpec(s[2..])
    else if s[0] == ',' then "\\\\," + EscapeSpec(s[1..])
    else [s[0]] + EscapeSpec(s[1..])
  }

  lemma EscapeOfEscaped()
    ensures EscapeCommasInValue("\\,") == "\\,"
  {
    assert !BareCommaAt("\\,", 0) && !BareCommaAt("\\,", 1);
  }

  lemma EscapeOfChar(c: char)
    ensures EscapeCommasInValue([c]) == if c == ',' then "\\\\," else [c]
  {
    EscapePrefixStep([c], 1);
  }

  /** `escapeCommasInValue` is the token-by-token rewrite on every value. */
  lemma {:induction false} EscapeMatchesSpec(s: string)
    ensures EscapeCommasInValue(s) == EscapeSpec(s)
    decreases |s|
  {
    if s == [] {
    } else if |s| >= 2 && s[0] == '\\' && s[1] == ',' {
      assert s == "\\," + s[2..];
      EscapeConcat("\\,", s[2..]);
      EscapeOfEscaped();
      EscapeMatchesSpec(s[2..]);
    } else {
      assert s == [s[0]] + s[1..];
      EscapeConcat([s[0]], s[1..]);
      EscapeOfChar(s[0]);
      EscapeMatchesSpec(s[1..]);
    }
  }
}

