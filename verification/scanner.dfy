/** The scan shared by the splitter and the fixer: skipping spaces, finding the end
    of a key, the lookahead that decides whether a comma separates two pairs, the end
    of a value, and the resulting cut of a tag into segments. */
module Scanner {
  import opened Strings
  import opened Vocabulary
  import opened Commas

  /** The skip loop: the first index at or after `i` that is not a space (only `' '`
      is skipped here, unlike `TrimSpace`). */
  function SkipSpaces(s: string, i: nat): (k: nat)
    requires i <= |s|
    ensures i <= k <= |s|
    ensures k < |s| ==> s[k] != ' '
    decreases |s| - i
  {
    if i < |s| && s[i] == ' ' then SkipSpaces(s, i + 1) else i
  }

  /** The skip loop passes over spaces only. */
  lemma {:induction false} SkipSpacesFacts(s: string, i: nat)
    requires i <= |s|
    ensures forall p :: i <= p < SkipSpaces(s, i) ==> s[p] == ' '
    decreases |s| - i
  {
    if i < |s| && s[i] == ' ' {
      SkipSpacesFacts(s, i + 1);
    }
  }

  /** The key loop: the first index at or after `i` holding `=` or `,`, or `|s|`. */
  function KeyEnd(s: string, i: nat): (j: nat)
    requires i <= |s|
    ensures i <= j <= |s|
    ensures j < |s| ==> s[j] == '=' || s[j] == ','
    decreases |s| - i
  {
    if i < |s| && s[i] != '=' && s[i] != ',' then KeyEnd(s, i + 1) else i
  }

  /** The key loop passes over neither `=` nor `,`. */
  lemma {:induction false} KeyEndFacts(s: string, i: nat)
    requires i <= |s|
    ensures forall p :: i <= p < KeyEnd(s, i) ==> s[p] != '=' && s[p] != ','
    decreases |s| - i
  {
    if i < |s| && s[i] != '=' && s[i] != ',' {
      KeyEndFacts(s, i + 1);
    }
  }

  /** The lookahead for the comma at index `i`: the trimmed text from just after
      the comma up to the next `=` or `,` (or the end of the tag), i.e. the key a
      key scan started there would read. */
  function Candidate(s: string, i: nat): string
    requires i < |s|
  {
    TrimSpace(s[i + 1..KeyEnd(s, i + 1)])
  }

  /** The lookahead as both scans in the source write it: a four-way branch on the
      positions of the next `=` and the next `,` after the comma. */
  function Lookahead(s: string, i: nat): string
    requires i < |s|
  {
    var rest := s[i + 1..];
    var nextEq := Index(rest, "=");
    var nextComma := Index(rest, ",");
    if nextEq == -1 && nextComma == -1 then TrimSpace(rest)
    else if nextEq == -1 then TrimSpace(rest[..nextComma])
    else if nextComma == -1 || nextComma > nextEq then TrimSpace(rest[..nextEq])
    else TrimSpace(rest[..nextComma])
  }

  /** The four-way branch reads exactly the key text after the comma: whichever of
      `=` and `,` comes first ends it. */
  lemma LookaheadIsCandidate(s: string, i: nat)
    requires i < |s|
    ensures Lookahead(s, i) == Candidate(s, i)
  {
    var rest := s[i + 1..];
    IndexOfChar(rest, '=');
    IndexOfChar(rest, ',');
    var nextEq := Index(rest, "=");
    var nextComma := Index(rest, ",");
    var j := KeyEnd(s, i + 1);
    KeyEndFacts(s, i + 1);
    assert "=" == ['='] && "," == [','];
    if j < |s| {
      assert rest[j - (i + 1)] == s[j];
    }
    forall p | 0 <= p < j - (i + 1)
      ensures rest[p] != '=' && rest[p] != ','
    {
      assert rest[p] == s[p + i + 1];
    }
    var m := j - (i + 1);
    assert s[i + 1..j] == rest[..m];
    if nextEq == -1 && nextComma == -1 {
      assert m == |rest|;
      assert rest[..m] == rest;
    } else if nextEq == -1 {
      assert m == nextComma;
    } else if nextComma == -1 || nextComma > nextEq {
      assert m == nextEq;
    } else {
      assert m == nextComma;
    }
  }

  /** The comma at index `i` separates two pairs: its lookahead names a keyword. */
  predicate IsSeparator(s: string, i: int)
  {
    0 <= i < |s| && s[i] == ',' && IsLikelyKey(Candidate(s, i))
  }

  /** The value loop started at `i`: an escaped comma (backslash, comma) is stepped
      over as a unit, and the scan stops at the first comma whose lookahead names a
      keyword, or at the end of the tag. */
  function ValueEnd(s: string, i: nat): (e: nat)
    requires i <= |s|
    ensures i <= e <= |s|
    ensures e < |s| ==> s[e] == ','
    decreases |s| - i
  {
    if i >= |s| then |s|
    else if i + 1 < |s| && s[i] == '\\' && s[i + 1] == ',' then ValueEnd(s, i + 2)
    else if s[i] == ',' && IsLikelyKey(Candidate(s, i)) then i
    else ValueEnd(s, i + 1)
  }

  /** The bare commas of a value `v` are data: none has a keyword as its lookahead
      read inside `v`. A separator or the end of the tag follows a value, and either
      ends the lookahead there too (`SeparatorInValue`). */
  predicate DataValue(v: string)
  {
    forall p :: 0 <= p < |v| && BareCommaAt(v, p) ==> !IsSeparator(v, p)
  }

  /** Inside text `v` that is followed by a comma or by the end of the tag `r`, the
      lookahead of a comma reads the same in `v` as in `r`. */
  lemma SeparatorInValue(r: string, off: nat, v: string, p: nat)
    requires off + |v| <= |r| && r[off..off + |v|] == v
    requires off + |v| < |r| ==> r[off + |v|] == ','
    requires p < |v|
    ensures IsSeparator(r, off + p) <==> IsSeparator(v, p)
  {
    KeyEndInValue(r, off, v, p);
    assert r[off + p] == v[p];
    SliceOfSlice(r, off, off + |v|, p + 1, KeyEnd(v, p + 1));
  }

  /** The key loop started inside `v` stops at the same place in `v` and in `r`. */
  lemma KeyEndInValue(r: string, off: nat, v: string, p: nat)
    requires off + |v| <= |r| && r[off..off + |v|] == v
    requires off + |v| < |r| ==> r[off + |v|] == ','
    requires p < |v|
    ensures KeyEnd(r, off + p + 1) == off + KeyEnd(v, p + 1)
  {
    var jv := KeyEnd(v, p + 1);
    KeyEndFacts(v, p + 1);
    forall m | off + p + 1 <= m < off + jv
      ensures r[m] != '=' && r[m] != ','
    {
      assert r[m] == v[m - off];
    }
    if jv < |v| {
      assert r[off + jv] == v[jv];
    }
    KeyEndIs(r, off + p + 1, off + jv);
  }

  /** A value scan that stops before the end stops at a separator. */
  lemma {:induction false} ValueEndAtSeparator(s: string, i: nat)
    requires i <= |s|
    ensures ValueEnd(s, i) < |s| ==> IsSeparator(s, ValueEnd(s, i))
    decreases |s| - i
  {
    if i >= |s| {
    } else if i + 1 < |s| && s[i] == '\\' && s[i + 1] == ',' {
      ValueEndAtSeparator(s, i + 2);
    } else if s[i] == ',' && IsLikelyKey(Candidate(s, i)) {
    } else {
      ValueEndAtSeparator(s, i + 1);
    }
  }

  /** A value scan never stops at a comma that has a backslash in front of it,
      unless that comma is where the scan started. */
  lemma {:induction false} ValueEndNotEscaped(s: string, i: nat)
    requires i <= |s|
    ensures var e := ValueEnd(s, i); i < e < |s| ==> s[e - 1] != '\\'
    decreases |s| - i
  {
    if i >= |s| {
    } else if i + 1 < |s| && s[i] == '\\' && s[i + 1] == ',' {
      assert ValueEnd(s, i) == ValueEnd(s, i + 2);
      ValueEndNotEscaped(s, i + 2);
    } else if s[i] == ',' && IsLikelyKey(Candidate(s, i)) {
      assert ValueEnd(s, i) == i;
    } else {
      assert ValueEnd(s, i) == ValueEnd(s, i + 1);
      ValueEndNotEscaped(s, i + 1);
    }
  }

  /** Every bare comma a value scan passes over has a lookahead that is not a keyword. */
  lemma {:induction false} ValueEndPassesOnlyData(s: string, i: nat, p: int)
    requires i <= |s|
    requires i <= p < ValueEnd(s, i) && BareCommaAt(s, p)
    ensures !IsSeparator(s, p)
    decreases |s| - i
  {
    if i + 1 < |s| && s[i] == '\\' && s[i + 1] == ',' {
      if p >= i + 2 {
        ValueEndPassesOnlyData(s, i + 2, p);
      }
    } else if p > i {
      ValueEndPassesOnlyData(s, i + 1, p);
    }
  }

  /** One piece of a tag, as either scan walks it: the spaces skipped in front, the
      raw key text (up to `=`, `,` or the end), for a pair the raw value after `=`,
      and whether a separating comma follows. Trailing spaces at the very end of a
      tag form a `Standalone` piece with an empty key. */
  datatype Segment =
    | Standalone(lead: string, head: string, comma: bool)
    | Pair(lead: string, head: string, value: string, comma: bool)

  /** The text a segment was cut from. */
  function SegmentText(seg: Segment): string
  {
    match seg
    case Standalone(lead, head, comma) => lead + head + (if comma then "," else "")
    case Pair(lead, head, value, comma) => lead + head + "=" + value + (if comma then "," else "")
  }

  /** Segments laid back end to end. */
  function Join(segs: seq<Segment>): string
  {
    if segs == [] then [] else SegmentText(segs[0]) + Join(segs[1..])
  }

  /** A segment as the scans produce it: lead of spaces, key text free of `=` and `,`. */
  predicate WellFormed(seg: Segment)
  {
    && (forall p :: 0 <= p < |seg.lead| ==> seg.lead[p] == ' ')
    && (forall p :: 0 <= p < |seg.head| ==> seg.head[p] != '=' && seg.head[p] != ',')
    && (seg.head != [] ==> seg.head[0] != ' ')
  }

  /** One turn of the outer loop of either scan, started at `i`: the segment read
      and the index the next turn starts from. */
  function NextSegment(s: string, i: nat): (r: (Segment, nat))
    requires i < |s|
    ensures i < r.1 <= |s|
    ensures SegmentText(r.0) == s[i..r.1]
  {
    var k := SkipSpaces(s, i);
    if k == |s| then
      assert s[i..k] + [] + [] == s[i..k];
      (Standalone(s[i..k], [], false), k)
    else
      var j := KeyEnd(s, k);
      if j == |s| || s[j] == ',' then StandaloneAt(s, i, k, j)
      else PairAt(s, i, k, j)
  }

  /** A segment with no `=`: spaces `[i..k]`, key text `[k..j]`, and the comma at
      `j` when there is one. */
  function StandaloneAt(s: string, i: nat, k: nat, j: nat): (r: (Segment, nat))
    requires i <= k < |s| && k <= j <= |s|
    requires j < |s| ==> s[j] == ','
    ensures i < r.1 <= |s|
    ensures SegmentText(r.0) == s[i..r.1]
  {
    var next := if j < |s| then j + 1 else j;
    TextOfStandalone(s, i, k, j, next);
    (Standalone(s[i..k], s[k..j], j < |s|), next)
  }

  /** A `key=value` segment: spaces `[i..k]`, key text `[k..j]`, `=` at `j`, then
      the value up to where the value scan stops, and the separator comma there. */
  function PairAt(s: string, i: nat, k: nat, j: nat): (r: (Segment, nat))
    requires i <= k <= j < |s| && s[j] == '='
    ensures i < r.1 <= |s|
    ensures SegmentText(r.0) == s[i..r.1]
  {
    var e := ValueEnd(s, j + 1);
    var next := if e < |s| then e + 1 else e;
    TextOfPair(s, i, k, j, e, next);
    (Pair(s[i..k], s[k..j], s[j + 1..e], e < |s|), next)
  }

  lemma TextOfStandalone(s: string, i: nat, k: nat, j: nat, next: nat)
    requires i <= k <= j <= |s| && next == (if j < |s| then j + 1 else j)
    requires j < |s| ==> s[j] == ','
    ensures SegmentText(Standalone(s[i..k], s[k..j], j < |s|)) == s[i..next]
  {
    TextOfCut(s, i, k, j, next);
    if j < |s| {
      assert [s[j]] == ",";
    }
  }

  lemma TextOfPair(s: string, i: nat, k: nat, j: nat, e: nat, next: nat)
    requires i <= k <= j && j + 1 <= e <= |s| && s[j] == '='
    requires next == (if e < |s| then e + 1 else e)
    requires e < |s| ==> s[e] == ','
    ensures SegmentText(Pair(s[i..k], s[k..j], s[j + 1..e], e < |s|)) == s[i..next]
  {
    TextOfCut(s, i, k, j, j + 1);
    TextOfCut(s, i, j + 1, e, next);
    assert [s[j]] == "=";
    if e < |s| {
      assert [s[e]] == ",";
    }
  }

  /** Slices `[i..k]`, `[k..j]` and the single character after `j` (when `next`
      is past it) put together. */
  lemma TextOfCut(s: string, i: nat, k: nat, j: nat, next: nat)
    requires i <= k <= j <= next <= |s| && next <= j + 1
    ensures s[i..k] + s[k..j] + (if next > j then [s[j]] else []) == s[i..next]
  {
    if next > j {
      assert s[i..next] == s[i..j] + [s[j]];
    }
  }

  /** The cut of the tag `s` from index `i` on, one segment per turn of the outer
      loop. It loses nothing: the segments put back together are the text they
      came from. */
  function Segments(s: string, i: nat): (segs: seq<Segment>)
    requires i <= |s|
    ensures i < |s| <==> segs != []
    decreases |s| - i
  {
    if i == |s| then []
    else
      var r := NextSegment(s, i);
      [r.0] + Segments(s, r.1)
  }

  /** The cut loses nothing: its segments put back together are the text they
      came from. */
  lemma {:induction false} JoinSegments(s: string, i: nat)
    requires i <= |s|
    ensures Join(Segments(s, i)) == s[i..]
    decreases |s| - i
  {
    if i < |s| {
      var r := NextSegment(s, i);
      JoinSegments(s, r.1);
      SegmentsStep(s, i);
      JoinStep(s, i, r.0, r.1, Segments(s, r.1));
    }
  }

  lemma JoinStep(s: string, i: nat, seg: Segment, next: nat, rest: seq<Segment>)
    requires i <= next <= |s|
    requires SegmentText(seg) == s[i..next] && Join(rest) == s[next..]
    ensures Join([seg] + rest) == s[i..]
  {
    JoinCons(seg, rest);
    assert s[i..next] + s[next..] == s[i..];
  }

  lemma JoinCons(seg: Segment, rest: seq<Segment>)
    ensures Join([seg] + rest) == SegmentText(seg) + Join(rest)
  {
    assert ([seg] + rest)[1..] == rest;
  }

  /** The key a segment names: its key text, trimmed (`strings.TrimSpace(s[i:j])`). */
  function KeyOf(seg: Segment): string
  {
    TrimSpace(seg.head)
  }

  /** Each turn of the outer loop reads a well-formed segment. */
  lemma NextSegmentWellFormed(s: string, i: nat)
    requires i < |s|
    ensures WellFormed(NextSegment(s, i).0)
  {
    NextSegmentHead(s, i);
    var k := SkipSpaces(s, i);
    SkipSpacesFacts(s, i);
    KeyEndFacts(s, k);
    var seg := NextSegment(s, i).0;
    assert forall p :: 0 <= p < |seg.lead| ==> seg.lead[p] == s[i + p];
    assert forall p :: 0 <= p < |seg.head| ==> seg.head[p] == s[k + p];
  }

  /** A key scan started on spaces ends where one started after them ends. */
  lemma {:induction false} KeyEndSkipsSpaces(s: string, a: nat, b: nat)
    requires a <= b <= |s|
    requires forall p :: a <= p < b ==> s[p] == ' '
    ensures KeyEnd(s, a) == KeyEnd(s, b)
    decreases b - a
  {
    if a < b {
      KeyEndSkipsSpaces(s, a + 1, b);
    }
  }

  /** The lookahead of a comma reads the key of the segment that follows it. */
  lemma CandidateIsNextKey(s: string, next: nat)
    requires 1 <= next < |s|
    ensures Candidate(s, next - 1) == KeyOf(NextSegment(s, next).0)
  {
    NextSegmentHead(s, next);
    var k := SkipSpaces(s, next);
    var sp := s[next..k];
    SkipSpacesFacts(s, next);
    assert forall p :: 0 <= p < |sp| ==> IsSpace(sp[p]);
    KeyEndSkipsSpaces(s, next, k);
    var j := KeyEnd(s, k);
    assert s[next..j] == sp + s[k..j];
    TrimSpaceSkipsLeading(sp, s[k..j]);
    if k == |s| {
      assert s[k..j] == [];
    }
  }

  /** The spaces and the key text of the segment read at `i`. */
  lemma NextSegmentHead(s: string, i: nat)
    requires i < |s|
    ensures var k := SkipSpaces(s, i);
      NextSegment(s, i).0.lead == s[i..k] && NextSegment(s, i).0.head == s[k..KeyEnd(s, k)]
  {
    var k := SkipSpaces(s, i);
    if k == |s| {
      NextSegmentTrailing(s, i, k);
      assert s[i..] == s[i..k];
    } else {
      var j := KeyEnd(s, k);
      if j == |s| || s[j] == ',' {
        NextSegmentStandalone(s, i, k, j);
      } else {
        NextSegmentPair(s, i, k, j);
      }
    }
  }

  /** A pair that ends in a comma ended at a separator, and its value does not end
      in a backslash (which would have escaped that comma). */
  lemma PairEndsAtSeparator(s: string, i: nat)
    requires i < |s|
    ensures var seg := NextSegment(s, i).0;
      seg.Pair? && seg.comma ==>
        && 1 <= NextSegment(s, i).1 && IsSeparator(s, NextSegment(s, i).1 - 1)
        && (seg.value != [] ==> seg.value[|seg.value| - 1] != '\\')
  {
    var k := SkipSpaces(s, i);
    if k == |s| {
      NextSegmentTrailing(s, i, k);
    } else {
      var j := KeyEnd(s, k);
      if j == |s| || s[j] == ',' {
        NextSegmentStandalone(s, i, k, j);
      } else {
        PairEndsAtSeparatorFrom(s, i, k, j);
      }
    }
  }

  lemma PairEndsAtSeparatorFrom(s: string, i: nat, k: nat, j: nat)
    requires i < |s| && k == SkipSpaces(s, i) && k < |s| && j == KeyEnd(s, k)
    requires j < |s| && s[j] == '='
    ensures var seg := NextSegment(s, i).0;
      seg.Pair? && seg.comma ==>
        && 1 <= NextSegment(s, i).1 && IsSeparator(s, NextSegment(s, i).1 - 1)
        && (seg.value != [] ==> seg.value[|seg.value| - 1] != '\\')
  {
    NextSegmentPair(s, i, k, j);
    ValueEndFacts(s, j + 1);
    var e := ValueEnd(s, j + 1);
    var v := s[j + 1..e];
    LastOfCut(s, j + 1, e, v);
    if e < |s| {
      assert NextSegment(s, i).1 - 1 == e;
    }
  }

  /** A comma at the very end of the tag is never a separator: its lookahead is empty. */
  lemma SeparatorNotLast(s: string, e: nat)
    requires IsSeparator(s, e)
    ensures e + 1 < |s|
  {
  }

  /** A pair that ends in a comma is never the last segment. */
  lemma PairCommaNotLast(s: string, i: nat)
    requires i < |s|
    requires NextSegment(s, i).0.Pair? && NextSegment(s, i).0.comma
    ensures NextSegment(s, i).1 < |s|
  {
    PairEndsAtSeparator(s, i);
    SeparatorNotLast(s, NextSegment(s, i).1 - 1);
  }

  /** A pair ends in a comma only when the segment after it is named by a keyword:
      the value scan and the outer loop agree on where the next key starts. */
  lemma SeparatorBeforeKeyword(s: string, i: nat)
    requires i < |s|
    ensures NextSegment(s, i).0.Pair? && NextSegment(s, i).0.comma ==>
      NextSegment(s, i).1 < |s| && IsLikelyKey(KeyOf(NextSegment(s, NextSegment(s, i).1).0))
  {
    if NextSegment(s, i).0.Pair? && NextSegment(s, i).0.comma {
      PairCommaNotLast(s, i);
      PairEndsAtSeparator(s, i);
      SeparatorNamesNext(s, NextSegment(s, i).1);
    }
  }

  /** The segment after a separator is named by a keyword. */
  lemma SeparatorNamesNext(s: string, n: nat)
    requires 1 <= n < |s| && IsSeparator(s, n - 1)
    ensures IsLikelyKey(KeyOf(NextSegment(s, n).0))
  {
    CandidateIsNextKey(s, n);
  }

  /** Where a value scan stops, started just after `=` (or at a position not preceded
      by a backslash): at the first bare comma whose lookahead names a keyword, or at
      the end of the tag. An escaped comma is never a stopping point. */
  lemma ValueScanStops(s: string, i: nat)
    requires i <= |s|
    requires i == 0 || s[i - 1] != '\\'
    ensures var e := ValueEnd(s, i);
      && (e == |s| || (BareCommaAt(s, e) && IsSeparator(s, e)))
      && (forall p :: i <= p < e && BareCommaAt(s, p) ==> !IsSeparator(s, p))
  {
    var e := ValueEnd(s, i);
    ValueEndAtSeparator(s, i);
    ValueEndNotEscaped(s, i);
    forall p | i <= p < e && BareCommaAt(s, p)
      ensures !IsSeparator(s, p)
    {
      ValueEndPassesOnlyData(s, i, p);
    }
  }

  /** The cut from `i` on: the segment read there, then the cut after it. */
  lemma SegmentsStep(s: string, i: nat)
    requires i < |s|
    ensures Segments(s, i) == [NextSegment(s, i).0] + Segments(s, NextSegment(s, i).1)
  {
  }

  /** A turn of the outer loop that meets only spaces up to the end of the tag. */
  lemma NextSegmentTrailing(s: string, i: nat, k: nat)
    requires i < |s| && k == SkipSpaces(s, i) && k == |s|
    ensures NextSegment(s, i) == (Standalone(s[i..], [], false), |s|)
  {
    assert s[i..k] == s[i..];
  }

  /** A turn of the outer loop whose key text ends at a comma or at the end. */
  lemma NextSegmentStandalone(s: string, i: nat, k: nat, j: nat)
    requires i < |s| && k == SkipSpaces(s, i) && k < |s| && j == KeyEnd(s, k)
    requires j == |s| || s[j] == ','
    ensures NextSegment(s, i) ==
      (Standalone(s[i..k], s[k..j], j < |s|), if j < |s| then j + 1 else j)
  {
  }

  /** A turn of the outer loop whose key text ends at `=`. */
  lemma NextSegmentPair(s: string, i: nat, k: nat, j: nat)
    requires i < |s| && k == SkipSpaces(s, i) && k < |s| && j == KeyEnd(s, k)
    requires j < |s| && s[j] == '='
    ensures var e := ValueEnd(s, j + 1);
      NextSegment(s, i) == (Pair(s[i..k], s[k..j], s[j + 1..e], e < |s|), if e < |s| then e + 1 else e)
  {
  }

  /** A value scan that stops before the end stops at a separator that is not
      escaped. */
  lemma ValueEndFacts(s: string, a: nat)
    requires a <= |s|
    ensures var e := ValueEnd(s, a);
      && (e < |s| ==> IsSeparator(s, e))
      && (a < e < |s| ==> s[e - 1] != '\\')
  {
    ValueEndAtSeparator(s, a);
    ValueEndNotEscaped(s, a);
  }

  /** The skip loop as both scans write it. */
  method SkipLoop(s: string, i: nat) returns (k: nat)
    requires i <= |s|
    ensures k == SkipSpaces(s, i)
  {
    k := i;
    while k < |s| && s[k] == ' '
      invariant i <= k <= |s|
      invariant SkipSpaces(s, k) == SkipSpaces(s, i)
      decreases |s| - k
    {
      k := k + 1;
    }
  }

  /** The key loop as both scans write it. */
  method KeyLoop(s: string, i: nat) returns (j: nat)
    requires i <= |s|
    ensures j == KeyEnd(s, i)
  {
    j := i;
    while j < |s| && s[j] != '=' && s[j] != ','
      invariant i <= j <= |s|
      invariant KeyEnd(s, j) == KeyEnd(s, i)
      decreases |s| - j
    {
      j := j + 1;
    }
  }

  /** The value loop as both scans write it: step over backslash-comma, stop at a
      comma whose lookahead is a keyword. */
  method ValueLoop(s: string, i: nat) returns (e: nat)
    requires i <= |s|
    ensures e == ValueEnd(s, i)
  {
    e := i;
    while e < |s|
      invariant i <= e <= |s|
      invariant ValueEnd(s, e) == ValueEnd(s, i)
      decreases |s| - e
    {
      if e + 1 < |s| && s[e] == '\\' && s[e + 1] == ',' {
        e := e + 2;
        continue;
      }
      if s[e] == ',' {
        var potentialKey := Lookahead(s, e);
        LookaheadIsCandidate(s, e);
        if IsLikelyKey(potentialKey) {
          break;
        }
      }
      e := e + 1;
    }
  }

  /** A turn that ends without a comma ends at the end of the tag. */
  lemma NoCommaMeansEnd(s: string, i: nat)
    requires i < |s|
    ensures !NextSegment(s, i).0.comma ==> NextSegment(s, i).1 == |s|
  {
  }

  lemma LastOfCut(s: string, a: nat, e: nat, v: string)
    requires a < e < |s| ==> s[e - 1] != '\\'
    requires a <= e <= |s| && v == s[a..e]
    ensures v != [] && e < |s| ==> v[|v| - 1] != '\\'
  {
  }

  /** The skip loop stops at the first non-space. */
  lemma {:induction false} SkipSpacesIs(s: string, i: nat, k: nat)
    requires i <= k <= |s|
    requires forall p :: i <= p < k ==> s[p] == ' '
    requires k < |s| ==> s[k] != ' '
    ensures SkipSpaces(s, i) == k
    decreases k - i
  {
    if i < k {
      SkipSpacesIs(s, i + 1, k);
    }
  }

  /** The key loop stops at the first `=` or `,`. */
  lemma {:induction false} KeyEndIs(s: string, i: nat, j: nat)
    requires i <= j <= |s|
    requires forall p :: i <= p < j ==> s[p] != '=' && s[p] != ','
    requires j < |s| ==> s[j] == '=' || s[j] == ','
    ensures KeyEnd(s, i) == j
    decreases j - i
  {
    if i < j {
      KeyEndIs(s, i + 1, j);
    }
  }

  /** A value scan over text whose bare commas all have lookaheads that are not
      keywords stops at the end of that text, provided a separator (not itself
      escaped) or the end of the tag follows. */
  lemma {:induction false} ValueEndOverData(t: string, i: nat, q: nat)
    requires i <= q <= |t|
    requires i < q && t[i] == ',' ==> !IsSeparator(t, i)
    requires forall m :: i < m < q && BareCommaAt(t, m) ==> !IsSeparator(t, m)
    requires q < |t| ==> IsSeparator(t, q) && (i < q ==> t[q - 1] != '\\')
    ensures ValueEnd(t, i) == q
    decreases |t| - i
  {
    if i < q {
      if i + 1 < |t| && t[i] == '\\' && t[i + 1] == ',' {
        assert i + 2 <= q;
        if i + 2 < q && t[i + 2] == ',' {
          assert BareCommaAt(t, i + 2);
        }
        ValueEndOverData(t, i + 2, q);
      } else {
        if i + 1 < q && t[i + 1] == ',' {
          assert BareCommaAt(t, i + 1);
        }
        ValueEndOverData(t, i + 1, q);
      }
    }
  }

  /** Reading back a well-formed segment: when the text at `a` is a segment whose
      key text ends where the segment says, whose value holds only data commas,
      and which is followed by a separator or the end of the tag, one turn of the
      outer loop reads exactly that segment. */
  lemma NextSegmentReads(r: string, a: nat, seg: Segment, b: nat)
    requires a < b <= |r|
    requires r[a..b] == SegmentText(seg)
    requires WellFormed(seg)
    requires !seg.comma ==> b == |r|
    requires seg.Pair? ==> DataValue(seg.value)
    requires seg.Pair? && seg.comma ==>
      IsSeparator(r, b - 1) && (seg.value != [] ==> seg.value[|seg.value| - 1] != '\\')
    ensures NextSegment(r, a) == (seg, b)
  {
    var k := a + |seg.lead|;
    var j := k + |seg.head|;
    var tail := SegmentText(seg)[|seg.lead| + |seg.head|..];
    assert r[a..b] == seg.lead + seg.head + tail;
    ReadsKey(r, a, b, seg.lead, seg.head, tail);
    if seg.Standalone? {
      ReadsStandalone(r, a, seg, b, k, j);
    } else {
      ReadsPair(r, a, seg, b, k, j);
    }
  }

  /** The skip loop and the key loop over spaces `lead` and key text `head`. */
  lemma ReadsKey(r: string, a: nat, b: nat, lead: string, head: string, tail: string)
    requires a <= b <= |r| && r[a..b] == lead + head + tail
    requires forall p :: 0 <= p < |lead| ==> lead[p] == ' '
    requires forall p :: 0 <= p < |head| ==> head[p] != '=' && head[p] != ','
    ensures var k := a + |lead|; var j := k + |head|;
      && r[a..k] == lead && r[k..j] == head
      && (forall p :: a <= p < k ==> r[p] == ' ')
      && (forall p :: k <= p < j ==> r[p] != '=' && r[p] != ',')
  {
    var k := a + |lead|;
    var j := k + |head|;
    SliceOfConcat(lead, head, tail);
    SliceOfSlice(r, a, b, 0, k - a);
    SliceOfSlice(r, a, b, k - a, j - a);
    forall p | a <= p < k ensures r[p] == ' ' {
      assert r[p] == r[a..k][p - a];
    }
    forall p | k <= p < j ensures r[p] != '=' && r[p] != ',' {
      assert r[p] == r[k..j][p - k];
    }
  }

  lemma ReadsStandalone(r: string, a: nat, seg: Segment, b: nat, k: nat, j: nat)
    requires seg.Standalone?
    requires a < b <= |r| && r[a..b] == SegmentText(seg) && WellFormed(seg)
    requires !seg.comma ==> b == |r|
    requires k == a + |seg.lead| && j == k + |seg.head|
    requires r[a..k] == seg.lead && r[k..j] == seg.head
    requires forall p :: a <= p < k ==> r[p] == ' '
    requires forall p :: k <= p < j ==> r[p] != '=' && r[p] != ','
    ensures NextSegment(r, a) == (seg, b)
  {
    assert j == (if seg.comma then b - 1 else b);
    assert seg.comma ==> r[j] == ',' by {
      if seg.comma {
        assert r[j] == r[a..b][j - a] == SegmentText(seg)[j - a];
      }
    }
    assert seg.head != [] ==> r[k] == seg.head[0] by {
      if seg.head != [] {
        assert r[k] == r[k..j][0];
      }
    }
    SkipSpacesIs(r, a, k);
    if k < |r| {
      KeyEndIs(r, k, j);
      NextSegmentStandalone(r, a, k, j);
    } else {
      NextSegmentTrailing(r, a, k);
      assert r[a..] == r[a..k];
    }
  }

  lemma ReadsPair(r: string, a: nat, seg: Segment, b: nat, k: nat, j: nat)
    requires seg.Pair?
    requires a < b <= |r| && r[a..b] == SegmentText(seg) && WellFormed(seg)
    requires !seg.comma ==> b == |r|
    requires DataValue(seg.value)
    requires seg.comma ==>
      IsSeparator(r, b - 1) && (seg.value != [] ==> seg.value[|seg.value| - 1] != '\\')
    requires k == a + |seg.lead| && j == k + |seg.head|
    requires r[a..k] == seg.lead && r[k..j] == seg.head
    requires forall p :: a <= p < k ==> r[p] == ' '
    requires forall p :: k <= p < j ==> r[p] != '=' && r[p] != ','
    ensures NextSegment(r, a) == (seg, b)
  {
    var v := seg.value;
    var q := j + 1 + |v|;
    assert r[j + 1..q] == v && r[j] == '=' by {
      var c: string := if seg.comma then "," else "";
      var w := seg.lead + seg.head + "=";
      assert r[a..b] == w + v + c;
      SliceOfConcat(w, v, c);
      SliceOfSlice(r, a, b, |w|, |w| + |v|);
      assert r[j] == r[a..b][j - a] == w[|w| - 1];
    }
    assert SkipSpaces(r, a) == k && KeyEnd(r, k) == j by {
      if seg.head != [] {
        assert r[k] == r[k..j][0];
      }
      SkipSpacesIs(r, a, k);
      KeyEndIs(r, k, j);
    }
    assert b == if seg.comma then q + 1 else q;
    ReadsPairValue(r, a, seg, b, k, j, q);
  }

  lemma ReadsPairValue(r: string, a: nat, seg: Segment, b: nat, k: nat, j: nat, q: nat)
    requires seg.Pair?
    requires a <= k < |r| && SkipSpaces(r, a) == k && r[a..k] == seg.lead
    requires k <= j < |r| && KeyEnd(r, k) == j && r[j] == '=' && r[k..j] == seg.head
    requires q == j + 1 + |seg.value| <= |r| && r[j + 1..q] == seg.value
    requires DataValue(seg.value)
    requires (seg.comma <==> q < |r|) && b == (if seg.comma then q + 1 else q)
    requires seg.comma ==>
      IsSeparator(r, b - 1) && (seg.value != [] ==> seg.value[|seg.value| - 1] != '\\')
    ensures NextSegment(r, a) == (seg, b)
  {
    ValueEndReadsBack(r, j + 1, seg.value, q);
    NextSegmentPair(r, a, k, j);
    var got := NextSegment(r, a);
    assert got.0 == Pair(r[a..k], r[k..j], r[j + 1..q], q < |r|);
    assert got.0 == seg;
    assert got.1 == b;
  }

  lemma SliceOfConcat(x: string, y: string, z: string)
    ensures (x + y + z)[..|x|] == x
    ensures (x + y + z)[|x|..|x| + |y|] == y
  {
  }

  lemma SliceOfSlice(r: string, a: nat, b: nat, c: nat, d: nat)
    requires a <= b <= |r| && c <= d <= b - a
    ensures r[a..b][c..d] == r[a + c..a + d]
  {
    forall p | 0 <= p < d - c
      ensures r[a..b][c..d][p] == r[a + c..a + d][p]
    {
      assert r[a..b][c..d][p] == r[a + c + p];
    }
  }

  /** A value scan started at `p` over a value `v` whose commas are data ends
      right after it. */
  lemma ValueEndReadsBack(r: string, p: nat, v: string, q: nat)
    requires p + |v| == q <= |r| && r[p..q] == v
    requires DataValue(v)
    requires q < |r| ==> IsSeparator(r, q) && (v != [] ==> v[|v| - 1] != '\\')
    ensures ValueEnd(r, p) == q
  {
    if p < q && r[p] == ',' {
      DataCommaAt(r, p, v, q, p);
    }
    forall m | p < m < q && BareCommaAt(r, m)
      ensures !IsSeparator(r, m)
    {
      DataCommaAt(r, p, v, q, m);
    }
    if q < |r| && p < q {
      assert r[q - 1] == v[|v| - 1];
    }
    ValueEndOverData(r, p, q);
  }

  /** A comma of the value `v` laid out at `p` that is bare there is no separator. */
  lemma DataCommaAt(r: string, p: nat, v: string, q: nat, m: nat)
    requires p + |v| == q <= |r| && r[p..q] == v
    requires DataValue(v)
    requires q < |r| ==> r[q] == ','
    requires p <= m < q && r[m] == ',' && (m == p || r[m - 1] != '\\')
    ensures !IsSeparator(r, m)
  {
    assert r[m] == v[m - p];
    if m > p {
      assert r[m - 1] == v[m - p - 1];
    }
    assert BareCommaAt(v, m - p);
    SeparatorInValue(r, p, v, m - p);
  }

  /** The shape of the first segment of a cut of a tag: well formed and not empty;
      if it lacks a trailing comma it is the last segment; and a pair that ends in a
      comma is followed by a segment whose key is a keyword, and its value does not
      end in a backslash. */
  predicate HeadShaped(segs: seq<Segment>)
    requires segs != []
  {
    var seg := segs[0];
    && WellFormed(seg)
    && SegmentText(seg) != []
    && (!seg.comma ==> |segs| == 1)
    && (seg.Pair? && seg.comma ==>
          && 1 < |segs| && IsLikelyKey(KeyOf(segs[1]))
          && (seg.value != [] ==> seg.value[|seg.value| - 1] != '\\'))
  }

  /** Every segment has the shape of a segment of a cut. */
  predicate IsCut(segs: seq<Segment>)
    decreases |segs|
  {
    segs == [] || (HeadShaped(segs) && IsCut(segs[1..]))
  }

  /** Every pair's value holds only data commas. */
  predicate DataValues(segs: seq<Segment>)
    decreases |segs|
  {
    segs == [] || ((segs[0].Pair? ==> DataValue(segs[0].value)) && DataValues(segs[1..]))
  }

  /** A value free of bare commas holds only data commas. */
  lemma CleanIsData(v: string)
    requires !ContainsUnescapedComma(v)
    ensures DataValue(v)
  {
  }

  lemma {:induction false} CleanValuesAreData(segs: seq<Segment>)
    requires CleanValues(segs)
    ensures DataValues(segs)
    decreases |segs|
  {
    if segs != [] {
      CleanValuesAreData(segs[1..]);
      if segs[0].Pair? {
        CleanIsData(segs[0].value);
      }
    }
  }

  /** No pair holds a bare comma in its value. */
  predicate CleanValues(segs: seq<Segment>)
    decreases |segs|
  {
    segs == [] || ((segs[0].Pair? ==> !ContainsUnescapedComma(segs[0].value)) && CleanValues(segs[1..]))
  }

  /** The cut of any tag has that shape. */
  lemma {:induction false} SegmentsAreCut(s: string, i: nat)
    requires i <= |s|
    ensures IsCut(Segments(s, i))
    decreases |s| - i
  {
    if i < |s| {
      var next := NextSegment(s, i).1;
      SegmentsAreCut(s, next);
      SegmentsHeadShaped(s, i);
      SegmentsStep(s, i);
      assert Segments(s, i)[1..] == Segments(s, next);
    }
  }

  /** The first segment of the cut from `i` has the shape of a cut. */
  lemma SegmentsHeadShaped(s: string, i: nat)
    requires i < |s|
    ensures HeadShaped(Segments(s, i))
  {
    var (seg, next) := NextSegment(s, i);
    SegmentsStep(s, i);
    NextSegmentWellFormed(s, i);
    NoCommaMeansEnd(s, i);
    PairEndsAtSeparator(s, i);
    SeparatorBeforeKeyword(s, i);
    if seg.Pair? && seg.comma {
      SegmentsStep(s, next);
    }
  }

  /** Every segment of a cut is well formed. */
  lemma {:induction false} CutWellFormed(segs: seq<Segment>, t: nat)
    requires IsCut(segs) && t < |segs|
    ensures WellFormed(segs[t])
  {
    if t > 0 {
      CutWellFormed(segs[1..], t - 1);
    }
  }

  /** Splitting a tail of `r` that is the concatenation `t + u`. */
  lemma SplitText(r: string, a: nat, t: string, u: string)
    requires a <= |r| && r[a..] == t + u
    ensures a + |t| <= |r| && r[a..a + |t|] == t && r[a + |t|..] == u
  {
    assert r[a..a + |t|] == r[a..][..|t|];
    assert r[a + |t|..] == r[a..][|t|..];
  }

  /** The turns of the outer loop from `a` read exactly `segs`, ending at the end
      of the tag. */
  predicate Reads(r: string, a: nat, segs: seq<Segment>)
    requires a <= |r|
    decreases |segs|
  {
    if segs == [] then a == |r|
    else a < |r| && NextSegment(r, a).0 == segs[0] && Reads(r, NextSegment(r, a).1, segs[1..])
  }

  lemma {:induction false} ReadsSegments(r: string, a: nat, segs: seq<Segment>)
    requires a <= |r| && Reads(r, a, segs)
    ensures Segments(r, a) == segs
    decreases |segs|
  {
    if segs != [] {
      ReadsSegments(r, NextSegment(r, a).1, segs[1..]);
      SegmentsStep(r, a);
      assert segs == [segs[0]] + segs[1..];
    }
  }

  lemma ReadBack(r: string, a: nat, segs: seq<Segment>)
    requires a <= |r| && r[a..] == Join(segs)
    requires IsCut(segs) && DataValues(segs)
    ensures Segments(r, a) == segs
  {
    ReadsBack(r, a, segs);
    ReadsSegments(r, a, segs);
  }

  lemma {:induction false} ReadsBack(r: string, a: nat, segs: seq<Segment>)
    requires a <= |r| && r[a..] == Join(segs)
    requires IsCut(segs) && DataValues(segs)
    ensures Reads(r, a, segs)
    decreases |segs|
  {
    if segs == [] {
      assert r[a..] == [];
    } else {
      var b := a + |SegmentText(segs[0])|;
      SplitText(r, a, SegmentText(segs[0]), Join(segs[1..]));
      ReadsBack(r, b, segs[1..]);
      ReadHead(r, a, b, segs);
    }
  }

  /** In the step of `ReadBack`: once the rest is read back, the first turn reads
      the first segment. */
  lemma ReadHead(r: string, a: nat, b: nat, segs: seq<Segment>)
    requires a <= b <= |r| && segs != [] && r[a..b] == SegmentText(segs[0])
    requires HeadShaped(segs) && Reads(r, b, segs[1..])
    requires segs[0].Pair? ==> DataValue(segs[0].value)
    ensures NextSegment(r, a) == (segs[0], b)
  {
    var seg := segs[0];
    if seg.Pair? && seg.comma {
      assert r[b - 1] == r[a..b][b - 1 - a];
      assert b < |r|;
      assert NextSegment(r, b).0 == segs[1];
      CandidateIsNextKey(r, b);
    }
    NextSegmentReads(r, a, seg, b);
  }

  /** The cut and the layout are inverse to each other: laying out the cut of a tag
      gives the tag back, and cutting a layout of segments with the shape of a cut
      whose values hold only data commas gives those segments back. */
  lemma CutRoundTrip(s: string, segs: seq<Segment>)
    requires IsCut(segs) && DataValues(segs)
    ensures Join(Segments(s, 0)) == s
    ensures Segments(Join(segs), 0) == segs
  {
    JoinSegments(s, 0);
    assert s[0..] == s;
    var r := Join(segs);
    assert r[0..] == r;
    ReadBack(r, 0, segs);
  }

  /** The value of every pair the outer loop reads holds only data commas. */
  lemma NextSegmentDataValue(s: string, i: nat)
    requires i < |s|
    ensures NextSegment(s, i).0.Pair? ==> DataValue(NextSegment(s, i).0.value)
  {
    var k := SkipSpaces(s, i);
    if k < |s| {
      var j := KeyEnd(s, k);
      if j < |s| && s[j] == '=' {
        NextSegmentPair(s, i, k, j);
        ScannedValueIsData(s, j + 1);
      }
    }
  }

  /** The text a value scan passes over, started right after `=`, holds only data
      commas. */
  lemma ScannedValueIsData(s: string, a: nat)
    requires 1 <= a <= |s| && s[a - 1] == '='
    ensures DataValue(s[a..ValueEnd(s, a)])
  {
    var e := ValueEnd(s, a);
    var v := s[a..e];
    ValueScanStops(s, a);
    forall p | BareCommaAt(v, p)
      ensures !IsSeparator(v, p)
    {
      assert v[p] == s[a + p];
      if p > 0 {
        assert v[p - 1] == s[a + p - 1];
      }
      assert BareCommaAt(s, a + p);
      SeparatorInValue(s, a, v, p);
    }
  }

  /** Every value of the cut of a tag holds only data commas. */
  lemma {:induction false} SegmentsAreData(s: string, i: nat)
    requires i <= |s|
    ensures DataValues(Segments(s, i))
    decreases |s| - i
  {
    if i < |s| {
      var next := NextSegment(s, i).1;
      SegmentsAreData(s, next);
      NextSegmentDataValue(s, i);
      SegmentsStep(s, i);
      assert Segments(s, i)[1..] == Segments(s, next);
    }
  }

  /** The layouts the cut reads back are exactly those of segments with the shape
      of a cut whose values hold only data commas. */
  lemma CutImage(segs: seq<Segment>)
    ensures Segments(Join(segs), 0) == segs <==> IsCut(segs) && DataValues(segs)
  {
    if IsCut(segs) && DataValues(segs) {
      CutRoundTrip(Join(segs), segs);
    }
    SegmentsAreCut(Join(segs), 0);
    SegmentsAreData(Join(segs), 0);
  }
}
