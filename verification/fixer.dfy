/** The fixer (`escapeUnescapedCommas`): the tag rewritten with every bare comma
    inside a value escaped, and what that rewrite keeps and changes. */
module Fixer {
  import opened Commas
  import opened Scanner
  import opened Splitter

  /** A segment as the fixer writes it back: a pair gets its value escaped, a
      standalone key is copied. */
  function EscapeSeg(seg: Segment): Segment
  {
    match seg
    case Standalone(_, _, _) => seg
    case Pair(lead, head, value, comma) => Pair(lead, head, EscapeCommasInValue(value), comma)
  }

  /** Every segment of a cut written back. */
  function EscapeAll(segs: seq<Segment>): (r: seq<Segment>)
    ensures |r| == |segs|
  {
    if segs == [] then [] else [EscapeSeg(segs[0])] + EscapeAll(segs[1..])
  }

  /** The written-back cut, segment by segment. */
  lemma {:induction false} EscapeAllAt(segs: seq<Segment>, t: nat)
    requires t < |segs|
    ensures EscapeAll(segs)[t] == EscapeSeg(segs[t])
  {
    if t > 0 {
      EscapeAllAt(segs[1..], t - 1);
    }
  }

  /** The tag the fixer produces for `s`. */
  function Escape(s: string): string
  {
    Join(EscapeAll(Segments(s, 0)))
  }

  lemma JoinConsSeq(segs: seq<Segment>)
    requires segs != []
    ensures Join(segs) == SegmentText(segs[0]) + Join(segs[1..])
  {
  }

  /** Writing a segment back never shortens it, and leaves it as it was exactly
      when it is clean. */
  lemma EscapeSegLength(seg: Segment)
    ensures |SegmentText(EscapeSeg(seg))| >= |SegmentText(seg)|
    ensures |SegmentText(EscapeSeg(seg))| == |SegmentText(seg)| ==> EscapeSeg(seg) == seg
    ensures EscapeSeg(seg) == seg <==> !(seg.Pair? && ContainsUnescapedComma(seg.value))
  {
  }

  /** The written-back cut is the original text exactly when every value is clean;
      otherwise it is strictly longer. */
  lemma {:induction false} JoinEscapeAll(segs: seq<Segment>)
    ensures |Join(EscapeAll(segs))| >= |Join(segs)|
    ensures Join(EscapeAll(segs)) == Join(segs) <==> CleanValues(segs)
    ensures |Join(EscapeAll(segs))| == |Join(segs)| ==> CleanValues(segs)
  {
    if segs != [] {
      var e := EscapeAll(segs);
      JoinConsSeq(segs);
      JoinConsSeq(e);
      assert e[1..] == EscapeAll(segs[1..]);
      JoinEscapeAll(segs[1..]);
      EscapeSegLength(segs[0]);
    }
  }

  /** The fix leaves the tag unchanged exactly when no pair's value holds a bare
      comma, and otherwise makes it longer. */
  lemma EscapeIdentity(s: string)
    ensures |Escape(s)| >= |s|
    ensures Escape(s) == s <==> CleanValues(Segments(s, 0))
  {
    JoinEscapeAll(Segments(s, 0));
    JoinSegments(s, 0);
    assert s[0..] == s;
  }

  /** `escapeUnescapedCommas`: the same outer loop as the splitter, writing spaces,
      keys, `=`, escaped values and separators to a builder. */
  method EscapeUnescapedCommas(s: string) returns (out: string)
    ensures out == Escape(s)
    ensures |out| >= |s|
    ensures out == s <==> CleanValues(Segments(s, 0))
  {
    out := "";
    var i := 0;
    while i < |s|
      invariant i <= |s|
      invariant out + Join(EscapeAll(Segments(s, i))) == Escape(s)
      decreases |s| - i
    {
      var piece, next := EscapeTurn(s, i);
      SegmentsStep(s, i);
      EscapeAllCons(NextSegment(s, i).0, Segments(s, next));
      JoinCons(EscapeSeg(NextSegment(s, i).0), EscapeAll(Segments(s, next)));
      out := out + piece;
      i := next;
    }
    EscapeIdentity(s);
  }

  lemma EscapeAllCons(seg: Segment, rest: seq<Segment>)
    ensures EscapeAll([seg] + rest) == [EscapeSeg(seg)] + EscapeAll(rest)
  {
  }

  /** One turn of the fixer's outer loop from `i`: what it writes to the builder
      and where the next turn starts. */
  method EscapeTurn(s: string, i: nat) returns (piece: string, next: nat)
    requires i < |s|
    ensures next == NextSegment(s, i).1
    ensures piece == SegmentText(EscapeSeg(NextSegment(s, i).0))
  {
    var k := SkipLoop(s, i);
    var lead := s[i..k];
    if k >= |s| {
      NextSegmentTrailing(s, i, k);
      return lead, k;
    }

    var j := KeyLoop(s, k);
    var head := s[k..j];
    if j >= |s| || s[j] == ',' {
      NextSegmentStandalone(s, i, k, j);
      next := j;
      piece := lead + head;
      if next < |s| && s[next] == ',' {
        piece := piece + ",";
        next := next + 1;
      }
      return;
    }

    piece, next := EscapePairTurn(s, i, k, j);
  }

  /** The part of a fixer turn after the key text ended at `=` (index `j`): write
      the spaces and the key with `=`, then the escaped value and the separator. */
  method EscapePairTurn(s: string, i: nat, k: nat, j: nat) returns (piece: string, next: nat)
    requires i < |s| && k == SkipSpaces(s, i) && k < |s| && j == KeyEnd(s, k)
    requires j < |s| && s[j] == '='
    ensures next == NextSegment(s, i).1
    ensures piece == SegmentText(EscapeSeg(NextSegment(s, i).0))
  {
    NextSegmentPair(s, i, k, j);
    var valueStart := j + 1;
    next := ValueLoop(s, valueStart);
    var value := s[valueStart..next];
    piece := s[i..k] + s[k..j] + "=" + EscapeCommasInValue(value);
    if next < |s| && s[next] == ',' {
      piece := piece + ",";
      next := next + 1;
    }
  }

  /** Writing back keeps the lead, the key text and the separator of a segment, and
      so its well-formedness and the key it names. */
  lemma EscapeSegKeeps(seg: Segment)
    ensures var e := EscapeSeg(seg);
      && e.lead == seg.lead && e.head == seg.head && e.comma == seg.comma
      && e.Pair? == seg.Pair? && KeyOf(e) == KeyOf(seg)
      && (WellFormed(seg) ==> WellFormed(e))
      && (e.Pair? ==> e.value == EscapeCommasInValue(seg.value))
  {
  }

  /** Writing back keeps the shape of a cut and leaves every value clean. */
  lemma {:induction false} EscapeAllIsCut(segs: seq<Segment>)
    ensures IsCut(segs) ==> IsCut(EscapeAll(segs))
    ensures CleanValues(EscapeAll(segs))
  {
    if segs != [] {
      var e := EscapeAll(segs);
      assert e[1..] == EscapeAll(segs[1..]);
      EscapeAllIsCut(segs[1..]);
      EscapeSegKeeps(segs[0]);
      EscapeSegLength(segs[0]);
      if segs[0].Pair? {
        EscapeKeepsLast(segs[0].value);
      }
      if 1 < |segs| {
        EscapeAllAt(segs, 1);
        EscapeSegKeeps(segs[1]);
      }
    }
  }

  /** The fixed tag is cut into the original segments with their values escaped:
      no escaped value hides a separator, and every separator still names the same
      keyword. */
  lemma EscapedCut(s: string)
    ensures Segments(Escape(s), 0) == EscapeAll(Segments(s, 0))
  {
    SegmentsAreCut(s, 0);
    EscapeAllIsCut(Segments(s, 0));
    CleanValuesAreData(EscapeAll(Segments(s, 0)));
    var r := Escape(s);
    assert r[0..] == r;
    ReadBack(r, 0, EscapeAll(Segments(s, 0)));
  }

  /** Every value of a map escaped. */
  function EscapeValues(m: map<string, string>): (r: map<string, string>)
    ensures r.Keys == m.Keys
    ensures forall k :: k in r ==> !ContainsUnescapedComma(r[k])
  {
    map k | k in m :: EscapeCommasInValue(m[k])
  }

  /** Storing a written-back segment into an escaped map gives the escaped map of
      storing the segment itself. */
  lemma StoreEscaped(m: map<string, string>, seg: Segment)
    ensures Store(EscapeValues(m), EscapeSeg(seg)) == EscapeValues(Store(m, seg))
  {
    var key := KeyOf(seg);
    var v := ValueOf(seg);
    assert EscapeCommasInValue("") == "" by {
      assert !BareCommaFrom("", 0);
    }
    if seg.Pair? || key != "" {
      EscapeUpdate(m, key, v);
    }
  }

  lemma EscapeUpdate(m: map<string, string>, key: string, v: string)
    ensures EscapeValues(m)[key := EscapeCommasInValue(v)] == EscapeValues(m[key := v])
  {
    var l := EscapeValues(m)[key := EscapeCommasInValue(v)];
    var r := EscapeValues(m[key := v]);
    assert l.Keys == r.Keys;
    forall k | k in l ensures l[k] == r[k] {
    }
  }

  /** Storing a written-back cut into an escaped map escapes every stored value. */
  lemma {:induction false} StoreAllEscaped(m: map<string, string>, segs: seq<Segment>)
    ensures StoreAll(EscapeValues(m), EscapeAll(segs)) == EscapeValues(StoreAll(m, segs))
    decreases |segs|
  {
    if segs != [] {
      var e := EscapeAll(segs);
      assert e[1..] == EscapeAll(segs[1..]);
      StoreEscaped(m, segs[0]);
      StoreAllEscaped(Store(m, segs[0]), segs[1..]);
    }
  }

  /** The splitter reads the fixed tag as the same keys, each with its value
      escaped. */
  lemma ParseOfEscape(s: string)
    ensures Parse(Escape(s)) == EscapeValues(Parse(s))
  {
    EscapedCut(s);
    assert EscapeValues(map[]) == map[];
    StoreAllEscaped(map[], Segments(s, 0));
  }

  /** The fixed tag passes the bare-comma check. */
  lemma FixedTagIsClean(s: string)
    ensures !HasUnescapedCommas(Escape(s))
  {
    ParseOfEscape(s);
  }

  /** When the check finds a bare comma, the fix changes the tag. */
  lemma DetectionMeansChange(s: string)
    ensures HasUnescapedCommas(s) ==> Escape(s) != s
  {
    FixedTagIsClean(s);
  }

  /** Fixing a fixed tag changes nothing more. */
  lemma EscapeIdempotent(s: string)
    ensures Escape(Escape(s)) == Escape(s)
  {
    EscapedCut(s);
    EscapeAllIsCut(Segments(s, 0));
    EscapeIdentity(Escape(s));
  }

  /** The fix of a lone `key=value` escapes just that value. */
  lemma EscapeLonePair(k: string, v: string)
    requires PlainKey(k) && DataValue(v)
    ensures Escape(k + "=" + v) == k + "=" + EscapeCommasInValue(v)
  {
    var seg := Pair("", k, v, false);
    SinglePair(k, v);
    EscapeOfOne(k + "=" + v, seg);
    PairText(k, EscapeCommasInValue(v));
  }

  lemma PairText(k: string, e: string)
    ensures SegmentText(Pair("", k, e, false)) == k + "=" + e
  {
    assert SegmentText(Pair("", k, e, false)) == "" + k + "=" + e + "";
  }

  lemma EscapeOfOne(s: string, seg: Segment)
    requires Segments(s, 0) == [seg]
    ensures Escape(s) == SegmentText(EscapeSeg(seg))
  {
    assert [seg][1..] == [];
    assert EscapeAll([seg]) == [EscapeSeg(seg)];
    assert Join([EscapeSeg(seg)]) == SegmentText(EscapeSeg(seg)) + [];
  }
}
