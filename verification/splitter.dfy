/** The splitter (`parseKeyValuePairs`): from a tag to a map from key to raw value,
    and the bare-comma check over that map (`hasUnescapedCommas`). */
module Splitter {
  import opened Strings
  import opened Vocabulary
  import opened Commas
  import opened Scanner

  /** The value a segment stores: its raw value for a pair, empty for a standalone key. */
  function ValueOf(seg: Segment): string
  {
    if seg.Pair? then seg.value else ""
  }

  /** The segment stores its key: a pair always does, even under the empty key; a
      standalone key only when its trimmed text is not empty. */
  predicate Records(seg: Segment, k: string)
  {
    KeyOf(seg) == k && (seg.Pair? || k != "")
  }

  /** Some segment of the cut records the key `k`. */
  predicate Recorded(segs: seq<Segment>, k: string)
  {
    exists t :: 0 <= t < |segs| && Records(segs[t], k)
  }

  /** What one turn of the outer loop does to the map. */
  function Store(m: map<string, string>, seg: Segment): map<string, string>
  {
    match seg
    case Standalone(_, head, _) =>
      var key := TrimSpace(head);
      if key != "" then m[key := ""] else m
    case Pair(_, head, value, _) => m[TrimSpace(head) := value]
  }

  /** The segments stored into `m` in order. */
  function StoreAll(m: map<string, string>, segs: seq<Segment>): map<string, string>
    decreases |segs|
  {
    if segs == [] then m else StoreAll(Store(m, segs[0]), segs[1..])
  }

  /** The map the splitter builds for the tag `s`. */
  function Parse(s: string): map<string, string>
  {
    StoreAll(map[], Segments(s, 0))
  }

  /** A key ends up in the map exactly when it was there before or some segment
      records it. */
  lemma {:induction false} StoreAllDomain(m: map<string, string>, segs: seq<Segment>, k: string)
    ensures k in StoreAll(m, segs) <==> k in m || Recorded(segs, k)
    decreases |segs|
  {
    if segs != [] {
      StoreAllDomain(Store(m, segs[0]), segs[1..], k);
      if Recorded(segs[1..], k) {
        var t :| 0 <= t < |segs[1..]| && Records(segs[1..][t], k);
        assert Records(segs[t + 1], k);
      }
      if Recorded(segs, k) {
        var t :| 0 <= t < |segs| && Records(segs[t], k);
        if t > 0 {
          assert Records(segs[1..][t - 1], k);
        }
      }
    }
  }

  /** A key no segment records keeps its old value. */
  lemma {:induction false} StoreAllKeeps(m: map<string, string>, segs: seq<Segment>, k: string)
    requires k in m
    requires forall t :: 0 <= t < |segs| ==> !Records(segs[t], k)
    ensures k in StoreAll(m, segs) && StoreAll(m, segs)[k] == m[k]
    decreases |segs|
  {
    if segs != [] {
      assert !Records(segs[0], k);
      StoreAllKeeps(Store(m, segs[0]), segs[1..], k);
    }
  }

  /** The last segment that records a key decides its value: a later pair with the
      same key overwrites an earlier one. */
  lemma {:induction false} LastRecordWins(m: map<string, string>, segs: seq<Segment>, t: nat, k: string)
    requires t < |segs| && Records(segs[t], k)
    requires forall u :: t < u < |segs| ==> !Records(segs[u], k)
    ensures k in StoreAll(m, segs) && StoreAll(m, segs)[k] == ValueOf(segs[t])
    decreases |segs|
  {
    if t == 0 {
      var m' := Store(m, segs[0]);
      assert k in m' && m'[k] == ValueOf(segs[0]);
      StoreAllKeeps(m', segs[1..], k);
    } else {
      LastRecordWins(Store(m, segs[0]), segs[1..], t - 1, k);
    }
  }

  /** Keys in the map: a key is present exactly when some segment of the tag records
      it, and its value is that of the last such segment. */
  lemma ParseKeys(s: string, k: string)
    ensures k in Parse(s) <==> Recorded(Segments(s, 0), k)
  {
    StoreAllDomain(map[], Segments(s, 0), k);
  }

  /** The value under a key is the value of the last segment that records it. */
  lemma ParseValue(s: string, t: nat, k: string)
    requires t < |Segments(s, 0)| && Records(Segments(s, 0)[t], k)
    requires forall u :: t < u < |Segments(s, 0)| ==> !Records(Segments(s, 0)[u], k)
    ensures k in Parse(s) && Parse(s)[k] == ValueOf(Segments(s, 0)[t])
  {
    LastRecordWins(map[], Segments(s, 0), t, k);
  }

  /** Every key of the map is trimmed and holds no `=` and no `,`; the empty key can
      only come from a pair (`=value`), never from a standalone key. */
  lemma ParsedKeysAreClean(s: string, k: string)
    requires k in Parse(s)
    ensures TrimSpace(k) == k && '=' !in k && ',' !in k
    ensures k == "" ==> exists t :: 0 <= t < |Segments(s, 0)| && Segments(s, 0)[t].Pair?
  {
    var segs := Segments(s, 0);
    ParseKeys(s, k);
    var t :| 0 <= t < |segs| && Records(segs[t], k);
    SegmentsAreCut(s, 0);
    CutWellFormed(segs, t);
    TrimSpaceIdempotent(segs[t].head);
    TrimSpaceFacts(segs[t].head);
    assert forall c :: c in segs[t].head ==> c != '=' && c != ',';
  }

  /** Storing a cut that starts with `seg`. */
  lemma StoreAllCons(m: map<string, string>, seg: Segment, rest: seq<Segment>)
    ensures StoreAll(m, [seg] + rest) == StoreAll(Store(m, seg), rest)
  {
    assert ([seg] + rest)[1..] == rest;
  }

  /** `parseKeyValuePairs`: the outer loop skips spaces, finds the end of the key,
      and either stores a standalone key or scans a value with the shared lookahead;
      it computes exactly `Parse`. Every loop ends because its index grows. */
  method ParseKeyValuePairs(s: string) returns (result: map<string, string>)
    ensures result == Parse(s)
    ensures forall k :: k in result ==> TrimSpace(k) == k && '=' !in k && ',' !in k
  {
    result := map[];
    var i := 0;
    while i < |s|
      invariant i <= |s|
      invariant StoreAll(result, Segments(s, i)) == Parse(s)
      decreases |s| - i
    {
      ghost var i0 := i;
      ghost var m0 := result;
      SegmentsStep(s, i0);
      StoreAllCons(m0, NextSegment(s, i0).0, Segments(s, NextSegment(s, i0).1));
      i := SkipLoop(s, i);
      if i >= |s| {
        NextSegmentTrailing(s, i0, i);
        assert TrimSpace([]) == [];
        break;
      }

      var j := KeyLoop(s, i);
      if j >= |s| || s[j] == ',' {
        NextSegmentStandalone(s, i0, i, j);
        var key := TrimSpace(s[i..j]);
        if key != "" {
          result := result[key := ""];
        }
        assert result == Store(m0, NextSegment(s, i0).0);
        i := j;
        if i < |s| && s[i] == ',' {
          i := i + 1;
        }
        assert i == NextSegment(s, i0).1;
        continue;
      }

      NextSegmentPair(s, i0, i, j);
      var key := TrimSpace(s[i..j]);
      var valueStart := j + 1;
      i := ValueLoop(s, valueStart);
      var value := s[valueStart..i];
      result := result[key := value];
      assert result == Store(m0, NextSegment(s, i0).0);
      if i < |s| && s[i] == ',' {
        i := i + 1;
      }
      assert i == NextSegment(s, i0).1;
    }
    forall k | k in result
      ensures TrimSpace(k) == k && '=' !in k && ',' !in k
    {
      ParsedKeysAreClean(s, k);
    }
  }

  /** `hasUnescapedCommas`: some value in the map holds a bare comma. */
  predicate HasUnescapedCommas(s: string)
  {
    exists v :: v in Parse(s).Values && ContainsUnescapedComma(v)
  }

  /** One value with a bare comma is enough for the check to fire. */
  lemma DetectsValue(s: string, k: string)
    requires k in Parse(s) && ContainsUnescapedComma(Parse(s)[k])
    ensures HasUnescapedCommas(s)
  {
    assert Parse(s)[k] in Parse(s).Values;
  }

  /** A key made of letters only: no `=`, `,` or white space in it. */
  predicate PlainKey(k: string)
  {
    k != [] && AllLetters(k)
  }

  lemma PlainKeyFacts(k: string)
    requires PlainKey(k)
    ensures TrimSpace(k) == k
    ensures WellFormed(Standalone("", k, false))
  {
    assert IsAsciiLetter(k[0]) && IsAsciiLetter(k[|k| - 1]);
    TrimSpaceOfTrimmed(k);
  }

  /** A tag that is one segment, a pair's value holding only data commas, parses to
      what that segment stores. */
  lemma LoneSegment(seg: Segment)
    requires WellFormed(seg) && SegmentText(seg) != [] && !seg.comma
    requires seg.Pair? ==> DataValue(seg.value)
    ensures Segments(SegmentText(seg), 0) == [seg]
    ensures Parse(SegmentText(seg)) == Store(map[], seg)
  {
    var segs := [seg];
    assert segs[1..] == [];
    assert IsCut(segs) && DataValues(segs);
    assert Join(segs) == SegmentText(seg) by {
      assert SegmentText(seg) + [] == SegmentText(seg);
    }
    CutRoundTrip(SegmentText(seg), segs);
    StoreOne(seg);
  }

  /** A lone `key=value`, with a plain key and a value whose bare commas (if any)
      are all followed by text that is no keyword, parses to that one pair. */
  lemma SinglePair(k: string, v: string)
    requires PlainKey(k) && DataValue(v)
    ensures Segments(k + "=" + v, 0) == [Pair("", k, v, false)]
    ensures Parse(k + "=" + v) == map[k := v]
  {
    var seg := Pair("", k, v, false);
    PlainKeyFacts(k);
    assert WellFormed(seg);
    assert SegmentText(seg) == k + "=" + v;
    LoneSegment(seg);
  }

  /** A lone plain key parses to that key with the empty value. */
  lemma SingleKey(k: string)
    requires PlainKey(k)
    ensures Parse(k) == map[k := ""]
  {
    var seg := Standalone("", k, false);
    PlainKeyFacts(k);
    assert SegmentText(seg) == k;
    LoneSegment(seg);
  }

  lemma StoreOne(seg: Segment)
    ensures StoreAll(map[], [seg]) == Store(map[], seg)
  {
    assert [seg][1..] == [];
  }
}
