/** Three tags worked through the model: one where the bare-comma check and the
    fixer disagree, the tag quoted in the analyzer's own documentation, and a
    description whose comma is data and is reported. */
module Examples {
  import opened Strings
  import opened Vocabulary
  import opened Commas
  import opened Scanner
  import opened Splitter
  import opened Fixer
  import opened TagCheck

  /** `if` is a keyword. */
  lemma IfIsKey()
    ensures IsLikelyKey("if")
  {
    assert Keywords[19] == "if";
    IsLikelyKeyIsMembership("if");
  }

  /** A tag that names `if` twice: first with the value `1,2`, whose comma is bare
      (its lookahead `2` is no keyword), then as a standalone key. */
  const Overwrite: string := "if=1,2,if"

  /** The value after the first `=` runs up to the comma before the second `if`. */
  lemma OverwriteValueEnd()
    ensures ValueEnd(Overwrite, 3) == 6
  {
    var s := Overwrite;
    assert KeyEnd(s, 5) == 6 && s[5..6] == "2" && TrimSpace("2") == "2";
    assert !IsLikelyKey("2");
    assert KeyEnd(s, 7) == 9 && s[7..9] == "if" && TrimSpace("if") == "if";
    IfIsKey();
    assert ValueEnd(s, 6) == 6;
  }

  lemma OverwriteFirst()
    ensures NextSegment(Overwrite, 0) == (Pair("", "if", "1,2", true), 7)
  {
    var s := Overwrite;
    OverwriteFirstKey();
    OverwriteValueEnd();
    NextSegmentPair(s, 0, 0, 2);
    OverwritePieces();
  }

  lemma OverwritePieces()
    ensures Overwrite[0..0] == "" && Overwrite[0..2] == "if" && Overwrite[3..6] == "1,2"
  {
    assert Overwrite[3..6] == [Overwrite[3], Overwrite[4], Overwrite[5]];
  }

  lemma OverwriteFirstKey()
    ensures SkipSpaces(Overwrite, 0) == 0 && KeyEnd(Overwrite, 0) == 2 && Overwrite[2] == '='
  {
  }

  lemma OverwriteSecond()
    ensures NextSegment(Overwrite, 7) == (Standalone("", "if", false), 9)
  {
    var s := Overwrite;
    assert SkipSpaces(s, 7) == 7 && KeyEnd(s, 7) == 9;
    NextSegmentStandalone(s, 7, 7, 9);
    assert s[7..7] == "" && s[7..9] == "if";
  }

  lemma OverwriteCut()
    ensures Segments(Overwrite, 0) == [Pair("", "if", "1,2", true), Standalone("", "if", false)]
  {
    OverwriteFirst();
    OverwriteSecond();
    SegmentsStep(Overwrite, 0);
    SegmentsStep(Overwrite, 7);
  }

  /** The standalone `if` overwrites the first value with the empty one. */
  lemma OverwriteParse()
    ensures Parse(Overwrite) == map["if" := ""]
  {
    OverwriteCut();
    OverwriteStore(Segments(Overwrite, 0));
  }

  lemma OverwriteStore(segs: seq<Segment>)
    requires segs == [Pair("", "if", "1,2", true), Standalone("", "if", false)]
    ensures StoreAll(map[], segs) == map["if" := ""]
  {
    assert TrimSpace("if") == "if";
    var m1 := Store(map[], segs[0]);
    var m2 := Store(m1, segs[1]);
    assert m2 == map["if" := ""];
    assert StoreAll(map[], segs) == StoreAll(m1, segs[1..]);
    assert StoreAll(m1, segs[1..]) == StoreAll(m2, segs[1..][1..]);
    assert segs[1..][1..] == [];
  }

  lemma OverwriteDetect()
    ensures !HasUnescapedCommas(Overwrite)
  {
    OverwriteParse();
    OnlyEmptyValue(Parse(Overwrite));
  }

  lemma OnlyEmptyValue(m: map<string, string>)
    requires m == map["if" := ""]
    ensures forall v :: v in m.Values ==> !ContainsUnescapedComma(v)
  {
    assert !BareCommaFrom("", 0);
    forall v | v in m.Values ensures v == "" {
      var k :| k in m && m[k] == v;
    }
  }

  lemma OverwriteFix()
    ensures Escape(Overwrite) != Overwrite
  {
    OverwriteCut();
    assert BareCommaAt("1,2", 1);
    EscapeIdentity(Overwrite);
  }

  /** The bare comma of an overwritten value escapes the check, because the check
      only sees the map, yet the fixer, which walks the tag itself, still rewrites
      the tag. */
  lemma OverwrittenValue()
    ensures Parse(Overwrite) == map["if" := ""]
    ensures !HasUnescapedCommas(Overwrite)
    ensures Escape(Overwrite) != Overwrite
  {
    OverwriteParse();
    OverwriteDetect();
    OverwriteFix();
  }

  /** The tag of the analyzer's own documentation,
      `title=Deprecation Date,description=The exact date\\, when deprecated.`,
      laid out from its two pairs. */
  const DocumentedCut: seq<Segment> := [
    Pair("", "title", "Deprecation Date", true),
    Pair("", "description", DocumentedValue, false)
  ]

  const DocumentedValue: string := "The exact date" + "\\\\," + " when deprecated."

  function Documented(): string
  {
    Join(DocumentedCut)
  }

  lemma TitleIsKey()
    ensures IsLikelyKey("title")
  {
    assert Keywords[39] == "title";
    IsLikelyKeyIsMembership("title");
  }

  lemma DescriptionIsKey()
    ensures IsLikelyKey("description")
  {
    assert Keywords[11] == "description";
    IsLikelyKeyIsMembership("description");
  }

  /** A value whose commas all sit behind a backslash holds no bare comma. */
  lemma OneEscapedComma(x: string, y: string)
    requires ',' !in x && ',' !in y
    ensures !ContainsUnescapedComma(x + "\\\\," + y)
  {
    var d := x + "\\\\," + y;
    assert forall i :: 0 <= i < |d| && d[i] == ',' ==> i == |x| + 2;
  }

  lemma DocumentedValuesClean()
    ensures !ContainsUnescapedComma("Deprecation Date")
    ensures !ContainsUnescapedComma(DocumentedValue)
  {
    assert !BareCommaFrom("Deprecation Date", 0);
    OneEscapedComma("The exact date", " when deprecated.");
  }

  lemma DocumentedSecondShaped()
    ensures IsCut(DocumentedCut[1..])
  {
    var segs := DocumentedCut[1..];
    assert segs[1..] == [];
    assert SegmentText(segs[0]) != [];
  }

  lemma DocumentedFirstShaped()
    ensures HeadShaped(DocumentedCut)
  {
    DescriptionIsKey();
    assert TrimSpace("description") == "description";
    assert WellFormed(DocumentedCut[0]);
  }

  lemma DocumentedIsCut()
    ensures IsCut(DocumentedCut) && CleanValues(DocumentedCut)
  {
    DocumentedFirstShaped();
    DocumentedSecondShaped();
    DocumentedValuesClean();
    assert DocumentedCut[1..][1..] == [];
  }

  /** The documented tag is cut into exactly its two pairs. */
  lemma DocumentedSegments()
    ensures Segments(Documented(), 0) == DocumentedCut
  {
    DocumentedIsCut();
    CleanValuesAreData(DocumentedCut);
    CutRoundTrip(Documented(), DocumentedCut);
  }

  /** The documented tag splits into its title and its description. */
  lemma DocumentedParse()
    ensures Parse(Documented()) == map["title" := "Deprecation Date", "description" := DocumentedValue]
  {
    DocumentedSegments();
    DocumentedStore(DocumentedCut);
  }

  /** Storing the two pairs. */
  lemma DocumentedStore(segs: seq<Segment>)
    requires segs == DocumentedCut
    ensures StoreAll(map[], segs) == map["title" := "Deprecation Date", "description" := DocumentedValue]
  {
    assert TrimSpace("title") == "title";
    assert TrimSpace("description") == "description";
    var m1 := Store(map[], segs[0]);
    assert m1 == map["title" := "Deprecation Date"];
    var m2 := Store(m1, segs[1]);
    assert StoreAll(map[], segs) == StoreAll(m1, segs[1..]);
    assert StoreAll(m1, segs[1..]) == StoreAll(m2, segs[1..][1..]);
    assert segs[1..][1..] == [];
  }

  /** The documented tag draws no report: no bare comma, no unknown key. */
  lemma DocumentedIsClean()
    ensures !HasUnescapedCommas(Documented())
    ensures UnknownKeysOf(Documented()) == {}
    ensures CheckSchema(Documented()) == Clean
  {
    DocumentedParse();
    DocumentedMapClean(Parse(Documented()));
  }

  /** Both values are clean and both keys are keywords. */
  lemma DocumentedMapClean(m: map<string, string>)
    requires m == map["title" := "Deprecation Date", "description" := DocumentedValue]
    ensures forall v :: v in m.Values ==> !ContainsUnescapedComma(v)
    ensures forall k :: k in m ==> k in AllowedKeys
  {
    DocumentedValuesClean();
    TitleIsKey();
    DescriptionIsKey();
    IsLikelyKeyIsMembership("title");
    IsLikelyKeyIsMembership("description");
    forall v | v in m.Values ensures !ContainsUnescapedComma(v) {
      var k :| k in m && m[k] == v;
    }
  }

  /** A comma followed by text that is no keyword is data, and bare unless a
      backslash precedes it. */
  lemma CommaBeforeNonKeyword(x: string, y: string)
    requires ',' !in x && ',' !in y && '=' !in y
    requires x == [] || x[|x| - 1] != '\\'
    requires TrimSpace(y) != [] && TrimSpace(y)[0] !in Initials
    ensures DataValue(x + "," + y) && ContainsUnescapedComma(x + "," + y)
  {
    var v := x + "," + y;
    assert BareCommaAt(v, |x|);
    forall m | |x| + 1 <= m < |v|
      ensures v[m] != '=' && v[m] != ','
    {
      assert v[m] == y[m - |x| - 1];
    }
    KeyEndIs(v, |x| + 1, |v|);
    assert v[|x| + 1..|v|] == y;
    InitialRulesOut(TrimSpace(y));
    forall p | 0 <= p < |v| && p != |x|
      ensures v[p] != ','
    {
      if p < |x| {
        assert v[p] == x[p];
      } else {
        assert v[p] == y[p - |x| - 1];
      }
    }
  }

  /** `description=Hello, world,title=X`: the first comma is data inside the
      description (its lookahead `world` is no keyword), the second separates the
      pairs (its lookahead `title` is one). */
  const HelloValue: string := "Hello" + "," + " world"

  const HelloCut: seq<Segment> := [
    Pair("", "description", HelloValue, true),
    Pair("", "title", "X", false)
  ]

  function Hello(): string
  {
    Join(HelloCut)
  }

  lemma HelloValueIsData()
    ensures DataValue(HelloValue) && ContainsUnescapedComma(HelloValue)
  {
    assert TrimSpace(" world") == "world";
    CommaBeforeNonKeyword("Hello", " world");
  }

  lemma HelloFirstShaped()
    ensures HeadShaped(HelloCut)
  {
    TitleIsKey();
    assert TrimSpace("title") == "title";
    assert WellFormed(HelloCut[0]);
  }

  lemma HelloSecondShaped()
    ensures IsCut(HelloCut[1..])
  {
    var segs := HelloCut[1..];
    assert segs[1..] == [];
    assert SegmentText(segs[0]) != [];
  }

  lemma HelloIsCut()
    ensures IsCut(HelloCut) && DataValues(HelloCut)
  {
    HelloFirstShaped();
    HelloSecondShaped();
    HelloValueIsData();
    assert !BareCommaFrom("X", 0);
    CleanIsData("X");
    assert HelloCut[1..][1..] == [];
  }

  /** The tag is cut at its second comma only. */
  lemma HelloSegments()
    ensures Segments(Hello(), 0) == HelloCut
  {
    HelloIsCut();
    CutRoundTrip(Hello(), HelloCut);
  }

  /** The description keeps its comma. */
  lemma HelloParse()
    ensures Parse(Hello()) == map["description" := HelloValue, "title" := "X"]
  {
    HelloSegments();
    HelloStore(HelloCut);
  }

  lemma HelloStore(segs: seq<Segment>)
    requires segs == HelloCut
    ensures StoreAll(map[], segs) == map["description" := HelloValue, "title" := "X"]
  {
    assert TrimSpace("title") == "title";
    assert TrimSpace("description") == "description";
    var m1 := Store(map[], segs[0]);
    var m2 := Store(m1, segs[1]);
    assert StoreAll(map[], segs) == StoreAll(m1, segs[1..]);
    assert StoreAll(m1, segs[1..]) == StoreAll(m2, segs[1..][1..]);
    assert segs[1..][1..] == [];
  }

  /** The fix escapes the data comma and leaves the separator alone. */
  const HelloFixedCut: seq<Segment> := [
    Pair("", "description", "Hello" + "\\\\," + " world", true),
    Pair("", "title", "X", false)
  ]

  lemma HelloEscapeAll(segs: seq<Segment>)
    requires segs == HelloCut
    ensures EscapeAll(segs) == HelloFixedCut
  {
    EscapeOneComma("Hello", " world");
    assert !BareCommaFrom("X", 0);
    assert EscapeCommasInValue("X") == "X";
    assert segs[1..][1..] == [];
  }

  /** The bare data comma is reported, and the suggested fix is the tag with that
      comma escaped. */
  lemma HelloFinding()
    ensures HasUnescapedCommas(Hello())
    ensures CheckSchema(Hello()) == UnescapedComma(Join(HelloFixedCut))
  {
    HelloDetect();
    HelloFix();
  }

  lemma HelloDetect()
    ensures HasUnescapedCommas(Hello())
  {
    HelloParse();
    HelloDetectIn(Hello());
  }

  lemma HelloDetectIn(s: string)
    requires Parse(s) == map["description" := HelloValue, "title" := "X"]
    ensures HasUnescapedCommas(s)
  {
    HelloValueIsData();
    DetectsValue(s, "description");
  }

  lemma HelloFix()
    ensures Escape(Hello()) == Join(HelloFixedCut)
  {
    HelloSegments();
    HelloEscapeAll(Segments(Hello(), 0));
  }
}
