/** The per-field decision of the analyzer (`noCommasRun` without the syntax-tree
    walk and the diagnostics): pull the `jsonschema:"..."` value out of a struct
    tag (`parseTagValue`), then report a bare comma with its fix, or else the keys
    outside the vocabulary. */
module TagCheck {
  import opened Strings
  import opened Vocabulary
  import opened Commas
  import opened Scanner
  import opened Splitter
  import opened Fixer

  /** Drops the character `c` from the front. */
  function TrimLeftChar(s: string, c: char): (r: string)
    ensures |r| <= |s| && r == s[|s| - |r|..]
    ensures forall p :: 0 <= p < |s| - |r| ==> s[p] == c
    ensures r != [] ==> r[0] != c
  {
    if s != [] && s[0] == c then TrimLeftChar(s[1..], c) else s
  }

  /** Drops the character `c` from the back. */
  function TrimRightChar(s: string, c: char): (r: string)
    ensures |r| <= |s| && r == s[..|r|]
    ensures forall p :: |r| <= p < |s| ==> s[p] == c
    ensures r != [] ==> r[|r| - 1] != c
  {
    if s != [] && s[|s| - 1] == c then TrimRightChar(s[..|s| - 1], c) else s
  }

  /** `strings.Trim(s, "`")`: the field's tag literal without its backquotes. */
  function TrimBackquotes(s: string): string
  {
    TrimRightChar(TrimLeftChar(s, '`'), '`')
  }

  /** The trimmed literal is a slice of the raw one with only backquotes cut off on
      either side, and it neither starts nor ends with a backquote. */
  lemma TrimBackquotesFacts(s: string)
    ensures var r := TrimBackquotes(s);
      && (r != [] ==> r[0] != '`' && r[|r| - 1] != '`')
      && (exists a, b :: 0 <= a <= b <= |s| && r == s[a..b]
            && (forall k :: 0 <= k < a ==> s[k] == '`')
            && (forall k :: b <= k < |s| ==> s[k] == '`'))
  {
    TrimBackquotesEnds(s);
    TrimBackquotesSlice(s);
  }

  lemma TrimBackquotesEnds(s: string)
    ensures var r := TrimBackquotes(s);
      r != [] ==> r[0] != '`' && r[|r| - 1] != '`'
  {
    var l := TrimLeftChar(s, '`');
    var r := TrimRightChar(l, '`');
    assert r != [] ==> r[0] == l[0];
  }

  lemma TrimBackquotesSlice(s: string)
    ensures var r := TrimBackquotes(s);
      exists a, b :: 0 <= a <= b <= |s| && r == s[a..b]
        && (forall k :: 0 <= k < a ==> s[k] == '`')
        && (forall k :: b <= k < |s| ==> s[k] == '`')
  {
    var l := TrimLeftChar(s, '`');
    TrimmedSlice(s, l, TrimRightChar(l, '`'));
  }

  /** A suffix `l` of `s` and a prefix `r` of `l`, cut off at backquotes only. */
  lemma TrimmedSlice(s: string, l: string, r: string)
    requires |l| <= |s| && l == s[|s| - |l|..]
    requires forall p :: 0 <= p < |s| - |l| ==> s[p] == '`'
    requires |r| <= |l| && r == l[..|r|]
    requires forall p :: |r| <= p < |l| ==> l[p] == '`'
    ensures exists a, b :: 0 <= a <= b <= |s| && r == s[a..b]
              && (forall k :: 0 <= k < a ==> s[k] == '`')
              && (forall k :: b <= k < |s| ==> s[k] == '`')
  {
    var a := |s| - |l|;
    var b := a + |r|;
    assert r == s[a..b];
    forall k | b <= k < |s|
      ensures s[k] == '`'
    {
      assert s[k] == l[k - a];
    }
  }

  /** A backquoted literal whose text neither starts nor ends with a backquote
      loses exactly its two quotes. */
  lemma TrimBackquotesOfLiteral(t: string)
    requires t != [] && t[0] != '`' && t[|t| - 1] != '`'
    ensures TrimBackquotes("`" + t + "`") == t
  {
    var u := t + "`";
    assert "`" + t + "`" == "`" + u;
    TrimLeftOnce(u);
    TrimRightOnce(t);
  }

  lemma TrimLeftOnce(t: string)
    requires t != [] && t[0] != '`'
    ensures TrimLeftChar("`" + t, '`') == t
  {
    assert ("`" + t)[1..] == t;
  }

  lemma TrimRightOnce(t: string)
    requires t != [] && t[|t| - 1] != '`'
    ensures TrimRightChar(t + "`", '`') == t
  {
    assert (t + "`")[..|t|] == t;
  }

  /** `parseTagValue`: the text between the quotes after the first `key:` in the
      tag, or empty when `key:` is missing, is not followed by a quote, or the
      quote is never closed. */
  function ParseTagValue(tag: string, key: string): string
  {
    var prefix := key + ":";
    var start := Index(tag, prefix);
    if start == -1 then ""
    else
      var st := start + |prefix|;
      if st >= |tag| || tag[st] != '"' then ""
      else
        var end := Index(tag[st + 1..], "\"");
        if end == -1 then "" else tag[st + 1..st + 1 + end]
  }

  /** `key:"` occurs where `key:` does exactly when a quote follows it. */
  lemma QuoteAfterPrefix(tag: string, key: string, p: nat)
    requires OccursAt(tag, key + ":", p)
    ensures OccursAt(tag, key + ":\"", p) <==> p + |key| + 1 < |tag| && tag[p + |key| + 1] == '"'
  {
    var st := p + |key| + 1;
    assert key + ":\"" == (key + ":") + ['"'];
    if st < |tag| {
      assert tag[p..st + 1] == tag[p..st] + [tag[st]];
    }
  }

  /** The cases of `parseTagValue`: empty when `key:` is missing, when it is not
      followed by a quote, or when no quote closes the value; otherwise the text up
      to the closing quote, which holds no quote, so that `key:"` + result + `"`
      occurs at the first `key:`. */
  lemma ParseTagValueCases(tag: string, key: string)
    ensures var r := ParseTagValue(tag, key);
      var p := Index(tag, key + ":");
      && (p == -1 ==> r == "")
      && (p != -1 && !OccursAt(tag, key + ":\"", p) ==> r == "")
      && (p != -1 && OccursAt(tag, key + ":\"", p) ==>
            var rest := tag[p + |key| + 2..];
            && ('"' !in rest ==> r == "")
            && ('"' in rest ==> '"' !in r && OccursAt(tag, key + ":\"" + r + "\"", p)))
  {
    var p := Index(tag, key + ":");
    if p != -1 {
      QuoteAfterPrefix(tag, key, p);
      var st := p + |key| + 1;
      if st < |tag| && tag[st] == '"' {
        ParseTagValueQuoted(tag, key, p);
      }
    }
  }

  lemma ParseTagValueQuoted(tag: string, key: string, p: nat)
    requires p == Index(tag, key + ":") && p + |key| + 1 < |tag| && tag[p + |key| + 1] == '"'
    ensures var r := ParseTagValue(tag, key);
      var rest := tag[p + |key| + 2..];
      && ('"' !in rest ==> r == "")
      && ('"' in rest ==> '"' !in r && OccursAt(tag, key + ":\"" + r + "\"", p))
  {
    var st := p + |key| + 1;
    var rest := tag[st + 1..];
    var end := Index(rest, "\"");
    assert ParseTagValue(tag, key) == if end == -1 then "" else tag[st + 1..st + 1 + end];
    assert "\"" == ['"'];
    IndexOfChar(rest, '"');
    if end != -1 {
      var r := tag[st + 1..st + 1 + end];
      assert r == rest[..end];
      assert tag[st + 1 + end] == rest[end];
      QuotedOccurs(tag, key, p, r);
    }
  }

  /** `key:`, a quote, `r` and a quote laid out from index `p`. */
  lemma QuotedOccurs(tag: string, key: string, p: nat, r: string)
    requires OccursAt(tag, key + ":", p)
    requires p + |key| + 2 + |r| < |tag| && tag[p + |key| + 1] == '"'
    requires tag[p + |key| + 2..p + |key| + 2 + |r|] == r && tag[p + |key| + 2 + |r|] == '"'
    ensures OccursAt(tag, key + ":\"" + r + "\"", p)
  {
    var st := p + |key| + 1;
    var e := st + 1 + |r|;
    assert tag[p..e + 1] == tag[p..st] + [tag[st]] + tag[st + 1..e] + [tag[e]];
    assert key + ":\"" + r + "\"" == (key + ":") + ['"'] + r + ['"'];
  }

  /** A tag that starts with `key:"v"`, for a `v` without quotes, yields `v`. */
  lemma ParseTagValueRoundTrip(key: string, v: string, rest: string)
    requires '"' !in v
    ensures ParseTagValue(key + ":\"" + v + "\"" + rest, key) == v
  {
    var tag := key + ":\"" + v + "\"" + rest;
    var tail := tag[|key| + 2..];
    PrefixAtStart(key, v, rest);
    assert tail[|v|] == '"';
    ParseTagValueQuoted(tag, key, 0);
    var r := ParseTagValue(tag, key);
    QuotedAtStart(tag, key, r);
    QuoteFreePrefix(tail, v, r);
  }

  lemma PrefixAtStart(key: string, v: string, rest: string)
    ensures var tag := key + ":\"" + v + "\"" + rest;
      && Index(tag, key + ":") == 0 && |key| + 1 < |tag| && tag[|key| + 1] == '"'
      && tag[|key| + 2..] == v + "\"" + rest
  {
    var tag := key + ":\"" + v + "\"" + rest;
    assert tag[..|key| + 1] == key + ":";
    assert OccursAt(tag, key + ":", 0);
  }

  lemma QuotedAtStart(tag: string, key: string, r: string)
    requires OccursAt(tag, key + ":\"" + r + "\"", 0)
    ensures var tail := tag[|key| + 2..];
      |r| < |tail| && tail[..|r|] == r && tail[|r|] == '"'
  {
    var w := key + ":\"" + r + "\"";
    assert tag[..|w|] == w;
    assert w[|key| + 2..] == r + "\"";
  }

  /** Two quote-free texts that are both followed by a quote at the start of `t`
      are the same text. */
  lemma QuoteFreePrefix(t: string, v: string, r: string)
    requires '"' !in v && '"' !in r
    requires |v| < |t| && t[..|v|] == v && t[|v|] == '"'
    requires |r| < |t| && t[..|r|] == r && t[|r|] == '"'
    ensures v == r
  {
  }

  /** The outcome of checking one field. */
  datatype Verdict =
    | NoSchemaTag                          // no `jsonschema:"..."` value, or an empty one
    | UnescapedComma(fixed: string)        // a value holds a bare comma; `fixed` is the suggested value
    | UnknownKeys(keys: set<string>)       // keys outside the vocabulary (one of them is reported)
    | Clean

  /** The keys of the tag value that are not in the vocabulary. */
  function UnknownKeysOf(js: string): (u: set<string>)
    ensures forall k :: k in u ==> k in Parse(js) && !IsLikelyKey(k)
    ensures forall k :: k in Parse(js) && k !in u ==> IsLikelyKey(k)
  {
    var u := set k | k in Parse(js) && k !in AllowedKeys;
    forall k | k in Parse(js)
      ensures k in u <==> !IsLikelyKey(k)
    {
      IsLikelyKeyIsMembership(k);
    }
    u
  }

  /** The check of a non-empty `jsonschema` value: a bare comma is reported first
      (with the fixed value), and only a value free of them is checked for unknown
      keys. */
  function CheckSchema(js: string): (v: Verdict)
    ensures v.UnescapedComma? <==> HasUnescapedCommas(js)
    ensures v.UnescapedComma? ==>
      && v.fixed == Escape(js)
      && v.fixed != js && !HasUnescapedCommas(v.fixed)
      && Parse(v.fixed).Keys == Parse(js).Keys
    ensures !v.UnescapedComma? ==> (v.Clean? <==> UnknownKeysOf(js) == {})
    ensures v.UnknownKeys? ==> v.keys == UnknownKeysOf(js) && v.keys != {}
    ensures v.UnknownKeys? ==> forall k :: k in v.keys ==> k in Parse(js) && !IsLikelyKey(k)
    ensures v.Clean? ==> forall k :: k in Parse(js) ==> IsLikelyKey(k) && !ContainsUnescapedComma(Parse(js)[k])
    ensures !v.NoSchemaTag?
  {
    if HasUnescapedCommas(js) then
      DetectionMeansChange(js);
      FixedTagIsClean(js);
      ParseOfEscape(js);
      UnescapedComma(Escape(js))
    else
      var u := UnknownKeysOf(js);
      if u == {} then Clean else UnknownKeys(u)
  }

  /** The tag key the analyzer looks for. */
  const SchemaKey: string := "jsonschema"

  /** The whole per-field decision for the raw tag literal of a struct field. */
  function Check(raw: string): (v: Verdict)
    ensures v.NoSchemaTag? <==> ParseTagValue(TrimBackquotes(raw), SchemaKey) == ""
  {
    var tag := TrimBackquotes(raw);
    var js := ParseTagValue(tag, SchemaKey);
    if js == "" then NoSchemaTag else CheckSchema(js)
  }

  /** A field tagged `` `jsonschema:"X"` `` is checked on `X`. */
  lemma CheckOfLiteral(js: string)
    requires js != "" && '"' !in js
    ensures Check("`" + (SchemaKey + ":\"" + js + "\"") + "`") == CheckSchema(js)
  {
    var t := SchemaKey + ":\"" + js + "\"";
    assert t[0] == 'j' && t[|t| - 1] == '"';
    TrimBackquotesOfLiteral(t);
    ParseTagValueRoundTrip(SchemaKey, js, "");
    assert t + "" == t;
  }

  /** Applying the suggested fix settles the comma finding: checking the fixed
      value reports no bare comma, and reports exactly the unknown keys that the
      early return hid. It follows from the contract of `CheckSchema`: the fix is
      `Escape(js)`, which is clean and keeps the keys, and the verdict on a clean
      value is decided by its unknown keys alone. */
  lemma FixSettlesCommaFinding(js: string)
    requires CheckSchema(js).UnescapedComma?
    ensures var w := CheckSchema(CheckSchema(js).fixed);
      && !w.UnescapedComma?
      && (w.Clean? <==> UnknownKeysOf(js) == {})
      && (w.UnknownKeys? ==> w.keys == UnknownKeysOf(js))
  {
  }

  /** The verdict on a value whose map has no bare comma: clean when every key is a
      keyword, otherwise the unknown keys. */
  lemma VerdictOfCleanMap(js: string, m: map<string, string>)
    requires m == Parse(js)
    requires forall k :: k in m ==> !ContainsUnescapedComma(m[k])
    ensures CheckSchema(js) == if UnknownKeysOf(js) == {} then Clean else UnknownKeys(UnknownKeysOf(js))
  {
    forall v | v in m.Values ensures !ContainsUnescapedComma(v) {
      var k :| k in m && m[k] == v;
    }
  }

  /** A lone `key=value` with a keyword key and a value free of bare commas is
      clean; with any other plain key it is reported as that one unknown key. */
  lemma SinglePairVerdict(k: string, v: string)
    requires PlainKey(k) && !ContainsUnescapedComma(v)
    ensures IsLikelyKey(k) ==> CheckSchema(k + "=" + v) == Clean
    ensures !IsLikelyKey(k) ==> CheckSchema(k + "=" + v) == UnknownKeys({k})
  {
    var js := k + "=" + v;
    CleanIsData(v);
    SinglePair(k, v);
    VerdictOfCleanMap(js, Parse(js));
    assert UnknownKeysOf(js) == if IsLikelyKey(k) then {} else {k};
  }

  /** A lone keyword is clean; any other plain word is reported as unknown. */
  lemma SingleKeyVerdict(k: string)
    requires PlainKey(k)
    ensures IsLikelyKey(k) ==> CheckSchema(k) == Clean
    ensures !IsLikelyKey(k) ==> CheckSchema(k) == UnknownKeys({k})
  {
    SingleKey(k);
    assert !BareCommaFrom("", 0);
    VerdictOfCleanMap(k, Parse(k));
    assert UnknownKeysOf(k) == if IsLikelyKey(k) then {} else {k};
  }

  /** A lone `key=value` whose value holds a bare comma that is data (its lookahead
      is no keyword) is read as one pair and reported, with that one value escaped
      as the fix. */
  lemma SinglePairFinding(k: string, v: string)
    requires PlainKey(k) && DataValue(v) && ContainsUnescapedComma(v)
    ensures HasUnescapedCommas(k + "=" + v)
    ensures CheckSchema(k + "=" + v) == UnescapedComma(k + "=" + EscapeCommasInValue(v))
  {
    SinglePair(k, v);
    DetectsValue(k + "=" + v, k);
    EscapeLonePair(k, v);
  }
}
