/** The fixed set of JSON Schema keywords a `jsonschema` struct tag may use,
    and the lookahead test that asks whether a piece of text is one of them. */
module Vocabulary {

  /** `allowedKeys`: the 42 recognised keywords (case-sensitive), in the source's order. */
  const Keywords: seq<string> := [
    "additionalItems", "additionalProperties", "allOf", "anyOf", "const",
    "contains", "contentEncoding", "contentMediaType", "default", "definitions",
    "dependencies", "description", "else", "enum", "example",
    "examples", "exclusiveMaximum", "exclusiveMinimum", "format", "if",
    "items", "maximum", "maxItems", "maxLength", "maxProperties",
    "minimum", "minItems", "minLength", "minProperties", "multipleOf",
    "not", "oneOf", "pattern", "patternProperties", "properties",
    "propertyNames", "readOnly", "required", "then", "title",
    "type", "uniqueItems"
  ]

  /** The keywords as a set. */
  const AllowedKeys: set<string> := set k | k in Keywords

  predicate IsAsciiLetter(c: char)
  {
    ('a' <= c <= 'z') || ('A' <= c <= 'Z')
  }

  /** Every character of `s` is an ASCII letter (the loop of `isLikelyKey`). */
  predicate AllLetters(s: string)
  {
    forall k :: 0 <= k < |s| ==> IsAsciiLetter(s[k])
  }

  /** A search for `s` in `keys` from index `i` on. */
  predicate Listed(keys: seq<string>, s: string, i: nat)
    decreases |keys| - i
  {
    i < |keys| && (keys[i] == s || Listed(keys, s, i + 1))
  }

  /** `isLikelyKey`: non-empty, letters only, and a keyword (the map lookup
      `allowedKeys[s]` is a search of the keyword list). */
  predicate IsLikelyKey(s: string)
  {
    |s| != 0 && AllLetters(s) && Listed(Keywords, s, 0)
  }

  /** The search finds `s` exactly when it occurs at or after index `i`. */
  lemma {:induction false} ListedFrom(keys: seq<string>, s: string, i: nat)
    ensures Listed(keys, s, i) <==> exists j :: i <= j < |keys| && keys[j] == s
    decreases |keys| - i
  {
    if i < |keys| {
      ListedFrom(keys, s, i + 1);
    }
  }

  /** The first two tests of `isLikelyKey` never reject a keyword, so the answer is
      plain vocabulary membership. */
  lemma IsLikelyKeyIsMembership(s: string)
    ensures IsLikelyKey(s) <==> s in AllowedKeys
  {
    ListedFrom(Keywords, s, 0);
    if s in AllowedKeys {
      var j :| 0 <= j < |Keywords| && Keywords[j] == s;
      KeywordIsWord(j);
    }
  }

  /** Every keyword is a non-empty run of ASCII letters. The list is checked in
      six blocks of seven: one quantifier over all 42 literals is more than the
      solver settles in one go. */
  lemma KeywordIsWord(j: nat)
    requires j < |Keywords|
    ensures |Keywords[j]| > 0 && AllLetters(Keywords[j])
  {
    if j < 7 {
      KeywordsAreWords0();
    } else if j < 14 {
      KeywordsAreWords7();
    } else if j < 21 {
      KeywordsAreWords14();
    } else if j < 28 {
      KeywordsAreWords21();
    } else if j < 35 {
      KeywordsAreWords28();
    } else if j < 42 {
      KeywordsAreWords35();
    }
  }

  lemma KeywordsAreWords0()
    ensures forall j :: 0 <= j < 7 ==> |Keywords[j]| > 0 && AllLetters(Keywords[j])
  {
  }

  lemma KeywordsAreWords7()
    ensures forall j :: 7 <= j < 14 ==> |Keywords[j]| > 0 && AllLetters(Keywords[j])
  {
  }

  lemma KeywordsAreWords14()
    ensures forall j :: 14 <= j < 21 ==> |Keywords[j]| > 0 && AllLetters(Keywords[j])
  {
  }

  lemma KeywordsAreWords21()
    ensures forall j :: 21 <= j < 28 ==> |Keywords[j]| > 0 && AllLetters(Keywords[j])
  {
  }

  lemma KeywordsAreWords28()
    ensures forall j :: 28 <= j < 35 ==> |Keywords[j]| > 0 && AllLetters(Keywords[j])
  {
  }

  lemma KeywordsAreWords35()
    ensures forall j :: 35 <= j < 42 ==> |Keywords[j]| > 0 && AllLetters(Keywords[j])
  {
  }

  /** The letters keywords begin with. */
  const Initials: string := "acdefimnoprtu"

  lemma KeywordInitials()
    ensures forall j :: 0 <= j < |Keywords| ==> Keywords[j][0] in Initials
  {
  }

  /** Text beginning with any other character is no keyword. */
  lemma InitialRulesOut(s: string)
    requires s != [] && s[0] !in Initials
    ensures !IsLikelyKey(s)
  {
    IsLikelyKeyIsMembership(s);
    KeywordInitials();
  }
}
