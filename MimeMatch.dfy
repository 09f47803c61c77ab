/** `mimeMatch(expected, actual)`: does the normalised pattern `expected`
    (first argument) accept the normalised actual media type `actual`? */
module Matcher {
  import opened Wrappers
  import opened JsStrings

  /** The matcher as the source writes it: split both on '/', demand exactly
      two parts each, compare the type parts, then either the `*+suffix`
      tail test (through `substr`) or the plain subtype test. Every
      comparison is exact and case-sensitive. */
  function MimeMatch(expected: Option<string>, actual: string): (r: bool)
    // a match needs a pattern, and both sides need exactly one '/'
    ensures r ==> expected.Some? && Count(expected.value, '/') == 1 && Count(actual, '/') == 1
  {
    match expected
    case None => false
    case Some(e) =>
      var actualParts := Split(actual, '/');
      var expectedParts := Split(e, '/');
      if |actualParts| != 2 || |expectedParts| != 2 then false
      else if expectedParts[0] != "*" && expectedParts[0] != actualParts[0] then false
      else if Substr(expectedParts[1], 0, 2) == "*+" then
        |expectedParts[1]| <= |actualParts[1]| + 1
        && Substr(expectedParts[1], 1, |expectedParts[1]|)
           == SubstrFrom(actualParts[1], 1 - |expectedParts[1]|)
      else if expectedParts[1] != "*" && expectedParts[1] != actualParts[1] then false
      else true
  }

  /** Reference matcher on the two halves of each media type. */
  predicate TypeMatches(expectedType: string, actualType: string)
  {
    expectedType == "*" || expectedType == actualType
  }

  predicate SubtypeMatches(expectedSub: string, actualSub: string)
  {
    if StartsWith(expectedSub, "*+") then EndsWith(actualSub, expectedSub[1..])
    else expectedSub == "*" || expectedSub == actualSub
  }

  predicate NoSlash(s: string)
  {
    '/' !in s
  }

  /** On well-shaped inputs the source's matcher is exactly the reference
      matcher: the type test, and the subtype test in which `*+t` means
      "ends with `+t`" and `*` means anything. */
  lemma MimeMatchParts(eType: string, eSub: string, aType: string, aSub: string)
    requires NoSlash(eType) && NoSlash(eSub) && NoSlash(aType) && NoSlash(aSub)
    ensures MimeMatch(Some(eType + "/" + eSub), aType + "/" + aSub)
            <==> TypeMatches(eType, aType) && SubtypeMatches(eSub, aSub)
  {
    SplitAt(eType, eSub, '/');
    SplitAt(aType, aSub, '/');
    SubstrPrefix(eSub, 2);
    assert (Substr(eSub, 0, 2) == "*+") == StartsWith(eSub, "*+");
    if StartsWith(eSub, "*+") {
      assert Substr(eSub, 1, |eSub|) == eSub[1..];
      if |eSub| <= |aSub| + 1 {
        SubstrLast(aSub, |eSub| - 1);
      }
      assert (|eSub| <= |aSub| + 1 && Substr(eSub, 1, |eSub|) == SubstrFrom(aSub, 1 - |eSub|))
             == EndsWith(aSub, eSub[1..]);
    }
  }

  /** Every string with exactly one '/' is such a pair. */
  lemma Halves(s: string) returns (t: string, sub: string)
    requires Count(s, '/') == 1
    ensures NoSlash(t) && NoSlash(sub) && s == t + "/" + sub
  {
    SplitTwo(s, '/');
    t, sub := Split(s, '/')[0], Split(s, '/')[1];
  }

  /** `false` (an unknown extension, a non-string) matches nothing. */
  lemma FalseMatchesNothing(actual: string)
    ensures !MimeMatch(None, actual)
  {
  }

  /** A pattern or an actual type without exactly one '/' never matches. */
  lemma MalformedNeverMatches(expected: string, actual: string)
    requires Count(expected, '/') != 1 || Count(actual, '/') != 1
    ensures !MimeMatch(Some(expected), actual)
  {
  }

  // The full wildcard "*/*" accepts every actual type of the form type/subtype, and only those.
  lemma AnyAny(actual: string)
    ensures MimeMatch(Some("*/*"), actual) <==> Count(actual, '/') == 1
  {
    if Count(actual, '/') == 1 {
      var t, sub := Halves(actual);
      assert "*/*" == "*" + "/" + "*";
      MimeMatchParts("*", "*", t, sub);
    }
  }

  /** A character absent from a media type is absent from both halves. */
  lemma AbsentFromHalves(s: string, t: string, sub: string, c: char)
    requires s == t + "/" + sub && c !in s
    ensures c !in t && c !in sub
  {
    assert forall i :: 0 <= i < |t| ==> t[i] == s[i];
    assert forall i :: 0 <= i < |sub| ==> sub[i] == s[|t| + 1 + i];
  }

  /** Empty halves are not rejected: the full wildcard accepts a bare "/". */
  lemma EmptyHalvesAccepted(expected: string, actual: string)
    requires expected == "*/*" && actual == "/"
    ensures MimeMatch(Some(expected), actual)
  {
    assert actual == [] + "/" + [];
    SplitAt([], [], '/');
    AnyAny(actual);
  }

  /** Halves without '*' match only when they are identical. */
  lemma LiteralParts(eType: string, eSub: string, aType: string, aSub: string)
    requires '*' !in eType && '*' !in eSub
    requires NoSlash(eType) && NoSlash(eSub) && NoSlash(aType) && NoSlash(aSub)
    ensures MimeMatch(Some(eType + "/" + eSub), aType + "/" + aSub) <==> eType == aType && eSub == aSub
  {
    assert eType != "*" && eSub != "*" by {
      assert "*"[0] == '*';
    }
    assert |eSub| == 0 || eSub[0] != '*';
    MimeMatchParts(eType, eSub, aType, aSub);
  }

  /** A pattern without any '*' matches exactly the identical type. */
  lemma LiteralMatchesItself(expected: string, actual: string)
    requires '*' !in expected
    ensures MimeMatch(Some(expected), actual) <==> expected == actual && Count(expected, '/') == 1
  {
    if Count(expected, '/') == 1 && Count(actual, '/') == 1 {
      var et, es := Halves(expected);
      var at, as_ := Halves(actual);
      AbsentFromHalves(expected, et, es, '*');
      LiteralParts(et, es, at, as_);
      if expected == actual {
        SplitAt(et, es, '/');
        SplitAt(at, as_, '/');
      }
    }
  }

  // A suffix pattern "type/*+t" accepts an actual "aType/aSub" exactly when the type parts
  // agree (or the pattern's is "*") and aSub ends with "+t".
  lemma SuffixWildcard(eType: string, tail: string, aType: string, aSub: string)
    requires NoSlash(eType) && NoSlash(tail) && NoSlash(aType) && NoSlash(aSub)
    ensures MimeMatch(Some(eType + "/*+" + tail), aType + "/" + aSub)
            <==> TypeMatches(eType, aType) && EndsWith(aSub, "+" + tail)
  {
    var eSub := "*+" + tail;
    assert eType + "/*+" + tail == eType + "/" + eSub;
    assert eSub[1..] == "+" + tail;
    assert StartsWith(eSub, "*+");
    MimeMatchParts(eType, eSub, aType, aSub);
  }

  // Worked instances of the suffix rule, from the library's tests. The strings
  // are parameters fixed by the requires clause, which keeps the solver from
  // evaluating the matcher on literal strings.

  // "*/*+xml" accepts "text/html+xml".
  lemma SuffixExampleMatch(expected: string, actual: string)
    requires expected == "*/*+xml" && actual == "text/html+xml"
    ensures MimeMatch(Some(expected), actual)
  {
    SuffixWildcard("*", "xml", "text", "html+xml");
    assert "*" + "/*+" + "xml" == expected;
    assert "text" + "/" + "html+xml" == actual;
  }

  // "*/*+xml" rejects "text/html", which has no "+xml" suffix.
  lemma SuffixExampleNoSuffix(expected: string, actual: string)
    requires expected == "*/*+xml" && actual == "text/html"
    ensures !MimeMatch(Some(expected), actual)
  {
    SuffixWildcard("*", "xml", "text", "html");
    assert "+" + "xml" == "+xml";
    assert "html"[0] != "+xml"[0];
    assert "*" + "/*+" + "xml" == expected;
    assert "text" + "/" + "html" == actual;
  }

  // The suffix rule still demands the type part: "text/*+json" rejects
  // "application/vnd+json".
  lemma SuffixExampleWrongType(expected: string, actual: string)
    requires expected == "text/*+json" && actual == "application/vnd+json"
    ensures !MimeMatch(Some(expected), actual)
  {
    SuffixWildcard("text", "json", "application", "vnd+json");
    assert "text" + "/*+" + "json" == expected;
    assert "application" + "/" + "vnd+json" == actual;
  }
}
