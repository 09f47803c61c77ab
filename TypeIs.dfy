/** `typeIs(value, ...types)`: normalise the actual content type, flatten the
    specifiers one level, and report the first specifier that matches. */
module TypeResolver {
  import opened Wrappers
  import opened Normalizer
  import opened Matcher
  import opened JsStrings

  /** The media-type parser and formatter of `media-typer` as one step:
      `format(parse(raw))` with the parameters removed, `None` where `parse`
      throws. */
  type Parse = string -> Option<string>

  /** One argument after `value`: a single specifier, or an array of them. */
  datatype Arg = One(spec: Spec) | Many(specs: seq<Spec>)

  function Elements(arg: Arg): seq<Spec>
  {
    match arg
    case One(spec) => [spec]
    case Many(specs) => specs
  }

  /** `[].concat(...args)`: arrays are spread one level, in order; anything
      nested deeper stays a single (non-string) specifier. */
  function Flatten(args: seq<Arg>): (types: seq<Spec>)
    // a single specifier argument is kept, an array argument is spread
    ensures forall i :: 0 <= i < |args| && args[i].One? ==> args[i].spec in types
    ensures forall i, x :: 0 <= i < |args| && args[i].Many? && x in args[i].specs ==> x in types
    // and nothing else appears
    ensures forall x :: x in types ==> exists i :: 0 <= i < |args| && x in Elements(args[i])
  {
    if args == [] then [] else Elements(args[0]) + Flatten(args[1..])
  }

  /** Flattening keeps the caller's argument order: the specifiers of
      earlier arguments come first, each as often as it was written. */
  lemma {:induction false} FlattenAppend(a: seq<Arg>, b: seq<Arg>)
    ensures Flatten(a + b) == Flatten(a) + Flatten(b)
    decreases |a|
  {
    if a == [] {
      assert a + b == b;
    } else {
      assert (a + b)[0] == a[0] && (a + b)[1..] == a[1..] + b;
      FlattenAppend(a[1..], b);
    }
  }

  /** A single specifier argument flattens to itself alone. */
  lemma {:induction false} FlattenOne(spec: Spec)
    ensures Flatten([One(spec)]) == [spec]
  {
    assert [One(spec)][1..] == [];
  }

  /** Flattening a single array argument gives back that array, so
      re-flattening an already flat list changes nothing. */
  lemma {:induction false} FlattenOneArray(specs: seq<Spec>)
    ensures Flatten([Many(specs)]) == specs
  {
    assert [Many(specs)][1..] == [];
  }

  /** `tryNormalizeType`: a falsy value (absent or empty) gives `null`, and so
      does a value the parser rejects. */
  function TryNormalizeType(value: Option<string>, parse: Parse): (r: Option<string>)
    ensures value.None? || value == Some("") ==> r.None?
    ensures value.Some? && value != Some("") ==> r == parse(value.value)
  {
    match value
    case None => None
    case Some(v) => if v == "" then None else parse(v)
  }

  /** Does the specifier, normalised, accept the actual type? */
  predicate Accepts(spec: Spec, actual: string, lookup: Lookup)
  {
    MimeMatch(Normalize(spec, lookup), actual)
  }

  /** Only a string specifier can accept anything. */
  lemma AcceptsOnlyStrings(spec: Spec, actual: string, lookup: Lookup)
    requires Accepts(spec, actual, lookup)
    ensures spec.Str?
  {
  }

  /** What a match reports: the concrete actual type for a `+suffix` or a
      specifier with a `*`, the caller's own specifier otherwise. */
  function Reported(spec: Spec, actual: string): (r: string)
    requires spec.Str?
    // the caller's own specifier is handed back only when it is concrete:
    // no leading '+' and no '*'
    ensures r == actual || (r == spec.s && !StartsWithPlus(r) && '*' !in r)
    ensures StartsWithPlus(spec.s) || '*' in spec.s ==> r == actual
    ensures !StartsWithPlus(spec.s) && '*' !in spec.s ==> r == spec.s
  {
    if StartsWithPlus(spec.s) || '*' in spec.s then actual else spec.s
  }

  /** Index `i` holds the first specifier that accepts `actual`. */
  ghost predicate FirstAccepting(types: seq<Spec>, actual: string, lookup: Lookup, i: int)
  {
    && 0 <= i < |types|
    && Accepts(types[i], actual, lookup)
    && forall j :: 0 <= j < i ==> !Accepts(types[j], actual, lookup)
  }

  /** Reference definition of the search: the report of the first specifier
      that accepts `actual`, `None` when none does. */
  function FirstMatch(types: seq<Spec>, actual: string, lookup: Lookup): (r: Option<string>)
    // nothing is found in an empty list
    ensures types == [] ==> r.None?
    // a report is the actual type or one of the specifiers, verbatim
    ensures r.Some? ==> r.value == actual || Str(r.value) in types
    decreases |types|
  {
    if types == [] then None
    else if Accepts(types[0], actual, lookup) then
      AcceptsOnlyStrings(types[0], actual, lookup);
      Some(Reported(types[0], actual))
    else FirstMatch(types[1..], actual, lookup)
  }

  /** The search finds the first accepting specifier and reports it. */
  lemma {:induction false} FirstMatchFinds(types: seq<Spec>, actual: string, lookup: Lookup, i: int)
    requires FirstAccepting(types, actual, lookup, i)
    ensures types[i].Str?
    ensures FirstMatch(types, actual, lookup) == Some(Reported(types[i], actual))
    decreases |types|
  {
    AcceptsOnlyStrings(types[i], actual, lookup);
    if i > 0 {
      assert !Accepts(types[0], actual, lookup);
      assert FirstAccepting(types[1..], actual, lookup, i - 1);
      FirstMatchFinds(types[1..], actual, lookup, i - 1);
    }
  }

  /** The search fails exactly when no specifier accepts `actual`. */
  lemma {:induction false} FirstMatchNone(types: seq<Spec>, actual: string, lookup: Lookup)
    ensures FirstMatch(types, actual, lookup).None?
            <==> forall j :: 0 <= j < |types| ==> !Accepts(types[j], actual, lookup)
    decreases |types|
  {
    if types != [] {
      FirstMatchNone(types[1..], actual, lookup);
      if !Accepts(types[0], actual, lookup) {
        forall j | 0 < j < |types| && !Accepts(types[j], actual, lookup)
          ensures !Accepts(types[1..][j - 1], actual, lookup)
        {
        }
      }
    }
  }

  /** The whole of `typeIs` as a value: `false` for a missing, empty or
      unparseable value, the parsed type when no specifier is given, the
      search's report otherwise. */
  function TypeIsOf(value: Option<string>, args: seq<Arg>, parse: Parse, lookup: Lookup): (r: Option<string>)
    // no answer without a parsed, non-empty actual type
    ensures r.Some? ==> TryNormalizeType(value, parse).Some? && TryNormalizeType(value, parse) != Some("")
    // with nothing asked, the parsed type itself
    ensures Flatten(args) == [] ==> r == (if TryNormalizeType(value, parse) == Some("") then None
                                          else TryNormalizeType(value, parse))
  {
    var val := TryNormalizeType(value, parse);
    if val.None? || val == Some("") then None
    else if Flatten(args) == [] then val
    else FirstMatch(Flatten(args), val.value, lookup)
  }

  /** `typeIs`, with its loop over the flattened specifiers. */
  method TypeIs(value: Option<string>, args: seq<Arg>, parse: Parse, lookup: Lookup)
    returns (r: Option<string>)
    ensures r == TypeIsOf(value, args, parse, lookup)
  {
    var val := TryNormalizeType(value, parse);
    if val.None? || val == Some("") {
      return None;
    }
    var actual := val.value;
    var types := Flatten(args);
    if |types| == 0 {
      return val;
    }
    var i := 0;
    while i < |types|
      invariant 0 <= i <= |types|
      invariant FirstMatch(types[i..], actual, lookup) == FirstMatch(types, actual, lookup)
    {
      var spec := types[i];
      assert types[i..][1..] == types[i + 1..];
      if MimeMatch(Normalize(spec, lookup), actual) {
        AcceptsOnlyStrings(spec, actual, lookup);
        return Some(Reported(spec, actual));
      }
      i := i + 1;
    }
    return None;
  }

  // Properties of typeIs, stated on its value.

  /** An absent, empty or unparseable value gives `false`, whatever is asked. */
  lemma InvalidValueNeverMatches(value: Option<string>, args: seq<Arg>, parse: Parse, lookup: Lookup)
    requires value.None? || value == Some("") || parse(value.value).None? || parse(value.value) == Some("")
    ensures TypeIsOf(value, args, parse, lookup).None?
  {
  }

  /** With no specifiers, `typeIs` reports the parsed type. */
  lemma NoSpecifiersReportsParsed(value: Option<string>, args: seq<Arg>, parse: Parse, lookup: Lookup)
    requires value.Some? && value != Some("") && parse(value.value).Some? && parse(value.value) != Some("")
    requires Flatten(args) == []
    ensures TypeIsOf(value, args, parse, lookup) == parse(value.value)
  {
  }

  /** First match wins: when the `i`-th flattened specifier is the first to
      accept the parsed type, `typeIs` reports that specifier's answer. */
  lemma FirstAcceptingWins(value: Option<string>, args: seq<Arg>, parse: Parse, lookup: Lookup, i: int)
    requires value.Some? && value != Some("") && parse(value.value).Some? && parse(value.value) != Some("")
    requires FirstAccepting(Flatten(args), parse(value.value).value, lookup, i)
    ensures Flatten(args)[i].Str?
    ensures TypeIsOf(value, args, parse, lookup)
            == Some(Reported(Flatten(args)[i], parse(value.value).value))
  {
    FirstMatchFinds(Flatten(args), parse(value.value).value, lookup, i);
  }

  /** With specifiers given, `typeIs` is `false` exactly when none accepts. */
  lemma NoMatchMeansNoneAccepts(value: Option<string>, args: seq<Arg>, parse: Parse, lookup: Lookup)
    requires value.Some? && value != Some("") && parse(value.value).Some? && parse(value.value) != Some("")
    requires Flatten(args) != []
    ensures TypeIsOf(value, args, parse, lookup).None?
            <==> forall j :: 0 <= j < |Flatten(args)| ==> !Accepts(Flatten(args)[j], parse(value.value).value, lookup)
  {
    var types, actual := Flatten(args), parse(value.value).value;
    assert TypeIsOf(value, args, parse, lookup) == FirstMatch(types, actual, lookup);
    FirstMatchNone(types, actual, lookup);
  }

  /** A string result is either the parsed actual type or one of the
      caller's specifiers, verbatim. */
  lemma ResultOrigin(value: Option<string>, args: seq<Arg>, parse: Parse, lookup: Lookup)
    requires TypeIsOf(value, args, parse, lookup).Some?
    ensures TypeIsOf(value, args, parse, lookup) == TryNormalizeType(value, parse)
            || Str(TypeIsOf(value, args, parse, lookup).value) in Flatten(args)
  {
  }

  /** A known extension listed first is reported verbatim when its media
      type is the parsed actual type (asking for "png" of an "image/png" body
      answers "png", not "image/png"). */
  lemma ExtensionReportedVerbatim(value: Option<string>, ext: string, rest: seq<Arg>, parse: Parse, lookup: Lookup)
    requires value.Some? && value != Some("") && parse(value.value).Some? && parse(value.value) != Some("")
    requires IsBareExtension(ext) && '*' !in ext
    requires lookup(ext) == parse(value.value)
    requires '*' !in parse(value.value).value && Count(parse(value.value).value, '/') == 1
    ensures TypeIsOf(value, [One(Str(ext))] + rest, parse, lookup) == Some(ext)
  {
    var args := [One(Str(ext))] + rest;
    var actual := parse(value.value).value;
    assert args[1..] == rest;
    assert Flatten(args)[0] == Str(ext);
    LiteralMatchesItself(actual, actual);
    assert FirstAccepting(Flatten(args), actual, lookup, 0);
    FirstAcceptingWins(value, args, parse, lookup, 0);
  }
}
