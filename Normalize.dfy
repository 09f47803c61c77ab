/** `normalize`: turns one caller-supplied type specifier into the pattern the
    matcher compares against, or into `false` (here `None`). */
module Normalizer {
  import opened Wrappers

  /** A specifier as the caller passes it: a string, or any other JavaScript
      value (`undefined`, `null`, a number, a function, an object, a nested
      array), all of which `normalize` treats alike. */
  datatype Spec = Str(s: string) | NonString

  /** The extension table of the `mime-types` package: an extension such as
      `json` to its media type, `None` for an unknown extension. */
  type Lookup = string -> Option<string>

  const UrlencodedType: string := "application/x-www-form-urlencoded"
  const MultipartType: string := "multipart/*"

  predicate StartsWithPlus(s: string)
  {
    |s| > 0 && s[0] == '+'
  }

  /** The specifier shapes `normalize` resolves without consulting the
      extension table: the two shorthands, a `+suffix`, or a full media type. */
  predicate IsShorthand(s: string)
  {
    s == "urlencoded" || s == "multipart"
  }

  predicate IsBareExtension(s: string)
  {
    !IsShorthand(s) && !StartsWithPlus(s) && '/' !in s
  }

  function Normalize(spec: Spec, lookup: Lookup): (r: Option<string>)
    // only strings normalise
    ensures spec.NonString? ==> r == None
    // the shorthands win over the extension table, whatever it holds
    ensures spec == Str("urlencoded") ==> r == Some(UrlencodedType)
    ensures spec == Str("multipart") ==> r == Some(MultipartType)
    // "+json" becomes "*/*+json", even if it also contains a '/'
    ensures spec.Str? && !IsShorthand(spec.s) && StartsWithPlus(spec.s) ==> r == Some("*/*" + spec.s)
    // a full media type or pattern is kept as written
    ensures spec.Str? && !IsShorthand(spec.s) && !StartsWithPlus(spec.s) && '/' in spec.s ==> r == Some(spec.s)
    // anything else is an extension, and the table alone decides; a miss is false
    ensures spec.Str? && IsBareExtension(spec.s) ==> r == lookup(spec.s)
    // whatever did not come from the table is a pattern with a '/' and no leading '+'
    ensures spec.Str? && !IsBareExtension(spec.s) ==> r.Some? && '/' in r.value && !StartsWithPlus(r.value)
  {
    match spec
    case NonString => None
    case Str(s) =>
      if s == "urlencoded" then Some(UrlencodedType)
      else if s == "multipart" then Some(MultipartType)
      else if StartsWithPlus(s) then Some("*/*" + s)
      else if '/' !in s then lookup(s)
      else Some(s)
  }

  /** The extension table is consulted for bare extensions only: two tables
      can give different results for a specifier only when it is one. */
  lemma LookupOnlyForExtensions(spec: Spec, lookup1: Lookup, lookup2: Lookup)
    requires Normalize(spec, lookup1) != Normalize(spec, lookup2)
    ensures spec.Str? && IsBareExtension(spec.s)
    ensures Normalize(spec, lookup1) == lookup1(spec.s)
    ensures Normalize(spec, lookup2) == lookup2(spec.s)
  {
  }

  /** Normalising a normalised pattern again changes nothing, as long as it
      has a '/' and does not begin with '+'. */
  lemma NormalizeStable(spec: Spec, lookup: Lookup)
    requires Normalize(spec, lookup).Some?
    requires '/' in Normalize(spec, lookup).value
    requires !StartsWithPlus(Normalize(spec, lookup).value)
    ensures Normalize(Str(Normalize(spec, lookup).value), lookup) == Normalize(spec, lookup)
  {
    var n := Normalize(spec, lookup).value;
    NoSlashInShorthand(n);
    assert Normalize(Str(n), lookup) == Some(n);
  }

  lemma NoSlashInShorthand(s: string)
    requires '/' in s
    ensures !IsShorthand(s)
  {
    var i :| 0 <= i < |s| && s[i] == '/';
  }

  /** The extension table of `mime-types` maps every extension to a full
      `type/subtype`; under that assumption normalising twice is the same as
      normalising once, for every specifier. */
  lemma NormalizeIdempotent(spec: Spec, lookup: Lookup)
    requires forall e :: lookup(e).Some? ==> '/' in lookup(e).value && !StartsWithPlus(lookup(e).value)
    ensures Normalize(spec, lookup).Some? ==>
              Normalize(Str(Normalize(spec, lookup).value), lookup) == Normalize(spec, lookup)
  {
    if Normalize(spec, lookup).Some? {
      NormalizeStable(spec, lookup);
    }
  }
}
