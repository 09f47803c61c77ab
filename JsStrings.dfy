/** The two JavaScript string operations the matcher relies on,
    `String.prototype.split` with a one-character separator and
    `String.prototype.substr`, on strings modelled as `seq<char>`. */
module JsStrings {

  function Min(a: int, b: int): int { if a <= b then a else b }
  function Max(a: int, b: int): int { if a <= b then b else a }

  /** Number of occurrences of `c` in `s`. */
  function Count(s: string, c: char): nat
  {
    if s == [] then 0 else (if s[0] == c then 1 else 0) + Count(s[1..], c)
  }

  /** `s.split(sep)`: one more part than there are separators, none of them
      containing the separator; empty parts are kept ("".split gives [""]). */
  function Split(s: string, sep: char): (parts: seq<string>)
    ensures |parts| == Count(s, sep) + 1
    ensures forall i :: 0 <= i < |parts| ==> sep !in parts[i]
    decreases |s|
  {
    if s == [] then [[]]
    else
      var rest := Split(s[1..], sep);
      if s[0] == sep then [[]] + rest
      else [[s[0]] + rest[0]] + rest[1..]
  }

  /** `parts.join(sep)`, the inverse of `Split`. */
  function Join(parts: seq<string>, sep: char): string
  {
    if parts == [] then []
    else if |parts| == 1 then parts[0]
    else parts[0] + [sep] + Join(parts[1..], sep)
  }

  /** Splitting loses nothing: joining the parts back gives the input. */
  lemma {:induction false} JoinSplit(s: string, sep: char)
    ensures Join(Split(s, sep), sep) == s
    decreases |s|
  {
    if s != [] {
      var rest := Split(s[1..], sep);
      JoinSplit(s[1..], sep);
      assert s == [s[0]] + s[1..];
      if s[0] == sep {
        assert ([[]] + rest)[1..] == rest;
      } else {
        var parts := Split(s, sep);
        assert parts[0] == [s[0]] + rest[0];
        if |rest| > 1 {
          assert parts[1..] == rest[1..];
        }
      }
    }
  }

  /** A string free of the separator splits into itself alone. */
  lemma {:induction false} SplitNoSep(s: string, sep: char)
    requires sep !in s
    ensures Split(s, sep) == [s]
    decreases |s|
  {
    if s != [] {
      SplitNoSep(s[1..], sep);
      assert s == [s[0]] + s[1..];
    }
  }

  /** A string with exactly one separator splits into the text around it. */
  lemma {:induction false} SplitAt(x: string, y: string, sep: char)
    requires sep !in x && sep !in y
    ensures Split(x + [sep] + y, sep) == [x, y]
    decreases |x|
  {
    var s := x + [sep] + y;
    if x == [] {
      assert s[1..] == y;
      SplitNoSep(y, sep);
    } else {
      assert s[1..] == x[1..] + [sep] + y;
      SplitAt(x[1..], y, sep);
      assert x == [x[0]] + x[1..];
    }
  }

  /** A string with exactly one separator is its two parts joined by it. */
  lemma SplitTwo(s: string, sep: char)
    requires Count(s, sep) == 1
    ensures |Split(s, sep)| == 2
    ensures s == Split(s, sep)[0] + [sep] + Split(s, sep)[1]
  {
    var p := Split(s, sep);
    JoinSplit(s, sep);
    assert p[1..] == [p[1]];
  }

  predicate StartsWith(s: string, prefix: string)
  {
    |prefix| <= |s| && s[..|prefix|] == prefix
  }

  predicate EndsWith(s: string, suffix: string)
  {
    |suffix| <= |s| && s[|s| - |suffix|..] == suffix
  }

  /** `s.substr(start, length)` (ECMAScript Annex B): a negative start counts
      back from the end and is clamped at 0, a start past the end is clamped to
      the length, a negative length reads as 0. */
  function Substr(s: string, start: int, length: int): (r: string)
    // never longer than asked for, nor than the string
    ensures |r| <= Max(length, 0) && |r| <= |s|
    // a request that lies inside the string is the plain slice
    ensures 0 <= start && 0 <= length && start + length <= |s| ==> r == s[start..start + length]
  {
    var from := if start < 0 then Max(|s| + start, 0) else Min(start, |s|);
    var count := Min(Max(length, 0), |s|);
    s[from..Min(from + count, |s|)]
  }

  /** `s.substr(start)` with the length left out, which reads to the end. */
  function SubstrFrom(s: string, start: int): (r: string)
    // what is read always runs to the end of the string
    ensures EndsWith(s, r)
    // a negative start takes that many characters from the end, at most all of them
    ensures start < 0 ==> |r| == Min(-start, |s|)
    ensures 0 <= start ==> |r| == Max(|s| - start, 0)
  {
    Substr(s, start, |s|)
  }

  /** `substr(0, n)` is the first `n` characters, or the whole string when shorter. */
  lemma SubstrPrefix(s: string, n: nat)
    ensures Substr(s, 0, n) == s[..Min(n, |s|)]
  {
  }

  /** `substr(-k)` is the last `k` characters. */
  lemma SubstrLast(s: string, k: int)
    requires 0 < k <= |s|
    ensures SubstrFrom(s, -k) == s[|s| - k..]
    ensures EndsWith(s, SubstrFrom(s, -k))
  {
    assert Max(|s| + -k, 0) == |s| - k;
    assert Min(Max(|s|, 0), |s|) == |s|;
    assert Min(|s| - k + |s|, |s|) == |s|;
  }
}
