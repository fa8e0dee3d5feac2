/**
 * The string predicates the Python code uses: `str.startswith`, `str.endswith`,
 * `in` on strings, the `\Wany\W` search, and `rsplit('/', 1)[1]`.
 */
module Strings {

  import opened Common

  predicate StartsWith(s: string, prefix: string) {
    |prefix| <= |s| && s[..|prefix|] == prefix
  }

  predicate EndsWith(s: string, suffix: string) {
    |suffix| <= |s| && s[|s| - |suffix|..] == suffix
  }

  /** Python's `needle in s` on strings. */
  predicate Contains(s: string, needle: string)
    decreases |s|
  {
    StartsWith(s, needle) || (|s| > 0 && Contains(s[1..], needle))
  }

  /** `startswith` is transitive: a string under `b` is under every prefix of `b`. */
  lemma {:induction false} StartsWithTrans(a: string, b: string, c: string)
    requires StartsWith(a, b) && StartsWith(b, c)
    ensures StartsWith(a, c)
  {
    assert a[..|c|] == a[..|b|][..|c|];
  }

  /** `x.startswith(y + '/')` and `y.startswith(z + '/')` give `x.startswith(z + '/')`. */
  lemma {:induction false} UnderTrans(x: string, y: string, z: string)
    requires StartsWith(x, y + "/") && StartsWith(y, z + "/")
    ensures StartsWith(x, z + "/")
  {
    assert StartsWith(y + "/", y);
    StartsWithTrans(x, y + "/", y);
    StartsWithTrans(x, y, z + "/");
  }

  /** No string starts with itself followed by one more character. */
  lemma {:induction false} NotUnderItself(x: string)
    ensures !StartsWith(x, x + "/")
  {
  }

  /** A word character of a regular expression: ASCII letter, digit or underscore. */
  predicate IsWordChar(c: char) {
    ('a' <= c <= 'z') || ('A' <= c <= 'Z') || ('0' <= c <= '9') || c == '_'
  }

  /** `re.search(r'\Wany\W', s)` succeeds: `any` with a non-word character on each side. */
  predicate HasBoundedAny(s: string)
    decreases |s|
  {
    (|s| >= 5 && !IsWordChar(s[0]) && s[1..4] == "any" && !IsWordChar(s[4]))
    || (|s| > 0 && HasBoundedAny(s[1..]))
  }

  /** Index of the last occurrence of `c` in `s`, if any. */
  function LastIndexOf(s: string, c: char): (r: Option<nat>)
    ensures r.Some? ==> r.value < |s| && s[r.value] == c
    ensures r.Some? ==> forall j :: r.value < j < |s| ==> s[j] != c
    ensures r.None? ==> forall j :: 0 <= j < |s| ==> s[j] != c
    decreases |s|
  {
    if |s| == 0 then None
    else if s[|s| - 1] == c then Some(|s| - 1)
    else LastIndexOf(s[..|s| - 1], c)
  }

  /** Index of the first occurrence of `c` in `s`, if any. */
  function FirstIndexOf(s: string, c: char): (r: Option<nat>)
    ensures r.Some? ==> r.value < |s| && s[r.value] == c
    ensures r.Some? ==> forall j :: 0 <= j < r.value ==> s[j] != c
    ensures r.None? ==> forall j :: 0 <= j < |s| ==> s[j] != c
    decreases |s|
  {
    if |s| == 0 then None
    else if s[0] == c then Some(0)
    else match FirstIndexOf(s[1..], c)
      case None => None
      case Some(i) => Some(i + 1)
  }

  /** The part of `s` before the first `c` (all of `s` when there is none). */
  function Before(s: string, c: char): (r: string)
    ensures StartsWith(s, r) && c !in r
    ensures |r| < |s| ==> s[|r|] == c
    ensures c !in s ==> r == s
  {
    match FirstIndexOf(s, c)
    case None => s
    case Some(i) => s[..i]
  }

  /**
   * `s.rsplit('/', 1)[1]`: the text after the last `/`; an IndexError when `s`
   * holds no `/` at all, since `rsplit` then returns a one-element list.
   */
  function AfterLastSlash(s: string): (r: Result<string>)
    ensures r.Success? <==> '/' in s
    ensures r.Success? ==> '/' !in r.value
    ensures r.Success? ==> EndsWith(s, "/" + r.value)
  {
    match LastIndexOf(s, '/')
    case None => Failure(IndexError)
    case Some(i) =>
      assert s[|s| - |"/" + s[i + 1..]|..] == "/" + s[i + 1..];
      Success(s[i + 1..])
  }
}
