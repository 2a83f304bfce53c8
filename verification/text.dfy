/** Character classes and string operations that the services share: the
    regular-expression classes `\s`, `\w` and `\d`, `str.lower`,
    `str.strip` (with and without an argument) and slicing. */
module Text {

  /** `str.isspace`, which is also what `\s` matches in a str pattern. */
  predicate IsSpace(c: char)
  {
    c == ' ' || '\U{9}' <= c <= '\U{D}' || '\U{1C}' <= c <= '\U{1F}'
    || c == '\U{85}' || c == '\U{A0}' || c == '\U{1680}'
    || '\U{2000}' <= c <= '\U{200A}' || c == '\U{2028}' || c == '\U{2029}'
    || c == '\U{202F}' || c == '\U{205F}' || c == '\U{3000}'
  }

  /** `\d`, restricted to ASCII digits. */
  predicate IsDigit(c: char)
  {
    '0' <= c <= '9'
  }

  /** `\w`, restricted to ASCII letters, digits and the underscore. */
  predicate IsWordChar(c: char)
  {
    'a' <= c <= 'z' || 'A' <= c <= 'Z' || IsDigit(c) || c == '_'
  }

  predicate IsLower(s: string)
  {
    forall i :: 0 <= i < |s| ==> !('A' <= s[i] <= 'Z')
  }

  function LowerChar(c: char): char
  {
    if 'A' <= c <= 'Z' then (c as int + 32) as char else c
  }

  /** `str.lower` on ASCII letters; every other character is kept. */
  function Lower(s: string): (r: string)
    ensures |r| == |s| && IsLower(r)
    ensures forall i :: 0 <= i < |s| && !('A' <= s[i] <= 'Z') ==> r[i] == s[i]
    ensures forall i :: 0 <= i < |s| && 'A' <= s[i] <= 'Z' ==> r[i] == (s[i] as int + 32) as char
  {
    seq(|s|, i requires 0 <= i < |s| => LowerChar(s[i]))
  }

  lemma LowerIdempotent(s: string)
    ensures Lower(Lower(s)) == Lower(s)
  {
    var l := Lower(s);
    assert forall i :: 0 <= i < |l| ==> Lower(l)[i] == l[i];
  }

  /** End of the run of `drop` characters that starts at `from`. */
  function SkipForward(s: string, drop: char -> bool, from: nat): (n: nat)
    requires from <= |s|
    ensures from <= n <= |s| && (n == |s| || !drop(s[n]))
    ensures forall i :: from <= i < n ==> drop(s[i])
    decreases |s| - from
  {
    if from < |s| && drop(s[from]) then SkipForward(s, drop, from + 1) else from
  }

  /** Start of the run of `drop` characters that ends at `hi`, going back no
      further than `low`. */
  function SkipBackward(s: string, drop: char -> bool, low: nat, hi: nat): (n: nat)
    requires low <= hi <= |s|
    ensures low <= n <= hi && (n == low || !drop(s[n - 1]))
    ensures forall i :: n <= i < hi ==> drop(s[i])
    decreases hi - low
  {
    if low < hi && drop(s[hi - 1]) then SkipBackward(s, drop, low, hi - 1) else hi
  }

  /** `str.lstrip(chars)`, the set of stripped characters given as a
      predicate: drops the longest prefix of `drop` characters. */
  function TrimLeft(s: string, drop: char -> bool): (r: string)
    ensures |r| <= |s| && r == s[|s| - |r|..]
    ensures r == [] || !drop(r[0])
    ensures forall i :: 0 <= i < |s| - |r| ==> drop(s[i])
  {
    s[SkipForward(s, drop, 0)..]
  }

  /** `str.strip(chars)`: the slice between the longest dropped prefix and
      the longest dropped suffix of the rest. */
  function Trim(s: string, drop: char -> bool): (r: string)
    ensures r == [] || (!drop(r[0]) && !drop(r[|r| - 1]))
    ensures StartsWithAt(s, |s| - |TrimLeft(s, drop)|, r)
    ensures forall i :: |s| - |TrimLeft(s, drop)| + |r| <= i < |s| ==> drop(s[i])
  {
    var a := SkipForward(s, drop, 0);
    s[a..SkipBackward(s, drop, a, |s|)]
  }

  /** `str.strip()` with no argument: Unicode whitespace. */
  function Strip(s: string): string
  {
    Trim(s, IsSpace)
  }

  /** A string is its prefix, middle and suffix put back together. */
  lemma SplitThree(s: string, a: nat, b: nat)
    requires a <= b <= |s|
    ensures s == s[..a] + (s[a..b] + s[b..])
  {
    assert s[a..] == s[a..b] + s[b..];
    assert s == s[..a] + s[a..];
  }

  function Min(a: int, b: int): int
  {
    if a <= b then a else b
  }

  /** Python's `s[:n]` for n >= 0. */
  function Prefix(s: string, n: nat): (r: string)
    ensures |r| == Min(|s|, n) && r == s[..|r|]
  {
    if |s| <= n then s else s[..n]
  }

  /** `s[:n] + "..." if len(s) > n else s`: a preview that marks a cut. */
  function Ellipsize(s: string, n: nat): (r: string)
    ensures |s| <= n ==> r == s
    ensures |s| > n ==> |r| == n + 3 && r[..n] == s[..n] && r[n..] == "..."
  {
    if |s| > n then s[..n] + "..." else s
  }

  predicate StartsWithAt(t: string, i: nat, lit: string)
  {
    i + |lit| <= |t| && t[i..i + |lit|] == lit
  }

  predicate EndsWith(s: string, suffix: string)
  {
    |suffix| <= |s| && s[|s| - |suffix|..] == suffix
  }

  /** Python's `p in s` for strings. */
  predicate IsSubstring(p: string, s: string)
  {
    exists i: nat | i <= |s| :: StartsWithAt(s, i, p)
  }
}
