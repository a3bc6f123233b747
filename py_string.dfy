/**
 * The Python string builtins that util.py relies on, restricted to the way it
 * uses them: `startswith`, `split` with and without `maxsplit`, `"".join`,
 * `replace`, and the ASCII part of `upper`/`lower`/`capitalize`.
 */
module PyString {

  /** `s.startswith(p)` */
  predicate StartsWith(s: string, p: string) {
    |p| <= |s| && s[..|p|] == p
  }

  /** The pattern `pat` occurs in `s` at index `i`. */
  predicate OccursAt(s: string, pat: string, i: nat) {
    i + |pat| <= |s| && s[i..i + |pat|] == pat
  }

  /** `pat in s` */
  predicate Contains(s: string, pat: string) {
    exists i: nat :: i <= |s| && OccursAt(s, pat, i)
  }

  /** Index of the first `c` in `s`, or `|s|` when `c` does not occur. */
  function IndexOf(s: string, c: char): (i: nat)
    ensures i <= |s|
    ensures i < |s| ==> s[i] == c
    ensures forall j :: 0 <= j < i ==> s[j] != c
  {
    if s == [] || s[0] == c then 0 else 1 + IndexOf(s[1..], c)
  }

  /** `sep.join(parts)` for a one-character separator. */
  function Join(parts: seq<string>, sep: char): string {
    if |parts| == 0 then ""
    else if |parts| == 1 then parts[0]
    else parts[0] + [sep] + Join(parts[1..], sep)
  }

  /** `"".join(parts)` */
  function Concat(parts: seq<string>): string {
    if parts == [] then "" else parts[0] + Concat(parts[1..])
  }

  /** `s.split(sep)`: every part is free of `sep` and joining them gives `s` back. */
  function Split(s: string, sep: char): (parts: seq<string>)
    ensures |parts| >= 1
    ensures forall k :: 0 <= k < |parts| ==> sep !in parts[k]
    ensures Join(parts, sep) == s
    decreases |s|
  {
    var i := IndexOf(s, sep);
    if i == |s| then [s]
    else
      var rest := Split(s[i + 1..], sep);
      assert s == s[..i] + [sep] + s[i + 1..];
      [s[..i]] + rest
  }

  /** `s.split(sep, n)`: at most `n` splits, taken from the left; the last part
      keeps the remaining separators, and holds none when fewer than `n` splits
      were possible. */
  function SplitN(s: string, sep: char, n: nat): (parts: seq<string>)
    ensures 1 <= |parts| <= n + 1
    ensures Join(parts, sep) == s
    ensures forall k :: 0 <= k < |parts| - 1 ==> sep !in parts[k]
    ensures |parts| < n + 1 ==> sep !in parts[|parts| - 1]
    decreases n
  {
    var i := IndexOf(s, sep);
    if n == 0 || i == |s| then [s]
    else
      var rest := SplitN(s[i + 1..], sep, n - 1);
      assert s == s[..i] + [sep] + s[i + 1..];
      [s[..i]] + rest
  }

  /** Splitting what was joined gives the parts back, when no part holds the separator. */
  lemma {:induction false} SplitJoin(parts: seq<string>, sep: char)
    requires |parts| >= 1
    requires forall k :: 0 <= k < |parts| ==> sep !in parts[k]
    ensures Split(Join(parts, sep), sep) == parts
    decreases |parts|
  {
    if |parts| > 1 {
      var s := Join(parts, sep);
      var p := parts[0];
      var t := [sep] + Join(parts[1..], sep);
      assert s == p + t;
      assert IndexOf(t, sep) == 0;
      IndexOfPrefix(p, t, sep);
      assert s[..|p|] == p;
      assert s[|p| + 1..] == Join(parts[1..], sep);
      SplitAtFirst(s, sep);
      SplitJoin(parts[1..], sep);
      assert parts == [p] + parts[1..];
    }
  }

  /** One step of `Split`: the text up to the first separator, then the split of the rest. */
  lemma SplitAtFirst(s: string, sep: char)
    requires IndexOf(s, sep) < |s|
    ensures Split(s, sep) == [s[..IndexOf(s, sep)]] + Split(s[IndexOf(s, sep) + 1..], sep)
  {
  }

  /** The first `c` in `p + t` is the first `c` in `t` shifted, when `p` holds no `c`. */
  lemma {:induction false} IndexOfPrefix(p: string, t: string, c: char)
    requires c !in p
    ensures IndexOf(p + t, c) == |p| + IndexOf(t, c)
    decreases |p|
  {
    if p == [] {
      assert p + t == t;
    } else {
      assert (p + t)[0] == p[0] != c;
      assert (p + t)[1..] == p[1..] + t;
      IndexOfPrefix(p[1..], t, c);
    }
  }

  predicate IsLower(c: char) { 'a' <= c <= 'z' }
  predicate IsUpper(c: char) { 'A' <= c <= 'Z' }
  predicate IsDigit(c: char) { '0' <= c <= '9' }

  /** `c.upper()` on ASCII: a lower-case letter becomes its capital, anything else stays. */
  function UpperChar(c: char): (u: char)
    ensures IsLower(c) ==> IsUpper(u) && u as int == c as int - 32
    ensures !IsLower(c) ==> u == c
  {
    if IsLower(c) then (c as int - 32) as char else c
  }

  /** `c.lower()` on ASCII: a capital becomes its lower-case letter, anything else stays. */
  function LowerChar(c: char): (l: char)
    ensures IsUpper(c) ==> IsLower(l) && l as int == c as int + 32
    ensures !IsUpper(c) ==> l == c
  {
    if IsUpper(c) then (c as int + 32) as char else c
  }

  /** `s.upper()` on ASCII. */
  function Upper(s: string): (u: string)
    ensures |u| == |s|
    ensures forall k :: 0 <= k < |s| ==> u[k] == UpperChar(s[k]) && !IsLower(u[k])
  {
    if s == [] then [] else [UpperChar(s[0])] + Upper(s[1..])
  }

  /** An occurrence in the tail of `s` is an occurrence in `s`. */
  lemma ContainsTail(s: string, pat: string)
    requires s != []
    ensures Contains(s[1..], pat) ==> Contains(s, pat)
  {
    if Contains(s[1..], pat) {
      var i: nat :| i <= |s[1..]| && OccursAt(s[1..], pat, i);
      assert s[i + 1..i + 1 + |pat|] == s[1..][i..i + |pat|];
      assert OccursAt(s, pat, i + 1);
    }
  }

  /** `s.replace(pat, rep)`: left-to-right, non-overlapping replacement. */
  function Replace(s: string, pat: string, rep: string): (r: string)
    requires |pat| > 0
    ensures !Contains(s, pat) ==> r == s
    decreases |s|
  {
    if |s| < |pat| then s
    else if s[..|pat|] == pat then
      assert OccursAt(s, pat, 0);
      rep + Replace(s[|pat|..], pat, rep)
    else
      ContainsTail(s, pat);
      [s[0]] + Replace(s[1..], pat, rep)
  }

  /** One step of `Replace` where the pattern starts the text. */
  lemma ReplaceAtMatch(s: string, pat: string, rep: string)
    requires 0 < |pat| <= |s| && s[..|pat|] == pat
    ensures Replace(s, pat, rep) == rep + Replace(s[|pat|..], pat, rep)
  {
  }

  /** One step of `Replace` where the pattern does not start the text. */
  lemma ReplaceAtMismatch(s: string, pat: string, rep: string)
    requires 0 < |pat| <= |s| && s[..|pat|] != pat
    ensures Replace(s, pat, rep) == [s[0]] + Replace(s[1..], pat, rep)
  {
  }

  /** Replacing a pattern by itself changes nothing. */
  lemma {:induction false} ReplaceBySelf(s: string, pat: string)
    requires |pat| > 0
    ensures Replace(s, pat, pat) == s
    decreases |s|
  {
    if |s| >= |pat| {
      if s[..|pat|] == pat {
        ReplaceBySelf(s[|pat|..], pat);
        ReplaceAtMatch(s, pat, pat);
        assert s == pat + s[|pat|..];
      } else {
        ReplaceBySelf(s[1..], pat);
        ReplaceAtMismatch(s, pat, pat);
        assert s == [s[0]] + s[1..];
      }
    }
  }
}
