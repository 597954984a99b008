/** The string operations the menu and language code rely on: ASCII case mapping,
    character replacement, `str.split` with a maximum number of splits, and Python's
    ordering of strings (lexicographic by code point). */
module Strings {
  import opened Common

  function LowerChar(c: char): char {
    if 'A' <= c <= 'Z' then (c as int + 32) as char else c
  }

  function UpperChar(c: char): char {
    if 'a' <= c <= 'z' then (c as int - 32) as char else c
  }

  /** `s.lower()`, restricted to ASCII letters. */
  function Lower(s: string): string {
    seq(|s|, i requires 0 <= i < |s| => LowerChar(s[i]))
  }

  /** `s.upper()`, restricted to ASCII letters. */
  function Upper(s: string): string {
    seq(|s|, i requires 0 <= i < |s| => UpperChar(s[i]))
  }

  /** `s.replace(a, b)` for single characters. */
  function Replace(s: string, a: char, b: char): string {
    seq(|s|, i requires 0 <= i < |s| => if s[i] == a then b else s[i])
  }

  /** No ASCII upper-case letter occurs in `s`. */
  predicate IsLower(s: string) {
    forall i :: 0 <= i < |s| ==> !('A' <= s[i] <= 'Z')
  }

  lemma LowerOfLower(s: string)
    requires IsLower(s)
    ensures Lower(s) == s
  {
  }

  lemma LowerSlice(s: string, i: nat, j: nat)
    requires i <= j <= |s|
    ensures IsLower(Lower(s)[i..j])
  {
  }

  /** Number of occurrences of `c` in `s`. */
  function Count(s: string, c: char): nat {
    if s == [] then 0 else (if s[0] == c then 1 else 0) + Count(s[1..], c)
  }

  lemma {:induction false} CountConcat(a: string, b: string, c: char)
    ensures Count(a + b, c) == Count(a, c) + Count(b, c)
  {
    if a != [] {
      assert (a + b)[1..] == a[1..] + b;
      CountConcat(a[1..], b, c);
    } else {
      assert a + b == b;
    }
  }

  lemma {:induction false} CountAbsent(s: string, c: char)
    ensures c !in s <==> Count(s, c) == 0
  {
    if s != [] {
      CountAbsent(s[1..], c);
      assert s == [s[0]] + s[1..];
    }
  }

  /** Index of the first occurrence of `c` in `s`, as `s.find(c)` without the -1. */
  function Find(s: string, c: char): (k: Option<nat>)
    ensures k.Some? ==> k.value < |s| && s[k.value] == c && c !in s[..k.value]
    ensures k.None? ==> c !in s
  {
    if s == [] then None
    else if s[0] == c then Some(0)
    else match Find(s[1..], c)
      case None => None
      case Some(k) =>
        assert s[..k + 1] == [s[0]] + s[1..][..k];
        Some(k + 1)
  }

  function Min(a: nat, b: nat): nat {
    if a < b then a else b
  }

  /** Joins non-empty `parts` with `sep` between them: the inverse of Split. */
  function Join(parts: seq<string>, sep: char): string
    requires |parts| >= 1
  {
    if |parts| == 1 then parts[0] else parts[0] + [sep] + Join(parts[1..], sep)
  }

  /** `s.split(sep, maxsplit)`: cuts at the first `maxsplit` occurrences of `sep`,
      so there are never more than `maxsplit + 1` parts and the last one keeps the rest. */
  function Split(s: string, sep: char, maxsplit: nat): (parts: seq<string>)
    ensures |parts| == Min(Count(s, sep), maxsplit) + 1
    ensures Join(parts, sep) == s
    ensures forall i :: 0 <= i < |parts| - 1 ==> sep !in parts[i]
    ensures |parts| <= maxsplit ==> sep !in parts[|parts| - 1]
    decreases |s|
  {
    if maxsplit == 0 then
      [s]
    else match Find(s, sep)
      case None =>
        CountAbsent(s, sep);
        [s]
      case Some(k) =>
        var rest := Split(s[k + 1..], sep, maxsplit - 1);
        SplitStep(s, sep, maxsplit, k, rest);
        [s[..k]] + rest
  }

  /** Cutting at the first `sep` and splitting the remainder splits the whole. */
  lemma SplitStep(s: string, sep: char, maxsplit: nat, k: nat, rest: seq<string>)
    requires maxsplit > 0 && k < |s| && s[k] == sep && sep !in s[..k]
    requires |rest| == Min(Count(s[k + 1..], sep), maxsplit - 1) + 1
    requires Join(rest, sep) == s[k + 1..]
    requires forall i :: 0 <= i < |rest| - 1 ==> sep !in rest[i]
    requires |rest| <= maxsplit - 1 ==> sep !in rest[|rest| - 1]
    ensures var parts := [s[..k]] + rest;
      && |parts| == Min(Count(s, sep), maxsplit) + 1
      && Join(parts, sep) == s
      && (forall i :: 0 <= i < |parts| - 1 ==> sep !in parts[i])
      && (|parts| <= maxsplit ==> sep !in parts[|parts| - 1])
  {
    var parts := [s[..k]] + rest;
    assert s == s[..k] + [sep] + s[k + 1..];
    CountConcat(s[..k] + [sep], s[k + 1..], sep);
    CountConcat(s[..k], [sep], sep);
    CountAbsent(s[..k], sep);
    assert parts[1..] == rest;
    assert forall i :: 1 <= i < |parts| ==> parts[i] == rest[i - 1];
  }

  /** Python's `a <= b` on strings: lexicographic order on code points. */
  predicate Le(a: string, b: string)
    decreases |a|
  {
    a == [] || (b != [] && (a[0] < b[0] || (a[0] == b[0] && Le(a[1..], b[1..]))))
  }

  lemma LeReflexive(a: string)
    ensures Le(a, a)
  {
  }

  lemma LeTotal(a: string, b: string)
    ensures Le(a, b) || Le(b, a)
  {
  }

  lemma LeTransitive(a: string, b: string, c: string)
    requires Le(a, b) && Le(b, c)
    ensures Le(a, c)
  {
  }
}
