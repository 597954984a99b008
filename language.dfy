/** `get_possible_language_codes`: the codes under which the admin looks up a translation
    of its date picker and select widgets for the active language. */
module Language {
  import opened Strings

  /** The active language with `_` turned into `-`, in lower case. */
  function Normalized(language: string): string {
    Lower(Replace(language, '_', '-'))
  }

  /** The codes to try, most specific first. With exactly one `-` in the normalised code
      the dialect part goes upper case and the bare language follows; a code whose two parts
      are equal is reduced to its first part. */
  function PossibleLanguageCodes(language: string): (codes: seq<string>)
    ensures 1 <= |codes| <= 2
    ensures |codes| == 2 <==> Count(Normalized(language), '-') == 1
  {
    var code := Normalized(language);
    var split := Split(code, '-', 2);
    if |split| == 2 then
      var first := if split[0] != split[1] then Lower(split[0]) + "-" + Upper(split[1]) else split[0];
      [first, Lower(split[0])]
    else
      [code]
  }

  lemma LowerOfUpper(s: string)
    requires IsLower(s)
    ensures Lower(Upper(s)) == s
  {
  }

  lemma LowerParts(a: string, b: string)
    requires IsLower(a + "-" + b)
    ensures IsLower(a) && IsLower(b)
  {
    forall i | 0 <= i < |a| ensures !('A' <= a[i] <= 'Z') {
      assert a[i] == (a + "-" + b)[i];
    }
    forall i | 0 <= i < |b| ensures !('A' <= b[i] <= 'Z') {
      assert b[i] == (a + "-" + b)[|a| + 1 + i];
    }
  }

  lemma NormalizedIsLower(language: string)
    ensures IsLower(Normalized(language))
    ensures '_' !in Normalized(language)
  {
    LowerSlice(Replace(language, '_', '-'), 0, |language|);
    assert Lower(Replace(language, '_', '-'))[0..|language|] == Normalized(language);
  }

  /** With one `-` in the normalised active language, the first code is its language part,
      a `-` and its dialect part in upper case (so it reads in lower case as the normalised
      language), unless the two parts coincide, when it is the language part alone; the
      second code is the language part: what precedes the only `-`. */
  lemma {:induction false} FirstCodeMatches(language: string)
    ensures var codes := PossibleLanguageCodes(language);
      var n := Normalized(language);
      if |codes| == 2 then
        exists a, b :: n == a + "-" + b && '-' !in a && '-' !in b && codes[1] == a
          && (a != b ==> codes[0] == a + "-" + Upper(b) && Lower(codes[0]) == n) && (a == b ==> codes[0] == a)
      else
        codes == [n]
  {
    var codes := PossibleLanguageCodes(language);
    var n := Normalized(language);
    var split := Split(n, '-', 2);
    if |split| == 2 {
      NormalizedIsLower(language);
      var a, b := split[0], split[1];
      assert Join(split, '-') == a + ['-'] + Join(split[1..], '-');
      assert split[1..] == [b];
      assert n == a + "-" + b;
      LowerParts(a, b);
      LowerOfLower(a);
      assert codes[1] == a;
      if a != b {
        assert codes[0] == Lower(a) + "-" + Upper(b);
        LowerOfUpper(b);
        LowerOfLower(a + "-");
        assert Lower(codes[0]) == Lower(a + "-") + Lower(Upper(b));
      }
    }
  }

  /** No code keeps an underscore, and the last code, the most general one, starts the
      normalised active language. */
  lemma {:induction false} LastCodeIsPrefix(language: string)
    ensures var codes := PossibleLanguageCodes(language);
      (forall i :: 0 <= i < |codes| ==> '_' !in codes[i])
      && codes[|codes| - 1] <= Normalized(language)
  {
    var codes := PossibleLanguageCodes(language);
    var n := Normalized(language);
    NormalizedIsLower(language);
    FirstCodeMatches(language);
    if |codes| == 2 {
      var a, b :| n == a + "-" + b && '-' !in a && '-' !in b && codes[1] == a
        && (a != b ==> codes[0] == a + "-" + Upper(b) && Lower(codes[0]) == n) && (a == b ==> codes[0] == a);
      assert n[..|a|] == a;
      assert forall c :: c in a ==> c in n;
      if a != b {
        NoUnderscoreUnderLower(codes[0]);
      }
    }
  }

  /** Case mapping leaves `_` alone, so a string whose lower case has none has none. */
  lemma NoUnderscoreUnderLower(t: string)
    requires '_' !in Lower(t)
    ensures '_' !in t
  {
    forall i | 0 <= i < |t| ensures t[i] != '_' {
      assert Lower(t)[i] == LowerChar(t[i]);
    }
  }
}
