/** The round trip the doc comments of `ToCamelCase` and `FromCamelCase` describe:
    `this_is_a_test` to `thisIsATest` and back. */
module RoundTrip {
  import opened Ascii
  import opened StringExtensions
  import ComposerProperties

  /** `s` is words joined by single copies of the separator `d`: no character is upper-case
      or a separator other than `d`, and every `d` has a character before it and a lower-case
      letter after it (so there is no leading, trailing or doubled separator). */
  predicate JoinedWords(s: seq<char>, d: char) {
    (forall i :: 0 <= i < |s| ==> s[i] == d || (!IsUpper(s[i]) && !IsSeparator(s[i]))) &&
    (forall i :: 0 <= i < |s| && s[i] == d ==> 0 < i < |s| - 1 && IsLower(s[i + 1]))
  }

  /** A character inside a word is copied by the composer and copied back by the rescan. */
  lemma WordCharacterStep(s: seq<char>, d: char, n: nat)
    requires 0 < n <= |s| && !IsUpper(s[n - 1]) && !IsSeparator(s[n - 1])
    requires n == 1 || !IsSeparator(s[n - 2])
    requires Decomposed(Camel(s[..n - 1]), [d]) == s[..n - 1]
    ensures Decomposed(Camel(s[..n]), [d]) == s[..n]
  {
    var x := s[n - 1];
    var c := Camel(s[..n - 1]);
    calc {
      Decomposed(Camel(s[..n]), [d]);
    == { ComposedSnoc(s, n, Lower); assert Emit(s, n - 1, Lower) == [x]; }
      Decomposed(c + [x], [d]);
    == { DecomposedSnoc(c, x, [d]); }
      Decomposed(c, [d]) + Piece(c, x, [d]);
    ==
      s[..n - 1] + [x];
    == { assert s[..n] == s[..n - 1] + [x]; }
      s[..n];
    }
  }

  lemma LastTwo(s: seq<char>, n: nat)
    requires 2 <= n <= |s|
    ensures s[..n] == s[..n - 2] + [s[n - 2], s[n - 1]]
  {
  }

  /** The composer adds nothing for a separator. */
  lemma SeparatorAdds(s: seq<char>, n: nat)
    requires 1 < n <= |s| && IsSeparator(s[n - 1])
    ensures Camel(s[..n]) == Camel(s[..n - 1])
  {
    ComposedSnoc(s, n, Lower);
    assert Camel(s[..n - 1]) + [] == Camel(s[..n - 1]);
  }

  /** A separator and the letter after it: the composer drops the separator and upper-cases
      the letter, and the rescan puts the separator back in front of its lower-case form. */
  lemma BoundaryStep(s: seq<char>, d: char, n: nat)
    requires IsSeparator(d)
    requires 2 < n <= |s| && s[n - 2] == d && IsLower(s[n - 1])
    requires Decomposed(Camel(s[..n - 2]), [d]) == s[..n - 2]
    ensures Decomposed(Camel(s[..n]), [d]) == s[..n]
  {
    var x := s[n - 1];
    var c := Camel(s[..n - 2]);
    assert c != [] by {
      assert |Decomposed(c, [d])| == n - 2;
    }
    calc {
      Decomposed(Camel(s[..n]), [d]);
    == { ComposedSnoc(s, n, Lower); assert Emit(s, n - 1, Lower) == [ToUpper(x)]; }
      Decomposed(Camel(s[..n - 1]) + [ToUpper(x)], [d]);
    == { SeparatorAdds(s, n - 1); }
      Decomposed(c + [ToUpper(x)], [d]);
    == { DecomposedSnoc(c, ToUpper(x), [d]); }
      Decomposed(c, [d]) + Piece(c, ToUpper(x), [d]);
    == { assert Piece(c, ToUpper(x), [d]) == [d, x]; }
      s[..n - 2] + [d, x];
    == { LastTwo(s, n); }
      s[..n];
    }
  }

  /** The decomposer rebuilds every prefix of `s` that does not end in the separator from
      the camelCase of that prefix. */
  lemma {:induction false} PrefixRoundTrip(s: seq<char>, d: char, n: nat)
    requires IsSeparator(d) && JoinedWords(s, d)
    requires n <= |s| && (n == 0 || s[n - 1] != d)
    ensures Decomposed(Camel(s[..n]), [d]) == s[..n]
  {
    if n == 0 {
    } else if n == 1 || s[n - 2] != d {
      PrefixRoundTrip(s, d, n - 1);
      WordCharacterStep(s, d, n);
    } else {
      assert s[n - 3] != d;
      PrefixRoundTrip(s, d, n - 2);
      BoundaryStep(s, d, n);
    }
  }

  /** `FromCamelCase(ToCamelCase(s), d)` gives back `s` for words joined by `d`, where `d` is
      `_` or `-`. */
  lemma CamelRoundTrip(s: seq<char>, d: char)
    requires IsSeparator(d) && JoinedWords(s, d)
    ensures Separated(Camel(s), [d]) == s
  {
    ComposerProperties.CamelIdempotent(s);
    PrefixRoundTrip(s, d, |s|);
    assert s[..|s|] == s;
  }
}
