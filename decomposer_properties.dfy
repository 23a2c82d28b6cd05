/** Properties of the decomposer behind `FromCamelCase`. */
module DecomposerProperties {
  import opened Ascii
  import opened StringExtensions
  import ComposerProperties

  /** Number of upper-case characters of `c` after its first position: the word boundaries
      at which the decomposer inserts the separator. */
  function Boundaries(c: seq<char>): (n: nat)
    ensures n < |c| || n == 0
    decreases |c|
  {
    if |c| <= 1 then 0
    else Boundaries(c[..|c| - 1]) + (if IsUpper(c[|c| - 1]) then 1 else 0)
  }

  /** `c` with every character lower-cased. */
  function Lowered(c: seq<char>): (r: seq<char>)
    ensures |r| == |c|
  {
    seq(|c|, i requires 0 <= i < |c| => ToLower(c[i]))
  }

  /** The rescan of a prefix is a prefix of the rescan. */
  lemma {:induction false} DecomposedPrefix(c: seq<char>, n: nat, sep: seq<char>)
    requires n <= |c|
    ensures Decomposed(c[..n], sep) <= Decomposed(c, sep)
    decreases |c|
  {
    if n == |c| {
      assert c[..n] == c;
    } else {
      var p := c[..|c| - 1];
      DecomposedPrefix(p, n, sep);
      assert p[..n] == c[..n];
    }
  }

  /** One separator per boundary: the output is longer than the camelCase text by `|sep|`
      for every upper-case character after the first position. */
  lemma {:induction false} DecomposedLength(c: seq<char>, sep: seq<char>)
    ensures |Decomposed(c, sep)| == |c| + |sep| * Boundaries(c)
  {
    if c != [] {
      var p, x := c[..|c| - 1], c[|c| - 1];
      DecomposedLength(p, sep);
      assert |Decomposed(c, sep)| == |Decomposed(p, sep)| + |Piece(p, x, sep)|;
      if |p| > 0 && IsUpper(x) {
        assert Boundaries(c) == Boundaries(p) + 1;
        MulSucc(|sep|, Boundaries(p));
      } else {
        assert Boundaries(c) == Boundaries(p);
      }
    }
  }

  lemma MulSucc(k: nat, b: nat)
    ensures k * (b + 1) == k * b + k
  {
  }

  /** Where the decomposer writes camelCase index `i`: after the `i` characters before it and
      one separator per boundary among them. */
  function Position(c: seq<char>, sep: seq<char>, i: nat): nat
    requires i <= |c|
  {
    i + |sep| * Boundaries(c[..i])
  }

  /** The rescan up to camelCase index `i`, then that index's piece, starts the rescan. */
  lemma DecomposedSplit(c: seq<char>, sep: seq<char>, i: nat)
    requires i < |c|
    ensures |Decomposed(c[..i], sep)| == Position(c, sep, i)
    ensures Decomposed(c[..i], sep) + Piece(c[..i], c[i], sep) <= Decomposed(c, sep)
  {
    DecomposedLength(c[..i], sep);
    DecomposedPrefix(c, i + 1, sep);
    assert c[..i + 1] == c[..i] + [c[i]];
    DecomposedSnoc(c[..i], c[i], sep);
  }

  /** The piece `b` written after `a` sits at positions `|a|` to `|a| + |b|` of any
      extension of `a + b`. */
  lemma PieceAt(a: seq<char>, b: seq<char>, out: seq<char>)
    requires a + b <= out
    ensures |a| + |b| <= |out| && out[|a|..|a| + |b|] == b
  {
    assert out[..|a| + |b|] == a + b;
    assert out[|a|..|a| + |b|] == (a + b)[|a|..];
  }

  /** The per-character rule: camelCase index `i` lands at position `i` plus `|sep|` per
      boundary before it; index 0 becomes its lower-case form, a later upper-case letter
      becomes `sep` followed by its lower-case form, and anything else is copied. */
  lemma DecomposedAt(c: seq<char>, sep: seq<char>, i: nat)
    requires i < |c|
    ensures var out, p := Decomposed(c, sep), Position(c, sep, i);
            if i == 0 then 0 < |out| && out[0] == ToLower(c[0])
            else if IsUpper(c[i]) then
              p + |sep| < |out| && out[p..p + |sep| + 1] == sep + [ToLower(c[i])]
            else p < |out| && out[p] == c[i]
  {
    DecomposedSplit(c, sep, i);
    PieceAt(Decomposed(c[..i], sep), Piece(c[..i], c[i], sep), Decomposed(c, sep));
  }

  /** With an empty separator the decomposer just lower-cases every character. */
  lemma {:induction false} EmptySeparatorLowers(c: seq<char>)
    ensures Decomposed(c, []) == Lowered(c)
  {
    if c != [] {
      var p := c[..|c| - 1];
      EmptySeparatorLowers(p);
    }
  }

  /** With a separator free of upper-case letters the result holds no upper-case letter. */
  lemma {:induction false} DecomposedIsLowerCase(c: seq<char>, sep: seq<char>)
    requires forall k :: 0 <= k < |sep| ==> !IsUpper(sep[k])
    ensures forall j :: 0 <= j < |Decomposed(c, sep)| ==> !IsUpper(Decomposed(c, sep)[j])
  {
    if c != [] {
      var p := c[..|c| - 1];
      DecomposedIsLowerCase(p, sep);
    }
  }

  /** `FromCamelCase` starts with a lower-case letter even after a leading separator, which
      made the camelCase text start with an upper-case one. */
  lemma SeparatedRepairsLeadingSeparator(s: seq<char>, sep: seq<char>)
    requires s != [] && IsSeparator(s[0]) && ComposerProperties.FirstKept(s) < |s|
    ensures Separated(s, sep) != []
    ensures Separated(s, sep)[0] == ToLower(s[ComposerProperties.FirstKept(s)])
  {
    ComposerProperties.LeadingSeparatorDefeatsPolicy(s);
    DecomposedAt(Camel(s), sep, 0);
  }
}
