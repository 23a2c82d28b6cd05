/** The naming-convention converter of YamlDotNet's serialization utilities: the span-based
    composer (`ToCamelOrPascalCase`), its two public wrappers (`ToCamelCase`, `ToPascalCase`)
    and the decomposer (`FromCamelCase`).

    Each algorithm is specified by a function that gives the output for a prefix of the input,
    defined by dropping the last character; the methods are the source's left-to-right loops
    over a growing output buffer, and their invariant ties the buffer to that function.

    The regular-expression variants compiled for .NET Framework and .NET Standard 2.0 are not
    part of this model: they only join a separator to a following ASCII letter (so other
    separators survive) and they index the first character, failing on the empty string. */
module StringExtensions {
  import opened Ascii

  /** The first-letter transform the composer is given: lower-casing for camelCase,
      upper-casing for PascalCase. */
  datatype FirstLetter = Lower | Upper

  function ApplyFirst(t: FirstLetter, c: char): char
  {
    match t
    case Lower => ToLower(c)
    case Upper => ToUpper(c)
  }

  /** The two word separators the composer removes. */
  predicate IsSeparator(c: char) { c == '_' || c == '-' }

  // ---------------------------------------------------------------- composer

  /** What the composer appends for input index `i`: nothing for a separator, the
      first-letter transform at index 0, the upper-case form after a separator, and the
      character itself otherwise. */
  function Emit(s: seq<char>, i: nat, t: FirstLetter): (r: seq<char>)
    requires i < |s|
    ensures |r| <= 1
    ensures r == [] <==> IsSeparator(s[i])
  {
    if IsSeparator(s[i]) then []
    else if i == 0 then [ApplyFirst(t, s[i])]
    else if IsSeparator(s[i - 1]) then [ToUpper(s[i])]
    else [s[i]]
  }

  /** The composer's output for the whole of `s`. */
  function Composed(s: seq<char>, t: FirstLetter): (r: seq<char>)
    ensures |r| <= |s|
    decreases |s|
  {
    if s == [] then [] else Composed(s[..|s| - 1], t) + Emit(s, |s| - 1, t)
  }

  /** Extending the input by one index extends the output by that index's contribution. */
  lemma ComposedSnoc(s: seq<char>, n: nat, t: FirstLetter)
    requires 0 < n <= |s|
    ensures Composed(s[..n], t) == Composed(s[..n - 1], t) + Emit(s, n - 1, t)
  {
    assert s[..n][..n - 1] == s[..n - 1];
  }

  /** camelCase of `s`, as `ToCamelCase` returns it. */
  function Camel(s: seq<char>): seq<char> { Composed(s, Lower) }

  /** PascalCase of `s`, as `ToPascalCase` returns it. */
  function Pascal(s: seq<char>): seq<char> { Composed(s, Upper) }

  /** The composer: drops every `_` and `-`, passes index 0 through the first-letter
      transform, upper-cases a character whose input predecessor is a separator and copies
      every other character. */
  method ToCamelOrPascalCase(s: string, t: FirstLetter) returns (r: string)
    ensures r == Composed(s, t)
    ensures s == [] ==> r == []
  {
    var output: string := [];
    for i := 0 to |s|
      invariant output == Composed(s[..i], t)
    {
      ComposedSnoc(s, i + 1, t);
      if IsSeparator(s[i]) {
        continue;
      }
      if i == 0 {
        output := output + [ApplyFirst(t, s[i])];
        continue;
      }
      if IsSeparator(s[i - 1]) {
        output := output + [ToUpper(s[i])];
        continue;
      }
      output := output + [s[i]];
    }
    assert s[..|s|] == s;
    r := output;
  }

  /** `ToCamelCase`: the composer with the lower-casing first-letter transform. */
  method ToCamelCase(s: string) returns (r: string)
    ensures r == Camel(s)
    ensures s == [] ==> r == []
  {
    r := ToCamelOrPascalCase(s, Lower);
  }

  /** `ToPascalCase`: the composer with the upper-casing first-letter transform. */
  method ToPascalCase(s: string) returns (r: string)
    ensures r == Pascal(s)
    ensures s == [] ==> r == []
  {
    r := ToCamelOrPascalCase(s, Upper);
  }

  // -------------------------------------------------------------- decomposer

  /** What the decomposer appends for a character `x` that follows `|c|` characters of the
      camelCase text: the lower-cased first character, the separator and the lower-cased
      character at a later upper-case letter, and the character itself otherwise. */
  function Piece(c: seq<char>, x: char, sep: seq<char>): (r: seq<char>)
    ensures |r| >= 1
  {
    if |c| == 0 then [ToLower(x)]
    else if IsUpper(x) then sep + [ToLower(x)]
    else [x]
  }

  /** The decomposer's rescan of a camelCase text `c` with separator `sep`. */
  function Decomposed(c: seq<char>, sep: seq<char>): (r: seq<char>)
    ensures |r| >= |c|
    decreases |c|
  {
    if c == [] then [] else Decomposed(c[..|c| - 1], sep) + Piece(c[..|c| - 1], c[|c| - 1], sep)
  }

  lemma DecomposedSnoc(c: seq<char>, x: char, sep: seq<char>)
    ensures Decomposed(c + [x], sep) == Decomposed(c, sep) + Piece(c, x, sep)
  {
    assert (c + [x])[..|c|] == c;
  }

  /** `FromCamelCase(s, sep)`: camelCase first, then the rescan. */
  function Separated(s: seq<char>, sep: seq<char>): seq<char> { Decomposed(Camel(s), sep) }

  /** The decomposer: renders `s` in camelCase, forces its first character to lower case and
      replaces every later upper-case character by `sep` and its lower-case form. */
  method FromCamelCase(s: string, sep: string) returns (r: string)
    ensures r == Separated(s, sep)
    ensures s == [] ==> r == []
  {
    var tmp := ToCamelCase(s);
    var output: string := [];
    for i := 0 to |tmp|
      invariant output == Decomposed(tmp[..i], sep)
    {
      var c := tmp[i];
      assert tmp[..i + 1][..i] == tmp[..i];
      if i == 0 {
        output := output + [ToLower(c)];
        continue;
      }
      if IsUpper(c) {
        output := output + sep;
        output := output + [ToLower(c)];
        continue;
      }
      output := output + [c];
    }
    assert tmp[..|tmp|] == tmp;
    r := output;
  }
}
