/** Properties of the composer behind `ToCamelCase` and `ToPascalCase`. */
module ComposerProperties {
  import opened Ascii
  import opened StringExtensions

  /** Number of separator characters in `s`. */
  function SeparatorCount(s: seq<char>): (n: nat)
    ensures n <= |s|
    decreases |s|
  {
    if s == [] then 0
    else SeparatorCount(s[..|s| - 1]) + (if IsSeparator(s[|s| - 1]) then 1 else 0)
  }

  /** Index of the first non-separator character of `s`, or `|s|` when there is none. */
  function FirstKept(s: seq<char>): (k: nat)
    ensures k <= |s|
    ensures forall j :: 0 <= j < k ==> IsSeparator(s[j])
    ensures k < |s| ==> !IsSeparator(s[k])
  {
    if s == [] || !IsSeparator(s[0]) then 0 else 1 + FirstKept(s[1..])
  }

  /** A prefix made only of separators counts all its characters. */
  lemma {:induction false} AllSeparatorsCount(s: seq<char>, k: nat)
    requires k <= |s|
    requires forall j :: 0 <= j < k ==> IsSeparator(s[j])
    ensures SeparatorCount(s[..k]) == k
  {
    if k > 0 {
      assert s[..k][..k - 1] == s[..k - 1];
      AllSeparatorsCount(s, k - 1);
    }
  }

  /** The composer's output for a prefix of the input is a prefix of its output. */
  lemma {:induction false} ComposedPrefix(s: seq<char>, n: nat, t: FirstLetter)
    requires n <= |s|
    ensures Composed(s[..n], t) <= Composed(s, t)
    decreases |s|
  {
    if n == |s| {
      assert s[..n] == s;
    } else {
      var p := s[..|s| - 1];
      ComposedPrefix(p, n, t);
      assert p[..n] == s[..n];
    }
  }

  /** The composer drops every separator and nothing else: the output holds no `_` or `-`
      and is shorter than the input by exactly the number of separators. */
  lemma {:induction false} ComposedDropsSeparators(s: seq<char>, t: FirstLetter)
    ensures |Composed(s, t)| == |s| - SeparatorCount(s)
    ensures forall j :: 0 <= j < |Composed(s, t)| ==> !IsSeparator(Composed(s, t)[j])
  {
    if s != [] {
      ComposedDropsSeparators(s[..|s| - 1], t);
    }
  }

  /** The per-character rule: a non-separator at input index `i` lands at output position
      `i` minus the separators before it, as the first-letter transform of it at index 0,
      upper-cased after a separator, and unchanged otherwise. */
  lemma {:induction false} ComposedAt(s: seq<char>, t: FirstLetter, i: nat)
    requires i < |s| && !IsSeparator(s[i])
    ensures i - SeparatorCount(s[..i]) < |Composed(s, t)|
    ensures Composed(s, t)[i - SeparatorCount(s[..i])] ==
              if i == 0 then ApplyFirst(t, s[0])
              else if IsSeparator(s[i - 1]) then ToUpper(s[i])
              else s[i]
  {
    ComposedPrefix(s, i + 1, t);
    ComposedSnoc(s, i + 1, t);
    ComposedDropsSeparators(s[..i], t);
  }

  /** The first output character: when the input does not start with a separator it is the
      first-letter transform of the input's first character; otherwise it is the first
      non-separator character upper-cased, whatever the transform. The output is empty
      exactly when the input is all separators. */
  lemma {:induction false} FirstEmitted(s: seq<char>, t: FirstLetter)
    ensures Composed(s, t) != [] <==> FirstKept(s) < |s|
    ensures Composed(s, t) != [] ==>
              Composed(s, t)[0] ==
                if FirstKept(s) == 0 then ApplyFirst(t, s[0]) else ToUpper(s[FirstKept(s)])
  {
    var k := FirstKept(s);
    AllSeparatorsCount(s, k);
    if k < |s| {
      ComposedAt(s, t, k);
    } else {
      assert s[..k] == s;
      ComposedDropsSeparators(s, t);
    }
  }

  /** The first-letter policy affects output position 0 only; when the input starts with a
      separator it affects nothing, so camelCase and PascalCase coincide. */
  lemma {:induction false} PolicyOnlyAffectsFirst(s: seq<char>)
    ensures |Camel(s)| == |Pascal(s)|
    ensures forall j :: 0 < j < |Camel(s)| ==> Camel(s)[j] == Pascal(s)[j]
    ensures s != [] && IsSeparator(s[0]) ==> Camel(s) == Pascal(s)
  {
    if s != [] {
      var p := s[..|s| - 1];
      PolicyOnlyAffectsFirst(p);
      assert p != [] ==> p[0] == s[0];
      ComposedDropsSeparators(p, Lower);
    }
  }

  /** `ToCamelCase` lower-cases and `ToPascalCase` upper-cases the first character of an
      input that does not start with a separator. */
  lemma CamelPascalFirstLetter(s: seq<char>)
    requires s != [] && !IsSeparator(s[0])
    ensures Camel(s) != [] && Camel(s)[0] == ToLower(s[0])
    ensures Pascal(s) != [] && Pascal(s)[0] == ToUpper(s[0])
  {
    FirstEmitted(s, Lower);
    FirstEmitted(s, Upper);
  }

  /** The leading-separator corner: the first kept character is upper-cased even for
      camelCase, so the two conventions give the same text. */
  lemma LeadingSeparatorDefeatsPolicy(s: seq<char>)
    requires s != [] && IsSeparator(s[0]) && FirstKept(s) < |s|
    ensures Camel(s) == Pascal(s)
    ensures Camel(s) != [] && Camel(s)[0] == ToUpper(s[FirstKept(s)])
  {
    PolicyOnlyAffectsFirst(s);
    FirstEmitted(s, Lower);
  }

  lemma LeadingSeparatorExample()
    ensures Camel("_foo") == "Foo"
  {
    LeadingSeparatorDefeatsPolicy("_foo");
    ComposedDropsSeparators("_foo", Lower);
    ComposedAt("_foo", Lower, 2);
    ComposedAt("_foo", Lower, 3);
  }

  /** On separator-free input the composer changes the first character only. */
  lemma {:induction false} SeparatorFreeComposed(s: seq<char>, t: FirstLetter)
    requires forall j :: 0 <= j < |s| ==> !IsSeparator(s[j])
    ensures Composed(s, t) == if s == [] then [] else [ApplyFirst(t, s[0])] + s[1..]
  {
    if |s| > 1 {
      SeparatorFreeComposed(s[..|s| - 1], t);
    }
  }

  /** `ToCamelCase` is idempotent on every input that does not start with a separator, in
      particular on every separator-free input. */
  lemma CamelIdempotent(s: seq<char>)
    requires s == [] || !IsSeparator(s[0])
    ensures Camel(Camel(s)) == Camel(s)
  {
    var c := Camel(s);
    ComposedDropsSeparators(s, Lower);
    SeparatorFreeComposed(c, Lower);
    if s != [] {
      CamelPascalFirstLetter(s);
      calc {
        Camel(c);
        [ToLower(c[0])] + c[1..];
        [c[0]] + c[1..];
        { assert c == [c[0]] + c[1..]; }
        c;
      }
    }
  }

  /** ...but not on one that does: the leading separator leaves an upper-case first letter,
      which a second pass lower-cases. */
  lemma CamelNotIdempotentAfterLeadingSeparator(s: seq<char>)
    requires s != [] && IsSeparator(s[0]) && FirstKept(s) < |s| && IsLower(s[FirstKept(s)])
    ensures Camel(Camel(s)) != Camel(s)
  {
    var c := Camel(s);
    LeadingSeparatorDefeatsPolicy(s);
    ComposedDropsSeparators(s, Lower);
    SeparatorFreeComposed(c, Lower);
    assert Camel(c)[0] != c[0];
  }

  /** `ToPascalCase` is idempotent on every input. */
  lemma PascalIdempotent(s: seq<char>)
    ensures Pascal(Pascal(s)) == Pascal(s)
  {
    var p := Pascal(s);
    ComposedDropsSeparators(s, Upper);
    SeparatorFreeComposed(p, Upper);
    FirstEmitted(s, Upper);
  }
}
