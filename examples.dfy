/** The conversions the doc comments of the converter give as examples. */
module Examples {
  import opened Ascii
  import opened StringExtensions
  import RoundTrip

  /** One step of evaluating the composer on a concrete input. */
  lemma ComposedStep(s: seq<char>, n: nat, t: FirstLetter, prev: seq<char>, next: seq<char>)
    requires 0 < n <= |s| && Composed(s[..n - 1], t) == prev && next == prev + Emit(s, n - 1, t)
    ensures Composed(s[..n], t) == next
  {
    ComposedSnoc(s, n, t);
  }

  /** The words "this", "is", "a" and "test" joined by the separator `d`. */
  predicate IsThisIsATest(s: seq<char>, d: char) {
    IsSeparator(d) && s == "this" + [d] + "is" + [d] + "a" + [d] + "test"
  }

  // The evaluation is split into short runs of steps to keep each proof small.

  lemma ThisIsATestUpTo2(s: seq<char>, d: char, t: FirstLetter)
    requires IsThisIsATest(s, d)
    ensures Composed(s[..2], t) == [ApplyFirst(t, 't')] + "h"
  {
    var f := ApplyFirst(t, 't');
    assert s[..0] == [];
    ComposedStep(s, 1, t, "", [f]);
    ComposedStep(s, 2, t, [f], [f] + "h");
  }

  lemma ThisIsATestUpTo4(s: seq<char>, d: char, t: FirstLetter)
    requires IsThisIsATest(s, d)
    ensures Composed(s[..4], t) == [ApplyFirst(t, 't')] + "his"
  {
    var f := ApplyFirst(t, 't');
    ThisIsATestUpTo2(s, d, t);
    ComposedStep(s, 3, t, [f] + "h", [f] + "hi");
    ComposedStep(s, 4, t, [f] + "hi", [f] + "his");
  }

  lemma ThisIsATestUpTo8(s: seq<char>, d: char, t: FirstLetter)
    requires IsThisIsATest(s, d)
    ensures Composed(s[..8], t) == [ApplyFirst(t, 't')] + "hisIs"
  {
    var f := ApplyFirst(t, 't');
    ThisIsATestUpTo4(s, d, t);
    ComposedStep(s, 5, t, [f] + "his", [f] + "his");
    ComposedStep(s, 6, t, [f] + "his", [f] + "hisI");
    ComposedStep(s, 7, t, [f] + "hisI", [f] + "hisIs");
    ComposedStep(s, 8, t, [f] + "hisIs", [f] + "hisIs");
  }

  lemma ThisIsATestUpTo11(s: seq<char>, d: char, t: FirstLetter)
    requires IsThisIsATest(s, d)
    ensures Composed(s[..11], t) == [ApplyFirst(t, 't')] + "hisIsAT"
  {
    var f := ApplyFirst(t, 't');
    ThisIsATestUpTo8(s, d, t);
    ComposedStep(s, 9, t, [f] + "hisIs", [f] + "hisIsA");
    ComposedStep(s, 10, t, [f] + "hisIsA", [f] + "hisIsA");
    ComposedStep(s, 11, t, [f] + "hisIsA", [f] + "hisIsAT");
  }

  /** `this_is_a_test` and `this-is-a-test` are `thisIsATest` in camelCase and
      `ThisIsATest` in PascalCase. */
  lemma ThisIsATestComposed(s: seq<char>, d: char, t: FirstLetter)
    requires IsThisIsATest(s, d)
    ensures Composed(s, t) == [ApplyFirst(t, 't')] + "hisIsATest"
  {
    var f := ApplyFirst(t, 't');
    ThisIsATestUpTo11(s, d, t);
    ComposedStep(s, 12, t, [f] + "hisIsAT", [f] + "hisIsATe");
    ComposedStep(s, 13, t, [f] + "hisIsATe", [f] + "hisIsATes");
    ComposedStep(s, 14, t, [f] + "hisIsATes", [f] + "hisIsATest");
    assert s[..14] == s;
  }

  lemma ThisIsATestJoined(s: seq<char>, d: char)
    requires IsThisIsATest(s, d)
    ensures RoundTrip.JoinedWords(s, d)
  {
  }

  /** `thisIsATest` back to `this_is_a_test` or `this-is-a-test`. */
  lemma ThisIsATestSeparated(s: seq<char>, d: char)
    requires IsThisIsATest(s, d)
    ensures Separated("thisIsATest", [d]) == s
  {
    ThisIsATestComposed(s, d, Lower);
    assert Camel(s) == "thisIsATest";
    ThisIsATestJoined(s, d);
    RoundTrip.CamelRoundTrip(s, d);
  }
}
