# YamlDotNet naming-convention converter, modelled in Dafny

YamlDotNet's naming conventions map a YAML key such as `this_is_a_test` to a .NET member
name such as `thisIsATest` and back. The mapping is done by three string extension methods
in `YamlDotNet/Serialization/Utilities/StringExtensions.cs`. This project models the
span-based build of them and proves what they compute.

- **Composer** (`ToCamelOrPascalCase`). It scans the input left to right.
  - Every `_` and `-` is dropped.
  - The character at index 0 goes through a first-letter transform.
  - A character whose input predecessor is a separator is upper-cased.
  - Every other character is copied.
- **`ToCamelCase` / `ToPascalCase`** call the composer with the lower-casing or the
  upper-casing first-letter transform.
- **Decomposer** (`FromCamelCase(str, separator)`). It first renders `str` in camelCase.
  - It then lower-cases index 0.
  - Each later upper-case character becomes `separator` followed by its lower-case form.
  - Everything else is copied.

Files:

- `ascii.dfy`: ASCII case classification and mapping.
- `string_extensions.dfy`: the first-letter tag `FirstLetter`, and the specification
  functions `Composed` and `Decomposed`. Each is defined on a prefix of the input, built by
  dropping the last character. It also holds the four operations, written as the source's
  `for` loops with `continue` over a growing output buffer. Each loop invariant ties the
  buffer to the specification function of the processed prefix.
- `composer_properties.dfy`, `decomposer_properties.dfy`: what the two algorithms do,
  stated without reference to their definitions.
- `round_trip.dfy`: `FromCamelCase(ToCamelCase(s), d) == s` for words joined by `d`.
- `examples.dfy`: the conversions the doc comments give as examples.

The leading-separator corner is modelled as the code has it. When the input starts with
`_` or `-`, index 0 is skipped, so the first-letter transform is never applied. The first
kept character is upper-cased by the predecessor rule, so `ToCamelCase("_foo")` is `"Foo"`,
and `ToCamelCase` is then not idempotent. `FromCamelCase` repairs this by lower-casing its
first character. The regular-expression build of the same methods behaves differently here:
it gives `"foo"`. That build is not modelled (see below).

## Model

| member | source | states |
|---|---|---|
| StringExtensions.ToCamelOrPascalCase | YamlDotNet/Serialization/Utilities/StringExtensions.cs:43-69 | the loop returns the composer's output `Composed(s, t)`; its invariant holds the output of every processed prefix; the empty input gives the empty output |
| StringExtensions.ToCamelCase | YamlDotNet/Serialization/Utilities/StringExtensions.cs:80-83 | returns the composer's output with the lower-casing first-letter transform; `""` gives `""` |
| StringExtensions.ToPascalCase | YamlDotNet/Serialization/Utilities/StringExtensions.cs:92-95 | returns the composer's output with the upper-casing first-letter transform; `""` gives `""` |
| StringExtensions.FromCamelCase | YamlDotNet/Serialization/Utilities/StringExtensions.cs:113-136 | the rescan loop returns the decomposer's output on `ToCamelCase(str)`; `""` gives `""` |
| StringExtensions.Composed | YamlDotNet/Serialization/Utilities/StringExtensions.cs:47-66 | the composer never lengthens its input |
| StringExtensions.Decomposed | YamlDotNet/Serialization/Utilities/StringExtensions.cs:117-133 | the decomposer never shortens the camelCase text |
| ComposerProperties.ComposedDropsSeparators | YamlDotNet/Serialization/Utilities/StringExtensions.cs:47-66 | the output holds no `_` or `-`, and its length is the input length minus the number of separators |
| ComposerProperties.ComposedAt | YamlDotNet/Serialization/Utilities/StringExtensions.cs:53-65 | a non-separator at input index `i` is written at output position `i` minus the separators before it. At index 0 it is the first-letter transform of the character. After a separator it is upper-cased. Otherwise it is unchanged. So order is kept |
| ComposerProperties.FirstEmitted | YamlDotNet/Serialization/Utilities/StringExtensions.cs:49-62 | the output is empty exactly when the input is all separators. Its first character is the first-letter transform of `s[0]` when `s[0]` is not a separator. Otherwise it is the first non-separator character upper-cased |
| ComposerProperties.PolicyOnlyAffectsFirst | YamlDotNet/Serialization/Utilities/StringExtensions.cs:53-56 | camelCase and PascalCase outputs have equal length and agree after position 0; with a leading separator they are equal |
| ComposerProperties.CamelPascalFirstLetter | YamlDotNet/Serialization/Utilities/StringExtensions.cs:53-56 | without a leading separator, `ToCamelCase` lower-cases and `ToPascalCase` upper-cases the first character |
| ComposerProperties.LeadingSeparatorDefeatsPolicy | YamlDotNet/Serialization/Utilities/StringExtensions.cs:49-62 | with a leading separator, the first output character is the first kept character upper-cased even for camelCase, and camelCase equals PascalCase |
| ComposerProperties.LeadingSeparatorExample | YamlDotNet/Serialization/Utilities/StringExtensions.cs:49-62 | `ToCamelCase("_foo") == "Foo"` |
| ComposerProperties.SeparatorFreeComposed | YamlDotNet/Serialization/Utilities/StringExtensions.cs:53-65 | on separator-free input the composer changes only the first character, through the first-letter transform |
| ComposerProperties.CamelIdempotent | YamlDotNet/Serialization/Utilities/StringExtensions.cs:80-83 | `ToCamelCase(ToCamelCase(s)) == ToCamelCase(s)` whenever `s` does not start with a separator, which includes every separator-free `s` |
| ComposerProperties.CamelNotIdempotentAfterLeadingSeparator | YamlDotNet/Serialization/Utilities/StringExtensions.cs:49-62 | after a leading separator followed by a lower-case letter, `ToCamelCase` is not idempotent |
| ComposerProperties.PascalIdempotent | YamlDotNet/Serialization/Utilities/StringExtensions.cs:92-95 | `ToPascalCase(ToPascalCase(s)) == ToPascalCase(s)` for every `s` |
| DecomposerProperties.DecomposedLength | YamlDotNet/Serialization/Utilities/StringExtensions.cs:117-133 | output length is the camelCase length plus `|separator|` times the number of upper-case characters after index 0 |
| DecomposerProperties.DecomposedAt | YamlDotNet/Serialization/Utilities/StringExtensions.cs:117-133 | camelCase index `i` is written after `i` characters plus one separator per earlier boundary. Index 0 is lower-cased. A later upper-case character becomes `separator` and then its lower-case form. Anything else is copied |
| DecomposerProperties.EmptySeparatorLowers | YamlDotNet/Serialization/Utilities/StringExtensions.cs:126-132 | with `separator == ""` the result is the camelCase text with every character lower-cased |
| DecomposerProperties.DecomposedIsLowerCase | YamlDotNet/Serialization/Utilities/StringExtensions.cs:117-133 | with a separator that has no upper-case letter, the result has no upper-case letter |
| DecomposerProperties.SeparatedRepairsLeadingSeparator | YamlDotNet/Serialization/Utilities/StringExtensions.cs:115-124 | after a leading separator, `FromCamelCase` still starts with the lower-case form of the first kept character |
| RoundTrip.PrefixRoundTrip | YamlDotNet/Serialization/Utilities/StringExtensions.cs:43-69 | for words joined by `d`, the rescan of the camelCase form of any prefix that does not end in `d` gives that prefix back |
| RoundTrip.CamelRoundTrip | YamlDotNet/Serialization/Utilities/StringExtensions.cs:113-136 | `FromCamelCase(ToCamelCase(s), d) == s` for `d` in `_`, `-` and `s` made of words joined by single `d`s |
| Examples.ThisIsATestComposed | YamlDotNet/Serialization/Utilities/StringExtensions.cs:73-95 | `this_is_a_test` and `this-is-a-test` become `thisIsATest` under `ToCamelCase` and `ThisIsATest` under `ToPascalCase`; the first-letter transform applied to `t` is the only difference |
| Examples.ThisIsATestSeparated | YamlDotNet/Serialization/Utilities/StringExtensions.cs:96-136 | `FromCamelCase("thisIsATest", "_") == "this_is_a_test"` and `FromCamelCase("thisIsATest", "-") == "this-is-a-test"` |

In `RoundTrip`, "words joined by `d`" (`JoinedWords`) means:

- no character is upper-case;
- no character is a separator other than `d`;
- every `d` has a character before it and a lower-case ASCII letter after it.

This covers the lower-case words of the doc comments. It also allows digits and other
characters inside a word and the empty string.

## Left out

- The regular-expression build for .NET Framework and .NET Standard 2.0
  (`StringExtensions.cs:36-41`, `103-111`). It uses `System.Text.RegularExpressions`, which is
  not part of this model. It also behaves differently:
  - it only removes a separator that is followed by an ASCII letter;
  - it applies the first-letter transform after the replacement, so `"_foo"` gives `"foo"`;
  - it indexes `[0]`, so it fails on the empty string.
- `StringBuilderPool` renting and `AsSpan`. These only save allocations. The output buffer
  is a local `string` (`seq<char>`) that each step appends to.
- Culture-sensitive and full Unicode casing. `char.ToUpper`, `char.ToLower`,
  `char.ToUpperInvariant`, `char.ToLowerInvariant` and `char.IsUpper` are modelled by their
  ASCII behaviour: only `a`-`z` and `A`-`Z` change case, and only `A`-`Z` are upper-case.
  Non-ASCII letters are copied unchanged.
- Null strings. Dafny strings cannot be null.
- The `Func<char, char>` first-letter parameter. Only two values are ever passed, so it is
  the tag `FirstLetter` (`Lower`, `Upper`).
