/** ASCII-only character classification and case mapping.
    The platform's `char.IsUpper`, `char.ToUpper`, `char.ToLower` and their invariant-culture
    variants agree with these functions on ASCII input. */
module Ascii {

  predicate IsUpper(c: char) { 'A' <= c <= 'Z' }

  predicate IsLower(c: char) { 'a' <= c <= 'z' }

  /** Upper-case mapping: lower-case letters move to the upper-case block, everything else is fixed. */
  function ToUpper(c: char): (r: char)
    ensures IsLower(c) ==> IsUpper(r)
    ensures !IsLower(c) ==> r == c
    ensures !IsLower(r)
  {
    if IsLower(c) then (c as int - 32) as char else c
  }

  /** Lower-case mapping: upper-case letters move to the lower-case block, everything else is fixed. */
  function ToLower(c: char): (r: char)
    ensures IsUpper(c) ==> IsLower(r)
    ensures !IsUpper(c) ==> r == c
    ensures !IsUpper(r)
  {
    if IsUpper(c) then (c as int + 32) as char else c
  }
}
