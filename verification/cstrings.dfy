/**
 * C strings. A `string` in this model is the contents of a NUL-terminated
 * character array: the terminator itself is implicit and sits at index |s|.
 */
module CStrings {

  /** No NUL character occurs before the (implicit) terminator. */
  predicate IsCString(s: string)
  {
    forall i :: 0 <= i < |s| ==> s[i] != '\0'
  }

  /** The character a pointer walk over `s` sees at offset `i`. */
  function CharAt(s: string, i: nat): (c: char)
    requires IsCString(s) && i <= |s|
    ensures c == '\0' <==> i == |s|
  {
    if i == |s| then '\0' else s[i]
  }

  /** What a reader that stops at the first `stop` element sees of `s`. */
  function TakeUntil<T(==)>(s: seq<T>, stop: T): (r: seq<T>)
    ensures r <= s
    ensures stop !in r
    ensures |r| < |s| ==> s[|r|] == stop
  {
    if s == [] || s[0] == stop then [] else [s[0]] + TakeUntil(s[1..], stop)
  }

  /** A buffer that holds `s` followed by a terminator reads back as exactly `s`,
      whatever comes after the terminator. */
  lemma {:induction false} TakeUntilTerminated<T>(s: seq<T>, stop: T, rest: seq<T>)
    requires stop !in s
    ensures TakeUntil(s + [stop] + rest, stop) == s
  {
    if s != [] {
      assert (s + [stop] + rest)[1..] == s[1..] + [stop] + rest;
      TakeUntilTerminated(s[1..], stop, rest);
    }
  }
}
