/** What several modules share. */
module Basics {
  /** Bytes in a page. */
  const PAGE_SIZE: nat := 4096
  /** First address that 64 bits cannot hold. */
  const WORD_LIMIT: nat := 0x1_0000_0000_0000_0000
  /** End of the addresses that programs may use. */
  const USER_TOP: nat := 0x8000_0000_0000

  datatype Option<+T> = None | Some(value: T)

  /** No element occurs twice. */
  ghost predicate Distinct(s: seq<nat>) {
    forall i, j :: 0 <= i < j < |s| ==> s[i] != s[j]
  }

  /** The sequence without the first occurrence of `x`. */
  function Without(s: seq<nat>, x: nat): seq<nat> {
    if s == [] then [] else if s[0] == x then s[1..] else [s[0]] + Without(s[1..], x)
  }

  lemma {:induction false} WithoutOf(s: seq<nat>, x: nat)
    requires Distinct(s)
    ensures Distinct(Without(s, x)) && forall y :: y in Without(s, x) <==> y in s && y != x
  {
    if s != [] {
      assert s == [s[0]] + s[1..];
      assert s[0] !in s[1..];
      WithoutOf(s[1..], x);
    }
  }
}
