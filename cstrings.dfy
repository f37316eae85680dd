/**
 * The few libc string conventions the programs rely on, read as functions on
 * sequences: a C string ends at its first NUL, `strcspn` finds the first
 * occurrence of a stop character, and a bounded write keeps a prefix.
 */
module CStrings {
  /** Size of every char buffer in the four programs (`#define BUF_SIZE 1024`). */
  const BUF_SIZE: nat := 1024

  const NUL: char := '\0'

  /** The longest prefix of `s` that does not contain `c`: `s[..strcspn(s, c)]`. */
  function TakeUntil(s: seq<char>, c: char): (r: seq<char>)
    ensures |r| <= |s| && r == s[..|r|]
    ensures c !in r
    ensures |r| < |s| ==> s[|r|] == c
  {
    if s == [] || s[0] == c then [] else [s[0]] + TakeUntil(s[1..], c)
  }

  /** What a C string holds once the bytes are NUL-terminated: everything before the first NUL. */
  function CStr(s: seq<char>): (r: seq<char>)
    ensures NUL !in r && |r| <= |s| && r == s[..|r|]
    ensures |r| < |s| ==> s[|r|] == NUL
    ensures NUL !in s ==> r == s
  {
    TakeUntil(s, NUL)
  }

  /** The first `n` characters of `s`, or all of `s` when it is shorter. */
  function Truncate(s: seq<char>, n: nat): (r: seq<char>)
    ensures |r| == if |s| <= n then |s| else n
    ensures r == s[..|r|]
  {
    if |s| <= n then s else s[..n]
  }

  /** The prefix before `c` is exactly the part in front of its first occurrence. */
  lemma {:induction false} TakeUntilSplit(a: seq<char>, b: seq<char>, c: char)
    requires c !in a
    ensures TakeUntil(a + [c] + b, c) == a
  {
    if a != [] {
      assert (a + [c] + b)[1..] == a[1..] + [c] + b;
      TakeUntilSplit(a[1..], b, c);
    }
  }
}
