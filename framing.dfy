/**
 * The wire format `"%s|%s"`: the clients build it with `snprintf` into a
 * BUF_SIZE buffer, the servers take it apart with two calls of `strtok`.
 */
module Framing {
  import opened Wrappers
  import opened CStrings

  /** The field separator the format string and the `strtok` calls use. */
  const DELIM: char := '|'

  /** A text and a key, the two fields of a request. */
  datatype Message = Message(text: seq<char>, key: seq<char>)

  /**
   * `snprintf(buffer, sizeof(buffer), "%s|%s", text, key)`: the formatted
   * string, of which at most BUF_SIZE - 1 characters fit before the NUL.
   */
  function Frame(text: seq<char>, key: seq<char>): (r: seq<char>)
    ensures |r| <= BUF_SIZE - 1
    ensures |text| + 1 + |key| <= BUF_SIZE - 1 ==> r == text + [DELIM] + key
    ensures |text| + 1 + |key| > BUF_SIZE - 1 ==> |r| == BUF_SIZE - 1 && r == (text + [DELIM] + key)[..BUF_SIZE - 1]
  {
    Truncate(text + [DELIM] + key, BUF_SIZE - 1)
  }

  /**
   * Where `strtok` found a token in the string `s`: at `s[start..end]`. The
   * string is the buffer itself, so the positions are the pointers the C
   * code holds.
   */
  datatype Token = Token(start: nat, end: nat)

  /** The first delimiter at or after `i`, or the end of `s`: where a token starting at `i` ends. */
  function TokenEnd(s: seq<char>, i: nat): (e: nat)
    requires i <= |s|
    ensures i <= e <= |s|
    ensures forall j :: i <= j < e ==> s[j] != DELIM
    ensures e < |s| ==> s[e] == DELIM
    decreases |s| - i
  {
    if i == |s| || s[i] == DELIM then i else TokenEnd(s, i + 1)
  }

  /**
   * `strtok` on the string `s`, resuming at `from` (0 on the first call, the
   * saved pointer on the next): skip delimiters; none left means NULL;
   * otherwise the token runs up to the next delimiter or the end.
   */
  function Strtok(s: seq<char>, from: nat): (r: Option<Token>)
    requires from <= |s|
    ensures r.None? <==> forall i :: from <= i < |s| ==> s[i] == DELIM
    ensures r.Some? ==> from <= r.value.start < r.value.end <= |s|
    ensures r.Some? ==> forall i :: from <= i < r.value.start ==> s[i] == DELIM
    ensures r.Some? ==> forall i :: r.value.start <= i < r.value.end ==> s[i] != DELIM
    ensures r.Some? && r.value.end < |s| ==> s[r.value.end] == DELIM
    decreases |s| - from
  {
    if from == |s| then None
    else if s[from] == DELIM then Strtok(s, from + 1)
    else Some(Token(from, TokenEnd(s, from)))
  }

  /**
   * The saved pointer after a token: past the delimiter the call overwrote
   * with NUL, or at the end of the string when no delimiter ended it.
   */
  function Next(s: seq<char>, t: Token): (k: nat)
    requires t.end <= |s|
    ensures t.end <= k <= |s|
    ensures t.end < |s| ==> k == t.end + 1
    ensures t.end == |s| ==> k == |s|
  {
    if t.end < |s| then t.end + 1 else t.end
  }

  /** The characters of a token. */
  function Field(s: seq<char>, t: Token): seq<char>
    requires t.start <= t.end <= |s|
  {
    s[t.start..t.end]
  }

  /** A token ends at the first delimiter after its start, and nowhere else. */
  lemma TokenEndAt(s: seq<char>, i: nat, e: nat)
    requires i <= e <= |s|
    requires forall j :: i <= j < e ==> s[j] != DELIM
    requires e < |s| ==> s[e] == DELIM
    ensures TokenEnd(s, i) == e
  {
  }

  /** Delimiters in front of a token are skipped: scanning from before them finds what scanning from after them finds. */
  lemma {:induction false} StrtokSkips(s: seq<char>, from: nat, k: nat)
    requires from <= k <= |s|
    requires forall i :: from <= i < k ==> s[i] == DELIM
    ensures Strtok(s, from) == Strtok(s, k)
    decreases k - from
  {
    if from < k {
      StrtokSkips(s, from + 1, k);
    }
  }

  /**
   * A field that starts at `from` and runs, delimiter-free, to a delimiter or
   * to the end of the string is returned whole.
   */
  lemma StrtokField(s: seq<char>, from: nat, end: nat)
    requires from < end <= |s|
    requires forall i :: from <= i < end ==> s[i] != DELIM
    requires end < |s| ==> s[end] == DELIM
    ensures Strtok(s, from) == Some(Token(from, end))
  {
    TokenEndAt(s, from, end);
  }
}
