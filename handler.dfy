/**
 * What `handle_client` does with one connection, shared by the encrypting and
 * the decrypting server: one bounded `recv`, NUL-termination, two `strtok`
 * calls, then the per-character transform over the text token.
 *
 * The C handler checks nothing. A request without a text or key token makes
 * it dereference NULL; a key shorter than the text makes the loop read on
 * past the key, into the rest of the buffer, which is defined only as far
 * as `recv` filled it. The model computes what the loop reads where it is
 * defined and names the other requests instead of giving them a meaning.
 * Characters outside the alphabet are enciphered by the same arithmetic.
 */
module Handler {
  import opened Wrappers
  import opened CStrings
  import opened Alphabet
  import opened Cipher
  import opened Framing

  /** `recv(new_fd, buffer, BUF_SIZE-1, 0)` stores at most this many bytes. */
  const RECV_MAX: nat := BUF_SIZE - 1

  datatype Direction = Encrypt | Decrypt

  /** What the handler's single `recv` observes: an error (-1), or the bytes the peer has sent. */
  datatype Recv = RecvFailed | Received(pending: seq<char>)

  /** Requests on which the C handler has no defined behaviour. */
  datatype Violation =
    | NoTextToken      // the first strtok returns NULL, which strlen then reads
    | NoKeyToken       // the second strtok returns NULL, which key[0] then reads
    | KeyTooShort      // key[i] is read beyond the bytes recv stored and the NUL after them

  datatype Response =
    | Silent                         // the handler returns without sending
    | Reply(bytes: seq<char>)        // send(new_fd, out, len, 0)
    | Unspecified(cause: Violation)  // the C code's behaviour is undefined here

  /** The C string in `buffer` after `recv` and `buffer[numbytes] = '\0'`. */
  function Buffer(pending: seq<char>): (r: seq<char>)
    ensures |r| <= RECV_MAX && NUL !in r
    ensures |r| <= |pending| && r == pending[..|r|]
    ensures |r| == |Truncate(pending, RECV_MAX)| || pending[|r|] == NUL
  {
    CStr(Truncate(pending, RECV_MAX))
  }

  /** Where the two `strtok` calls find the text and the key. */
  datatype Tokens = Tokens(text: Token, key: Token)

  /**
   * `text = strtok(buffer, "|"); key = strtok(NULL, "|");` on the C string
   * `s`: the second call resumes at the pointer the first one saved.
   */
  function Scan(s: seq<char>): (r: Result<Tokens, Violation>)
    ensures r.Err? <==> Strtok(s, 0).None? || Strtok(s, Next(s, Strtok(s, 0).value)).None?
    ensures r.Err? ==> (r.error == NoTextToken <==> Strtok(s, 0).None?)
    ensures r.Err? ==> r.error == NoTextToken || r.error == NoKeyToken
    ensures r.Ok? ==> r.value.text.end < r.value.key.start < r.value.key.end <= |s|
  {
    match Strtok(s, 0)
    case None => Err(NoTextToken)
    case Some(first) =>
      match Strtok(s, Next(s, first))
      case None => Err(NoKeyToken)
      case Some(second) => Ok(Tokens(first, second))
  }

  /** The text and the key the two `strtok` calls return. */
  function Split(s: seq<char>): (r: Result<Message, Violation>)
    ensures r.Ok? ==> r.value.text != [] && DELIM !in r.value.text
    ensures r.Ok? ==> r.value.key != [] && DELIM !in r.value.key
    ensures r.Err? <==> Scan(s).Err?
    ensures r.Err? ==> r.error == Scan(s).error
  {
    match Scan(s)
    case Err(v) => Err(v)
    case Ok(t) =>
      var text, key := Field(s, t.text), Field(s, t.key);
      assert forall i :: 0 <= i < |text| ==> text[i] == s[t.text.start + i];
      assert forall i :: 0 <= i < |key| ==> key[i] == s[t.key.start + i];
      Ok(Message(text, key))
  }

  /** The two tokens of a received request: `Split` applied to `Buffer`. */
  function Tokenize(pending: seq<char>): Result<Message, Violation> {
    Split(Buffer(pending))
  }

  /**
   * The part of `buffer` that holds defined values after `recv`: the bytes it
   * stored, then the NUL of `buffer[numbytes] = '\0'`.
   */
  function Stored(pending: seq<char>): (r: seq<char>)
    ensures 1 <= |r| <= RECV_MAX + 1 && r[|r| - 1] == NUL
    ensures var b := Buffer(pending); |b| < |r| && b == r[..|b|] && r[|b|] == NUL
  {
    Truncate(pending, RECV_MAX) + [NUL]
  }

  /**
   * What `key[0], key[1], ...` read with defined values, for the C string `s`
   * at the start of the `stored` bytes: the buffer from the key on, in which
   * the byte after the key is NUL (the delimiter `strtok` overwrote, or the
   * end of `s`).
   */
  function KeyView(s: seq<char>, stored: seq<char>): (r: seq<char>)
    requires Scan(s).Ok?
    requires |s| < |stored| && s == stored[..|s|]
    ensures var k := Scan(s).value.key;
      k.end - k.start < |r| && r[..k.end - k.start] == Field(s, k) &&
      r == stored[k.start..][k.end - k.start := NUL]
    ensures Split(s).Ok? && var key := Split(s).value.key; |key| < |r| && r[..|key|] == key
  {
    var k := Scan(s).value.key;
    var r := Field(s, k) + [NUL] + stored[k.end + 1..];
    assert r[..k.end - k.start] == Field(s, k);
    assert forall j :: 0 <= j < k.end - k.start ==> r[j] == s[k.start + j] == stored[k.start + j];
    r
  }

  /**
   * The key the loop reads on a split request, or the reason it reads
   * undefined bytes. A key token at least as long as the text is read
   * alone; a shorter one is read on into the bytes behind it.
   */
  function Admit(m: Message, view: seq<char>): (r: Result<Message, Violation>)
    requires |m.key| < |view| && view[..|m.key|] == m.key
    ensures r.Ok? <==> |m.text| <= |view|
    ensures r.Ok? ==> r.value.text == m.text && |r.value.key| >= |m.text|
    ensures r.Ok? ==> r.value.key[..|m.text|] == view[..|m.text|]
    ensures |m.key| >= |m.text| ==> r == Ok(m)
    ensures r.Err? ==> r.error == KeyTooShort
  {
    if |m.key| >= |m.text| then
      assert m.key[..|m.text|] == view[..|m.key|][..|m.text|];
      Ok(m)
    else if |view| < |m.text| then Err(KeyTooShort)
    else Ok(Message(m.text, view[..|m.text|]))
  }

  /** The request the handler's loop runs on, or the first reason it has no defined behaviour. */
  function Request(pending: seq<char>): (r: Result<Message, Violation>)
    ensures r.Ok? ==> |r.value.key| >= |r.value.text|
    ensures var s := Buffer(pending);
      r.Ok? <==> Split(s).Ok? && |Split(s).value.text| <= |KeyView(s, Stored(pending))|
    ensures var s := Buffer(pending); r.Ok? ==> var m := Split(s).value;
      r.value.text == m.text && r.value.key[..|m.text|] == KeyView(s, Stored(pending))[..|m.text|]
  {
    var s := Buffer(pending);
    match Split(s)
    case Err(v) => Err(v)
    case Ok(m) => Admit(m, KeyView(s, Stored(pending)))
  }

  /** The output array the loop fills: one cipher call per text position. */
  function Transform(dir: Direction, m: Message): (r: seq<char>)
    requires |m.key| >= |m.text|
    ensures |r| == |m.text|
    ensures Keyed(m.text, m.key) ==> IsText(r)
  {
    match dir
    case Encrypt => EncryptText(m.text, m.key)
    case Decrypt => DecryptText(m.text, m.key)
  }

  /** The whole exchange on one connection. */
  function Serve(dir: Direction, recv: Recv): (resp: Response)
    ensures resp.Silent? <==> recv.RecvFailed?
    ensures resp.Reply? <==> recv.Received? && Request(recv.pending).Ok?
  {
    match recv
    case RecvFailed => Silent
    case Received(pending) =>
      match Request(pending)
      case Err(v) => Unspecified(v)
      case Ok(m) => Reply(Transform(dir, m))
  }

  /**
   * The tokens depend only on the C string in the buffer; so does the
   * response when the key token covers the text.
   */
  lemma SameBufferSameResponse(dir: Direction, p1: seq<char>, p2: seq<char>)
    requires Buffer(p1) == Buffer(p2)
    ensures Tokenize(p1) == Tokenize(p2)
    ensures Tokenize(p1).Ok? && |Tokenize(p1).value.key| >= |Tokenize(p1).value.text| ==>
      Serve(dir, Received(p1)) == Serve(dir, Received(p2))
    ensures Tokenize(p1).Err? ==> Serve(dir, Received(p1)) == Serve(dir, Received(p2))
  {
  }

  /** Bytes past the first RECV_MAX are never read. */
  lemma RecvBound(dir: Direction, pending: seq<char>)
    requires |pending| > RECV_MAX
    ensures Serve(dir, Received(pending)) == Serve(dir, Received(pending[..RECV_MAX]))
  {
    assert Truncate(pending, RECV_MAX) == Truncate(pending[..RECV_MAX], RECV_MAX);
  }

  /**
   * A NUL ends the C string, so the tokens ignore whatever follows it; the
   * response does too unless a short key makes the loop read on.
   */
  lemma NulEndsRequest(dir: Direction, a: seq<char>, b: seq<char>)
    requires NUL !in a && |a| <= RECV_MAX
    ensures Buffer(a + [NUL] + b) == Buffer(a) == a
    ensures Tokenize(a + [NUL] + b) == Tokenize(a)
    ensures Tokenize(a).Err? || |Tokenize(a).value.key| >= |Tokenize(a).value.text| ==>
      Serve(dir, Received(a + [NUL] + b)) == Serve(dir, Received(a))
  {
    var s := a + [NUL] + b;
    var t := Truncate(s, RECV_MAX);
    if |a| < RECV_MAX {
      assert t == a + [NUL] + t[|a| + 1..];
      TakeUntilSplit(a, t[|a| + 1..], NUL);
    } else {
      assert t == a;
    }
    assert Buffer(s) == Buffer(a);
    SameBufferSameResponse(dir, s, a);
  }

  /** Where the two fields sit in a request with a third field after them. */
  lemma FieldsOf(text: seq<char>, key: seq<char>, extra: seq<char>)
    ensures var s := text + [DELIM] + key + [DELIM] + extra;
      s[..|text|] == text && s[|text| + 1..|text| + 1 + |key|] == key
  {
    var s := text + [DELIM] + key + [DELIM] + extra;
    assert s == (text + [DELIM] + key) + ([DELIM] + extra);
    assert (text + [DELIM] + key)[|text| + 1..] == key;
  }

  /** A frame that fits is split back into its two fields. */
  lemma FrameTokens(text: seq<char>, key: seq<char>)
    requires text != [] && key != []
    requires DELIM !in text && DELIM !in key && NUL !in text && NUL !in key
    requires |text| + 1 + |key| <= RECV_MAX
    ensures var s := text + [DELIM] + key;
      Frame(text, key) == s && Buffer(s) == s &&
      Scan(s) == Ok(Tokens(Token(0, |text|), Token(|text| + 1, |s|)))
    ensures Tokenize(Frame(text, key)) == Ok(Message(text, key))
  {
    var s := text + [DELIM] + key;
    assert NUL !in s;
    assert Buffer(s) == s;
    StrtokField(s, 0, |text|);
    StrtokField(s, |text| + 1, |s|);
    assert s[..|text|] == text && s[|text| + 1..] == key;
  }

  /**
   * A second delimiter and everything after it are ignored by the split:
   * the key token stops at it and `strtok` is not called again.
   */
  lemma ExtraFieldIgnored(text: seq<char>, key: seq<char>, extra: seq<char>)
    requires text != [] && key != []
    requires DELIM !in text && DELIM !in key
    requires NUL !in text && NUL !in key && NUL !in extra
    requires |text| + |key| + |extra| + 2 <= RECV_MAX
    ensures var s := text + [DELIM] + key + [DELIM] + extra;
      Buffer(s) == s && Scan(s) == Ok(Tokens(Token(0, |text|), Token(|text| + 1, |text| + 1 + |key|)))
    ensures Tokenize(text + [DELIM] + key + [DELIM] + extra) == Ok(Message(text, key))
  {
    var s := text + [DELIM] + key + [DELIM] + extra;
    var e := |text| + 1 + |key|;
    assert NUL !in s;
    assert Buffer(s) == s;
    StrtokField(s, 0, |text|);
    StrtokField(s, |text| + 1, e);
    FieldsOf(text, key, extra);
  }

  /** Leading delimiters are skipped, so a frame with an empty text field loses its key. */
  lemma EmptyTextTakesKey(key: seq<char>)
    requires key != [] && DELIM !in key && NUL !in key
    requires |key| + 1 <= RECV_MAX
    ensures Tokenize([DELIM] + key) == Err(NoKeyToken)
  {
    var s := [DELIM] + key;
    assert NUL !in s;
    assert Buffer(s) == s;
    StrtokSkips(s, 0, 1);
    StrtokField(s, 1, |s|);
  }

  /** The response to a request that splits, in terms of the key the loop can read. */
  lemma ServeSplit(dir: Direction, pending: seq<char>, m: Message, view: seq<char>)
    requires Tokenize(pending) == Ok(m)
    requires view == KeyView(Buffer(pending), Stored(pending))
    ensures Serve(dir, Received(pending)) ==
      if |m.key| >= |m.text| then Reply(Transform(dir, m))
      else if |m.text| <= |view| then Reply(Transform(dir, Message(m.text, view[..|m.text|])))
      else Unspecified(KeyTooShort)
  {
  }

  /** Concatenation regrouped. */
  lemma Regroup(a: seq<char>, b: seq<char>, c: seq<char>)
    ensures a + (b + c) == a + b + c
  {
  }

  /** What follows a prefix. */
  lemma TailAfter(a: seq<char>, b: seq<char>)
    ensures (a + b)[|a|..] == b
  {
  }

  /**
   * A key shorter than the text, followed by a second delimiter and more
   * bytes: the loop reads the key, the NUL `strtok` wrote over the delimiter,
   * the bytes after it and `recv`'s terminating NUL; past those it reads
   * bytes `recv` never stored.
   */
  lemma ShortKeyReadsOn(dir: Direction, text: seq<char>, key: seq<char>, extra: seq<char>)
    requires text != [] && key != [] && |key| < |text|
    requires DELIM !in text && DELIM !in key
    requires NUL !in text && NUL !in key && NUL !in extra
    requires |text| + |key| + |extra| + 2 <= RECV_MAX
    ensures var view := key + [NUL] + extra + [NUL];
      Serve(dir, Received(text + [DELIM] + key + [DELIM] + extra)) ==
        if |text| <= |view| then Reply(Transform(dir, Message(text, view[..|text|])))
        else Unspecified(KeyTooShort)
  {
    var s := text + [DELIM] + key + [DELIM] + extra;
    ExtraFieldIgnored(text, key, extra);
    ViewPastSecondDelim(text, key, extra);
    ServeSplit(dir, s, Message(text, key), key + [NUL] + extra + [NUL]);
  }

  /** The bytes the loop can read from the key of a request with a third field. */
  lemma ViewPastSecondDelim(text: seq<char>, key: seq<char>, extra: seq<char>)
    requires text != [] && key != []
    requires DELIM !in text && DELIM !in key
    requires NUL !in text && NUL !in key && NUL !in extra
    requires |text| + |key| + |extra| + 2 <= RECV_MAX
    ensures var s := text + [DELIM] + key + [DELIM] + extra;
      Scan(s).Ok? && KeyView(s, Stored(s)) == key + [NUL] + extra + [NUL]
  {
    var s := text + [DELIM] + key + [DELIM] + extra;
    ExtraFieldIgnored(text, key, extra);
    var k := Scan(s).value.key;
    assert Field(s, k) == key;
    var p := text + [DELIM] + key + [DELIM];
    assert Stored(s) == p + extra + [NUL];
    Regroup(p, extra, [NUL]);
    TailAfter(p, extra + [NUL]);
    Regroup(key + [NUL], extra, [NUL]);
  }

  /**
   * A key shorter than the text at the end of the request: the loop reads the
   * key and `recv`'s terminating NUL, which covers a text one longer than the
   * key and no more.
   */
  lemma ShortLastKey(dir: Direction, text: seq<char>, key: seq<char>)
    requires text != [] && key != [] && |key| < |text|
    requires DELIM !in text && DELIM !in key && NUL !in text && NUL !in key
    requires |text| + 1 + |key| <= RECV_MAX
    ensures Serve(dir, Received(text + [DELIM] + key)) ==
      if |text| == |key| + 1 then Reply(Transform(dir, Message(text, key + [NUL])))
      else Unspecified(KeyTooShort)
  {
    var s := text + [DELIM] + key;
    FrameTokens(text, key);
    var stored := Stored(s);
    var k := Scan(s).value.key;
    assert Field(s, k) == key;
    assert stored[k.end + 1..] == [];
    var view := KeyView(s, stored);
    assert view == key + [NUL];
    ServeSplit(dir, s, Message(text, key), view);
    assert |text| == |key| + 1 ==> view[..|text|] == key + [NUL];
  }

  /**
   * A key shorter than the text, ended by a NUL the client sent: the split
   * stops at the NUL, but the loop reads on into the bytes `recv` stored
   * after it.
   */
  lemma ShortKeyReadsPastNul(dir: Direction, text: seq<char>, key: seq<char>, extra: seq<char>)
    requires text != [] && key != [] && |key| < |text|
    requires DELIM !in text && DELIM !in key && NUL !in text && NUL !in key
    requires |text| + |key| + |extra| + 2 <= RECV_MAX
    ensures var view := key + [NUL] + extra + [NUL];
      Serve(dir, Received(text + [DELIM] + key + [NUL] + extra)) ==
        if |text| <= |view| then Reply(Transform(dir, Message(text, view[..|text|])))
        else Unspecified(KeyTooShort)
  {
    var s := text + [DELIM] + key + [NUL] + extra;
    ViewPastNul(text, key, extra);
    ServeSplit(dir, s, Message(text, key), key + [NUL] + extra + [NUL]);
  }

  /** The bytes the loop can read from the key of a request with a NUL after the key. */
  lemma ViewPastNul(text: seq<char>, key: seq<char>, extra: seq<char>)
    requires text != [] && key != []
    requires DELIM !in text && DELIM !in key && NUL !in text && NUL !in key
    requires |text| + |key| + |extra| + 2 <= RECV_MAX
    ensures var s := text + [DELIM] + key + [NUL] + extra;
      Tokenize(s) == Ok(Message(text, key)) && Scan(Buffer(s)).Ok? &&
      KeyView(Buffer(s), Stored(s)) == key + [NUL] + extra + [NUL]
  {
    var a := text + [DELIM] + key;
    var s := a + [NUL] + extra;
    assert NUL !in a;
    NulEndsRequest(Encrypt, a, extra);
    FrameTokens(text, key);
    var k := Scan(a).value.key;
    assert Field(a, k) == key;
    assert Stored(s) == a + [NUL] + extra + [NUL];
    Regroup(a, [NUL], extra);
    Regroup(a + [NUL], extra, [NUL]);
    TailAfter(a + [NUL], extra + [NUL]);
    Regroup(key + [NUL], extra, [NUL]);
  }

  /**
   * "ABC|X|YZ" gets "X7 ": 'B' is enciphered with the NUL written over the
   * second delimiter (1 - 65 = -64, whose C remainder is -10, giving '7') and
   * 'C' with the 'Y' after it.
   */
  lemma ShortKeyVector(text: seq<char>, key: seq<char>, extra: seq<char>)
    requires text == "ABC" && key == "X" && extra == "YZ"
    ensures Serve(Encrypt, Received(text + [DELIM] + key + [DELIM] + extra)) == Reply("X7 ")
  {
    var view := key + [NUL] + extra + [NUL];
    assert view[..3] == "X" + [NUL] + "Y";
    NulKeyVector();
    ShortKeyReadsOn(Encrypt, text, key, extra);
  }

  /** The three characters of `ShortKeyVector`, enciphered together. */
  lemma NulKeyVector()
    ensures EncryptText("ABC", "X" + [NUL] + "Y") == "X7 "
  {
    NulKeyChars();
    var key := "X" + [NUL] + "Y";
    assert key[0] == 'X' && key[1] == NUL && key[2] == 'Y';
    var r := EncryptText("ABC", key);
    assert r[0] == 'X' && r[1] == '7' && r[2] == ' ';
  }

  /** The three characters of `ShortKeyVector`, enciphered one by one. */
  lemma NulKeyChars()
    ensures EncryptChar('A', 'X') == 'X'
    ensures EncryptChar('B', NUL) == '7'
    ensures EncryptChar('C', 'Y') == ' '
  {
    assert Value('A') == 0 && Value('X') == 23 && CMod(23) == 23 && Symbol(23) == 'X';
    assert Value('B') == 1 && Value(NUL) == -65 && CMod(-64) == -10 && Symbol(-10) == '7';
    assert Value('C') == 2 && Value('Y') == 24 && CMod(26) == 26 && Symbol(26) == ' ';
  }

  /**
   * A NUL the client sends does not end what the loop reads: "ABC|C" reads
   * past the stored bytes, while "ABC|C", NUL, "X" reads the 'X' after the NUL.
   */
  lemma BytesPastNulRead()
    ensures Serve(Encrypt, Received("ABC|C")) == Unspecified(KeyTooShort)
    ensures Serve(Encrypt, Received("ABC|C" + [NUL] + "X")) == Reply(EncryptText("ABC", "C" + [NUL] + "X"))
  {
    assert "ABC|C" == "ABC" + [DELIM] + "C";
    ShortLastKey(Encrypt, "ABC", "C");
    ShortKeyReadsPastNul(Encrypt, "ABC", "C", "X");
    assert ("C" + [NUL] + "X" + [NUL])[..3] == "C" + [NUL] + "X";
  }
}
