/**
 * Client and server together: what a server does with the frame a client
 * builds from the two files.
 */
module Protocol {
  import opened Wrappers
  import opened CStrings
  import opened Alphabet
  import opened Cipher
  import opened Framing
  import opened Handler
  import opened Client
  import EncClient
  import DecClient

  /** Symbols are none of NUL, newline and the delimiter. */
  lemma TextIsFramable(s: seq<char>)
    requires IsText(s)
    ensures NUL !in s && NEWLINE !in s && DELIM !in s
  {
    TextExcludes(s, NUL);
    TextExcludes(s, NEWLINE);
    TextExcludes(s, DELIM);
  }

  /** A text followed by the newline of its file line still holds neither NUL nor the delimiter. */
  lemma LineIsFramable(s: seq<char>)
    requires IsText(s)
    ensures var line := s + [NEWLINE]; NUL !in line && DELIM !in line
  {
    TextIsFramable(s);
    var line := s + [NEWLINE];
    assert forall i :: 0 <= i < |s| ==> line[i] == s[i];
  }

  /**
   * The server splits a client's frame back into the two strings it was built
   * from, when both are non-empty, free of delimiters and NULs, and fit.
   */
  lemma FrameRoundTrip(text: seq<char>, key: seq<char>)
    requires text != [] && key != []
    requires DELIM !in text && DELIM !in key && NUL !in text && NUL !in key
    requires |text| + 1 + |key| <= RECV_MAX
    ensures Tokenize(Frame(text, key)) == Ok(Message(text, key))
  {
    FrameTokens(text, key);
  }

  /** What a server replies to the frame of a text and a key that fit and are long enough. */
  lemma ServeFrame(dir: Direction, text: seq<char>, key: seq<char>)
    requires text != [] && |key| >= |text|
    requires DELIM !in text && DELIM !in key && NUL !in text && NUL !in key
    requires |text| + 1 + |key| <= RECV_MAX
    ensures Serve(dir, Received(Frame(text, key))) == Reply(Transform(dir, Message(text, key)))
  {
    FrameTokens(text, key);
  }

  /**
   * An encrypting client that passes its checks with a non-empty plaintext
   * and a frame that fits gets back the ciphertext of its plaintext under
   * the first |plaintext| key characters.
   */
  lemma EncryptRequest(textFile: Option<seq<char>>, keyFile: Option<seq<char>>)
    requires EncClient.Check(textFile, keyFile).Ok?
    requires var m := EncClient.Check(textFile, keyFile).value;
      m.text != [] && |m.text| + 1 + |m.key| <= RECV_MAX
    ensures var m := EncClient.Check(textFile, keyFile).value;
      Keyed(m.text, m.key) &&
      Serve(Encrypt, Received(Frame(m.text, m.key))) == Reply(EncryptText(m.text, m.key))
  {
    var m := EncClient.Check(textFile, keyFile).value;
    TextIsFramable(m.text);
    TextIsFramable(m.key);
    ServeFrame(Encrypt, m.text, m.key);
  }

  /**
   * A plaintext and key encrypted by one server are recovered by the other
   * when the ciphertext is sent back with the same key.
   */
  lemma EndToEnd(plaintext: seq<char>, key: seq<char>)
    requires plaintext != [] && IsText(plaintext) && IsText(key) && |key| >= |plaintext|
    requires |plaintext| + 1 + |key| <= RECV_MAX
    ensures Keyed(plaintext, key)
    ensures var c := EncryptText(plaintext, key);
      Serve(Encrypt, Received(Frame(plaintext, key))) == Reply(c) &&
      Serve(Decrypt, Received(Frame(c, key))) == Reply(plaintext)
  {
    var c := EncryptText(plaintext, key);
    DecryptEncryptText(plaintext, key);
    ServeText(Encrypt, plaintext, key, c);
    ServeText(Decrypt, c, key, plaintext);
  }

  /** `ServeFrame` for two texts, with the reply named. */
  lemma ServeText(dir: Direction, text: seq<char>, key: seq<char>, out: seq<char>)
    requires text != [] && IsText(text) && IsText(key) && |key| >= |text|
    requires |text| + 1 + |key| <= RECV_MAX
    requires Transform(dir, Message(text, key)) == out
    ensures Serve(dir, Received(Frame(text, key))) == Reply(out)
  {
    TextIsFramable(text);
    TextIsFramable(key);
    ServeFrame(dir, text, key);
  }

  /** An empty first line passes every check of the encrypting client. */
  lemma EncClientAcceptsEmpty(keyLine: seq<char>)
    requires IsText(keyLine) && |keyLine| < BUF_SIZE - 1
    ensures EncClient.Check(Some([NEWLINE]), Some(keyLine + [NEWLINE])) == Ok(Message([], keyLine))
  {
    TextIsFramable(keyLine);
    EncClient.StripsNewline([], TextFile);
    assert [] + [NEWLINE] == [NEWLINE];
    EncClient.StripsNewline(keyLine, KeyFile);
    assert EncClient.Validate([], keyLine) == Ok(Message([], keyLine));
  }

  /**
   * The encrypting client accepts an empty plaintext, but its frame starts
   * with the delimiter: `strtok` skips it, takes the key as the text, and
   * finds no key token.
   */
  lemma EmptyPlaintextLosesKey(keyLine: seq<char>)
    requires keyLine != [] && IsText(keyLine) && |keyLine| + 1 <= RECV_MAX
    ensures EncClient.Check(Some([NEWLINE]), Some(keyLine + [NEWLINE])) == Ok(Message([], keyLine))
    ensures Serve(Encrypt, Received(Frame([], keyLine))) == Unspecified(NoKeyToken)
  {
    EncClientAcceptsEmpty(keyLine);
    TextIsFramable(keyLine);
    assert Frame([], keyLine) == [DELIM] + keyLine;
    EmptyTextTakesKey(keyLine);
    assert Request([DELIM] + keyLine) == Err(NoKeyToken);
  }

  /** The decrypting client reads one-line files with their newlines and accepts them. */
  lemma DecClientKeepsNewlines(cipherLine: seq<char>, keyLine: seq<char>)
    requires NEWLINE !in cipherLine && NUL !in cipherLine && |cipherLine| < BUF_SIZE - 1
    requires NEWLINE !in keyLine && NUL !in keyLine && |keyLine| < BUF_SIZE - 1
    requires |keyLine| >= |cipherLine|
    ensures var c, k := cipherLine + [NEWLINE], keyLine + [NEWLINE];
      DecClient.Check(Some(c), Some(k)) == Ok(Message(c, k))
  {
    var c, k := cipherLine + [NEWLINE], keyLine + [NEWLINE];
    DecClient.KeepsNewline(cipherLine, TextFile);
    DecClient.KeepsNewline(keyLine, KeyFile);
    assert DecClient.Validate(c, k) == Ok(Message(c, k));
  }

  /**
   * The decrypting server on a frame whose text and key each end in the
   * newline of their file: the text token has one character more than the
   * ciphertext, and the reply decrypts that newline as well.
   */
  lemma NewlineDecrypted(c: seq<char>, k: seq<char>)
    requires c != [] && IsText(c) && IsText(k) && |k| >= |c|
    requires |c| + |k| + 3 <= RECV_MAX
    ensures var k' := k + [NEWLINE];
      Serve(Decrypt, Received(Frame(c + [NEWLINE], k'))) ==
      Reply(DecryptText(c, k) + [DecryptChar(NEWLINE, k'[|c|])])
  {
    LineIsFramable(c);
    LineIsFramable(k);
    ServeFrame(Decrypt, c + [NEWLINE], k + [NEWLINE]);
    DecryptTextExtend(c, k, NEWLINE, NEWLINE);
  }

  /**
   * As written, the decrypting client sends a ciphertext file's trailing
   * newline. The encrypting client prints its result followed by a newline,
   * so with that output and a one-line key file the decrypting server
   * returns the plaintext followed by one more character: 'A' when the key
   * is no longer than the text, otherwise a character that is not part of
   * the alphabet or is again 'A'.
   */
  lemma NewlineReachesDecryptServer(plaintext: seq<char>, keyLine: seq<char>)
    requires plaintext != [] && IsText(plaintext) && IsText(keyLine) && |keyLine| >= |plaintext|
    requires |plaintext| + |keyLine| + 3 <= RECV_MAX
    ensures Keyed(plaintext, keyLine)
    ensures var c, k := EncryptText(plaintext, keyLine) + [NEWLINE], keyLine + [NEWLINE];
      DecClient.Check(Some(c), Some(k)) == Ok(Message(c, k))
    ensures var c, k := EncryptText(plaintext, keyLine) + [NEWLINE], keyLine + [NEWLINE];
      Serve(Decrypt, Received(Frame(c, k))) == Reply(plaintext + [DecryptChar(NEWLINE, k[|plaintext|])])
    ensures var c, k := EncryptText(plaintext, keyLine) + [NEWLINE], keyLine + [NEWLINE];
      Serve(Decrypt, Received(Frame(c, k))) != Reply(plaintext)
    ensures var c, k := EncryptText(plaintext, keyLine) + [NEWLINE], keyLine + [NEWLINE];
      |keyLine| == |plaintext| ==> Serve(Decrypt, Received(Frame(c, k))) == Reply(plaintext + ['A'])
  {
    var c := EncryptText(plaintext, keyLine);
    DecryptEncryptText(plaintext, keyLine);
    TextIsFramable(c);
    TextIsFramable(keyLine);
    DecClientKeepsNewlines(c, keyLine);
    NewlineDecrypted(c, keyLine);
    OutsideVectors();
  }

  /**
   * With the newline stripped, as the encrypting client's `read_file` does,
   * the same files decrypt: the server recovers the plaintext.
   */
  lemma StrippedReadDecrypts(plaintext: seq<char>, keyLine: seq<char>)
    requires plaintext != [] && IsText(plaintext) && IsText(keyLine) && |keyLine| >= |plaintext|
    requires |plaintext| + |keyLine| + 3 <= RECV_MAX
    ensures Keyed(plaintext, keyLine)
    ensures var c := EncryptText(plaintext, keyLine);
      EncClient.ReadFile(Some(c + [NEWLINE]), TextFile) == Ok(c) &&
      EncClient.ReadFile(Some(keyLine + [NEWLINE]), KeyFile) == Ok(keyLine) &&
      Serve(Decrypt, Received(Frame(c, keyLine))) == Reply(plaintext)
  {
    EndToEnd(plaintext, keyLine);
    var c := EncryptText(plaintext, keyLine);
    TextIsFramable(c);
    TextIsFramable(keyLine);
    EncClient.StripsNewline(c, TextFile);
    EncClient.StripsNewline(keyLine, KeyFile);
  }
}
