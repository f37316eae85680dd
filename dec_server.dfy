/** The decrypting server's connection handler. */
module DecServer {
  import opened Alphabet
  import opened Cipher
  import opened Framing
  import opened Handler

  /**
   * The loop of `handle_client`: a fresh array of |ciphertext| characters,
   * position i set to `decrypt_char(ciphertext[i], key[i])`.
   */
  method DecryptLoop(ciphertext: seq<char>, key: seq<char>) returns (out: seq<char>)
    requires |key| >= |ciphertext|
    ensures out == DecryptText(ciphertext, key)
    ensures |out| == |ciphertext|
  {
    var len := |ciphertext|;
    var plaintext := new char[len];
    for i := 0 to len
      invariant plaintext[..i] == DecryptText(ciphertext, key)[..i]
    {
      plaintext[i] := DecryptChar(ciphertext[i], key[i]);
      assert plaintext[..i + 1] == plaintext[..i] + [plaintext[i]];
    }
    assert plaintext[..] == plaintext[..len];
    out := plaintext[..];
  }

  /**
   * `handle_client`: receive once, split the request with `strtok`, run the
   * loop over the text token, and reply with exactly |text| characters.
   */
  method HandleClient(recv: Recv) returns (resp: Response)
    ensures resp == Serve(Decrypt, recv)
    ensures resp.Reply? ==>
      recv.Received? && Request(recv.pending).Ok? &&
      resp.bytes == DecryptText(Request(recv.pending).value.text, Request(recv.pending).value.key)
  {
    if recv.RecvFailed? {
      return Silent;
    }
    var request := Request(recv.pending);
    if request.Err? {
      return Unspecified(request.error);
    }
    var plaintext := DecryptLoop(request.value.text, request.value.key);
    resp := Reply(plaintext);
  }
}
