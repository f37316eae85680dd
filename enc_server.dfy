/** The encrypting server's connection handler. */
module EncServer {
  import opened Alphabet
  import opened Cipher
  import opened Framing
  import opened Handler

  /**
   * The loop of `handle_client`: a fresh array of |plaintext| characters,
   * position i set to `encrypt_char(plaintext[i], key[i])`.
   */
  method EncryptLoop(plaintext: seq<char>, key: seq<char>) returns (out: seq<char>)
    requires |key| >= |plaintext|
    ensures out == EncryptText(plaintext, key)
    ensures |out| == |plaintext|
  {
    var len := |plaintext|;
    var ciphertext := new char[len];
    for i := 0 to len
      invariant ciphertext[..i] == EncryptText(plaintext, key)[..i]
    {
      ciphertext[i] := EncryptChar(plaintext[i], key[i]);
      assert ciphertext[..i + 1] == ciphertext[..i] + [ciphertext[i]];
    }
    assert ciphertext[..] == ciphertext[..len];
    out := ciphertext[..];
  }

  /**
   * `handle_client`: receive once, split the request with `strtok`, run the
   * loop over the text token, and reply with exactly |text| characters.
   */
  method HandleClient(recv: Recv) returns (resp: Response)
    ensures resp == Serve(Encrypt, recv)
    ensures resp.Reply? ==>
      recv.Received? && Request(recv.pending).Ok? &&
      resp.bytes == EncryptText(Request(recv.pending).value.text, Request(recv.pending).value.key)
  {
    if recv.RecvFailed? {
      return Silent;
    }
    var request := Request(recv.pending);
    if request.Err? {
      return Unspecified(request.error);
    }
    var ciphertext := EncryptLoop(request.value.text, request.value.key);
    resp := Reply(ciphertext);
  }
}
