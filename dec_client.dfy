/**
 * The decrypting client: the same exchange as the encrypting one, with only
 * the key-length check before the network and no newline stripping.
 */
module DecClient {
  import opened Wrappers
  import opened CStrings
  import opened Framing
  import opened Client

  /** `read_file`: the line `fgets` stores, kept as it is, newline included. */
  function ReadFile(file: Option<seq<char>>, which: Input): (r: Result<seq<char>, Failure>)
    ensures r.Err? <==> file.None? || file.value == []
    ensures r.Ok? ==> NUL !in r.value && |r.value| <= BUF_SIZE - 1
    ensures r.Ok? ==> |r.value| <= |file.value| && r.value == file.value[..|r.value|]
    ensures r.Ok? && r.value != [] ==> NEWLINE !in r.value[..|r.value| - 1]
    ensures r.Ok? ==>
      |r.value| == |file.value| || |r.value| == BUF_SIZE - 1 || file.value[|r.value|] == NUL ||
      (r.value != [] && r.value[|r.value| - 1] == NEWLINE)
  {
    Fgets(file, which)
  }

  /** A line's newline stays part of the string, so it counts in the length check and goes into the frame. */
  lemma KeepsNewline(line: seq<char>, which: Input)
    requires NEWLINE !in line && NUL !in line && |line| < BUF_SIZE - 1
    ensures ReadFile(Some(line + [NEWLINE]), which) == Ok(line + [NEWLINE])
  {
    FgetsWholeLine(line, which);
  }

  /**
   * The one check `main` makes before any socket work: the key may not be
   * shorter than the ciphertext (equal lengths pass). The characters are not
   * examined.
   */
  function Validate(ciphertext: seq<char>, key: seq<char>): (r: Result<Message, Failure>)
    ensures r.Ok? <==> |key| >= |ciphertext|
    ensures r.Ok? ==> r.value == Message(ciphertext, key)
    ensures r.Err? ==> r.error == KeyTooShort
  {
    if |key| < |ciphertext| then Err(KeyTooShort) else Ok(Message(ciphertext, key))
  }

  /** Everything `main` checks before any socket work: both files read, then `Validate`. */
  function Check(cipherFile: Option<seq<char>>, keyFile: Option<seq<char>>): (r: Result<Message, Failure>)
    ensures r.Err? ==> ExitCode(r.error) == 1 && !r.error.BadCharacters?
    ensures r.Ok? ==> |r.value.key| >= |r.value.text|
  {
    match ReadFile(cipherFile, TextFile)
    case Err(f) => Err(f)
    case Ok(ciphertext) =>
      match ReadFile(keyFile, KeyFile)
      case Err(f) => Err(f)
      case Ok(key) => Validate(ciphertext, key)
  }

  /**
   * `main` after its argument count check: read both files, compare the
   * lengths, then the network exchange with the `snprintf` frame.
   */
  method RunClient(cipherFile: Option<seq<char>>, keyFile: Option<seq<char>>, net: Network) returns (run: Run)
    ensures Check(cipherFile, keyFile).Err? ==> run == Failed(Check(cipherFile, keyFile).error, None) && Status(run) == 1
    ensures Check(cipherFile, keyFile).Ok? ==>
      var m := Check(cipherFile, keyFile).value;
      run == Exchange(Frame(m.text, m.key), net)
  {
    var ciphertext := ReadFile(cipherFile, TextFile);
    if ciphertext.Err? {
      return Failed(ciphertext.error, None);
    }
    var key := ReadFile(keyFile, KeyFile);
    if key.Err? {
      return Failed(key.error, None);
    }
    if |key.value| < |ciphertext.value| {
      return Failed(KeyTooShort, None);
    }
    run := Exchange(Frame(ciphertext.value, key.value), net);
  }
}
