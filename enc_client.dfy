/**
 * The encrypting client: read the plaintext and the key, check them in a
 * fixed order before touching the network, then send `"%s|%s"` once and print
 * the reply.
 */
module EncClient {
  import opened Wrappers
  import opened CStrings
  import opened Alphabet
  import opened Framing
  import opened Client

  /**
   * `read_file`: the line `fgets` stores, cut at its first newline by
   * `buffer[strcspn(buffer, "\n")] = '\0'`.
   */
  function ReadFile(file: Option<seq<char>>, which: Input): (r: Result<seq<char>, Failure>)
    ensures r.Err? <==> Fgets(file, which).Err?
    ensures r.Err? ==> r == Fgets(file, which)
    ensures r.Ok? ==> NEWLINE !in r.value && NUL !in r.value && |r.value| <= BUF_SIZE - 1
    ensures r.Ok? ==> |r.value| <= |file.value| && r.value == file.value[..|r.value|]
    ensures r.Ok? ==>
      |r.value| == |file.value| || |r.value| == BUF_SIZE - 1 ||
      file.value[|r.value|] == NEWLINE || file.value[|r.value|] == NUL
  {
    match Fgets(file, which)
    case Err(f) => Err(f)
    case Ok(line) => Ok(TakeUntil(line, NEWLINE))
  }

  /** The newline that ends a line is dropped. */
  lemma StripsNewline(line: seq<char>, which: Input)
    requires NEWLINE !in line && NUL !in line && |line| < BUF_SIZE - 1
    ensures ReadFile(Some(line + [NEWLINE]), which) == Ok(line)
  {
    FgetsWholeLine(line, which);
    TakeUntilSplit(line, [], NEWLINE);
    assert line + [NEWLINE] + [] == line + [NEWLINE];
  }

  /** `validate_text`: scan left to right and stop at the first character outside the alphabet. */
  method ValidateText(text: seq<char>) returns (valid: bool)
    ensures valid <==> IsText(text)
  {
    var i := 0;
    while i < |text|
      invariant 0 <= i <= |text|
      invariant forall j :: 0 <= j < i ==> InAlphabet(text[j])
    {
      if (text[i] < 'A' || text[i] > 'Z') && text[i] != ' ' {
        return false;
      }
      i := i + 1;
    }
    return true;
  }

  /**
   * The checks `main` makes on the two strings before any socket work, in
   * its order: the key's length, then the plaintext's characters, then the
   * key's characters.
   */
  function Validate(plaintext: seq<char>, key: seq<char>): (r: Result<Message, Failure>)
    ensures r.Ok? <==> |key| >= |plaintext| && IsText(plaintext) && IsText(key)
    ensures r.Ok? ==> r.value == Message(plaintext, key)
    ensures r == Err(KeyTooShort) <==> |key| < |plaintext|
    ensures r == Err(BadCharacters(TextFile)) <==> |key| >= |plaintext| && !IsText(plaintext)
    ensures r == Err(BadCharacters(KeyFile)) <==> |key| >= |plaintext| && IsText(plaintext) && !IsText(key)
  {
    if |key| < |plaintext| then Err(KeyTooShort)
    else if !IsText(plaintext) then Err(BadCharacters(TextFile))
    else if !IsText(key) then Err(BadCharacters(KeyFile))
    else Ok(Message(plaintext, key))
  }

  /** Everything `main` checks before any socket work: both files read, then `Validate`. */
  function Check(textFile: Option<seq<char>>, keyFile: Option<seq<char>>): (r: Result<Message, Failure>)
    ensures r.Err? ==> ExitCode(r.error) == 1
    ensures r.Ok? ==> IsText(r.value.text) && IsText(r.value.key) && |r.value.key| >= |r.value.text|
  {
    match ReadFile(textFile, TextFile)
    case Err(f) => Err(f)
    case Ok(plaintext) =>
      match ReadFile(keyFile, KeyFile)
      case Err(f) => Err(f)
      case Ok(key) => Validate(plaintext, key)
  }

  /**
   * `main` after its argument count check: the input checks, then the
   * network exchange with the frame `snprintf` builds. A failed check ends
   * the run before any socket is created, whatever the network would do.
   */
  method RunClient(textFile: Option<seq<char>>, keyFile: Option<seq<char>>, net: Network) returns (run: Run)
    ensures Check(textFile, keyFile).Err? ==> run == Failed(Check(textFile, keyFile).error, None) && Status(run) == 1
    ensures Check(textFile, keyFile).Ok? ==>
      var m := Check(textFile, keyFile).value;
      run == Exchange(Frame(m.text, m.key), net)
  {
    var plaintext := ReadFile(textFile, TextFile);
    if plaintext.Err? {
      return Failed(plaintext.error, None);
    }
    var key := ReadFile(keyFile, KeyFile);
    if key.Err? {
      return Failed(key.error, None);
    }
    if |key.value| < |plaintext.value| {
      return Failed(KeyTooShort, None);
    }
    var valid := ValidateText(plaintext.value);
    if !valid {
      return Failed(BadCharacters(TextFile), None);
    }
    valid := ValidateText(key.value);
    if !valid {
      return Failed(BadCharacters(KeyFile), None);
    }
    run := Exchange(Frame(plaintext.value, key.value), net);
  }
}
