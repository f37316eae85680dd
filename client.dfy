/**
 * What the two clients share: reading one line of a file with `fgets`, the
 * failure kinds and their exit codes, and the network half of `main`
 * (socket, connect, send, one recv, print).
 */
module Client {
  import opened Wrappers
  import opened CStrings

  const NEWLINE: char := '\n'

  /** Which of the two file arguments a failure is about. */
  datatype Input = TextFile | KeyFile

  /** Every way `main` can end other than printing a response. */
  datatype Failure =
    | CannotOpen(file: Input)     // fopen returned NULL
    | CannotRead(file: Input)     // fgets returned NULL: the file holds nothing
    | KeyTooShort                 // strlen(key) < strlen(text)
    | BadCharacters(file: Input)  // validate_text rejected the text or the key
    | SocketFailed
    | ConnectFailed
    | SendFailed
    | RecvFailed

  /** The status passed to `exit`: 2 for socket and connect errors, 1 for everything else. */
  function ExitCode(f: Failure): (code: int)
    ensures code == 1 || code == 2
    ensures code == 2 <==> f.SocketFailed? || f.ConnectFailed?
  {
    if f.SocketFailed? || f.ConnectFailed? then 2 else 1
  }

  /**
   * How each network call turns out: whether `socket`, `connect` and `send`
   * succeed, and what `recv` returns (None for -1).
   */
  datatype Network = Network(socketOk: bool, connectOk: bool, sendOk: bool, reply: Option<seq<char>>)

  /**
   * One invocation of a client: the request it handed to `send` (if it got
   * that far and sending succeeded) and what it printed on standard output.
   */
  datatype Run =
    | Failed(failure: Failure, sent: Option<seq<char>>)
    | Printed(request: seq<char>, stdout: seq<char>)

  /** The process's exit status. */
  function Status(run: Run): (code: int)
    ensures code == 0 <==> run.Printed?
    ensures run.Failed? ==> code == ExitCode(run.failure)
  {
    match run
    case Failed(f, _) => ExitCode(f)
    case Printed(_, _) => 0
  }

  /** The first line of `data`, with its newline if it has one. */
  function LineOf(data: seq<char>): (r: seq<char>)
    ensures |r| <= |data| && r == data[..|r|]
    ensures r != [] ==> NEWLINE !in r[..|r| - 1]
    ensures NEWLINE in data ==> r != [] && r[|r| - 1] == NEWLINE
    ensures NEWLINE !in data ==> r == data
  {
    var before := TakeUntil(data, NEWLINE);
    if |before| < |data| then
      assert data[..|before| + 1][..|before|] == before;
      data[..|before| + 1]
    else
      before
  }

  /**
   * `fgets(buffer, BUF_SIZE, file)` read as a C string: at most BUF_SIZE - 1
   * characters of the first line, newline included if it fits, cut at a NUL.
   * `fopen` failing and `fgets` finding nothing to read both end `main`.
   */
  function Fgets(file: Option<seq<char>>, which: Input): (r: Result<seq<char>, Failure>)
    ensures r.Err? <==> file.None? || file.value == []
    ensures r.Ok? ==> |r.value| <= BUF_SIZE - 1 && NUL !in r.value
    ensures r.Ok? ==> |r.value| <= |file.value| && r.value == file.value[..|r.value|]
    ensures r.Ok? && r.value != [] ==> NEWLINE !in r.value[..|r.value| - 1]
    ensures r.Ok? ==>
      |r.value| == |file.value| || |r.value| == BUF_SIZE - 1 || file.value[|r.value|] == NUL ||
      (r.value != [] && r.value[|r.value| - 1] == NEWLINE)
  {
    match file
    case None => Err(CannotOpen(which))
    case Some(data) =>
      if data == [] then Err(CannotRead(which))
      else
        var line := LineOf(data);
        var stored := Truncate(line, BUF_SIZE - 1);
        assert stored[..|stored| - 1] == line[..|line| - 1][..|stored| - 1] || stored == line;
        Ok(CStr(stored))
  }

  /** A one-line file whose line fits is read whole, newline included. */
  lemma FgetsWholeLine(line: seq<char>, which: Input)
    requires NEWLINE !in line && NUL !in line && |line| < BUF_SIZE - 1
    ensures Fgets(Some(line + [NEWLINE]), which) == Ok(line + [NEWLINE])
  {
    var data := line + [NEWLINE];
    TakeUntilSplit(line, [], NEWLINE);
    assert data + [] == data;
    assert LineOf(data) == data;
    assert NUL !in data;
  }

  /**
   * Everything `main` does after its input checks: create the socket and
   * connect (exit 2 on failure), send the request and receive once (exit 1
   * on failure), then print the reply, read as a C string, and a newline.
   */
  function Exchange(request: seq<char>, net: Network): (run: Run)
    ensures Status(run) == 2 <==> !net.socketOk || !net.connectOk
    ensures Status(run) == 0 <==> net.socketOk && net.connectOk && net.sendOk && net.reply.Some?
    ensures run.Failed? ==> run.sent == (if net.socketOk && net.connectOk && net.sendOk then Some(request) else None)
    ensures run.Printed? ==> run.request == request
    ensures run.Printed? ==> run.stdout == CStr(Truncate(net.reply.value, BUF_SIZE - 1)) + [NEWLINE]
  {
    if !net.socketOk then Failed(SocketFailed, None)
    else if !net.connectOk then Failed(ConnectFailed, None)
    else if !net.sendOk then Failed(SendFailed, None)
    else
      match net.reply
      case None => Failed(RecvFailed, Some(request))
      case Some(bytes) => Printed(request, CStr(Truncate(bytes, BUF_SIZE - 1)) + [NEWLINE])
  }
}
