# OTP: a verified model of the one-time-pad servers and clients

The repository implements a one-time-pad cipher over a 27-symbol alphabet.
The symbols are 'A'..'Z' with values 0..25 and the space with value 26. It
has four programs:

- `enc_client` reads a plaintext file and a key file, checks them, sends
  `text|key` to a server and prints the reply.
- `enc_server` splits each request with `strtok` and replies with the
  ciphertext, one `encrypt_char` call per character.
- `dec_client` and `dec_server` do the same with `decrypt_char`.

This project models these pieces on values:

- the cipher on characters and on texts;
- the wire frame that `snprintf` builds;
- the server's `handle_client`: one `recv` capped at 1023 bytes, NUL
  termination, two `strtok` calls, then the output loop;
- each client's `read_file`, its input checks in their order, and the
  network half of `main` with its exit codes.

Both servers' loops are methods over a fresh array. `validate_text` is a
method with a loop. Both are proved against the functions that specify
them.

Modules, one per concern:

| module | what it holds |
|---|---|
| `Wrappers` | `Option` and `Result` |
| `CStrings` | C strings end at NUL; `strcspn`; bounded writes |
| `Alphabet` | symbols and their values |
| `Cipher` | `encrypt_char`, `decrypt_char`, C's `%` |
| `Framing` | `snprintf` frame, `strtok` |
| `Handler` | the part of `handle_client` both servers share |
| `EncServer`, `DecServer` | the loops and handlers |
| `Client` | `fgets`, exit codes, the network exchange |
| `EncClient`, `DecClient` | the two clients |
| `Protocol` | properties of a client and a server together |

Where the C code has undefined behaviour, the model names it rather than
giving it a meaning. The servers return `Unspecified(cause)` for:

- a missing text token (`strlen(NULL)`);
- a missing key token (reading `key[0]` through NULL);
- a key shorter than the text, when the loop reads past the bytes `recv`
  stored and the NUL after them.

A key shorter than the text does not by itself make the request undefined.
The loop then reads on past the key: first the NUL `strtok` wrote after it,
then whatever `recv` stored after that. The model computes that reply:
`"ABC|X|YZ"` gets `"X7 "`, with 'B' enciphered under the NUL
(`Handler.ShortKeyVector`).

The cipher arithmetic is defined on every character. The model follows it
there too, including C's truncating `%` for negative operands: `'\n'`
decrypted under key `'A'` gives `'@'`.

In these places the model follows what the code does:

- The servers check no characters. Only the clients do, and `dec_client`
  does not even do that.
- A second `|` ends the key token. It and everything after it do not change
  the two tokens (`Handler.ExtraFieldIgnored`). When the key is long enough,
  they do not change the reply either. A shorter key makes the loop read on
  into them (`Handler.ShortKeyReadsOn`).
- Oversized input is truncated silently, by `snprintf` on the client and by
  `recv` on the server.
- `encrypt(' ', ' ')` is `'Z'`: 26 + 26 = 52, and 52 mod 27 = 25.
- Send and receive failures in the clients exit with 1. Only `socket` and
  `connect` failures exit with 2.
- `dec_client`'s `read_file` keeps the newline of the line it reads
  (see Findings).
- An empty plaintext line passes every check of `enc_client`. Its frame then
  starts with `|`, which `strtok` skips, so the server finds no key token
  (`Protocol.EmptyPlaintextLosesKey`).

## Model

| member | source | states |
|---|---|---|
| Alphabet.Value | enc_server.c:158-160 | a symbol's value lies in [0, 27) and is 26 exactly for the space; any other character gives its code minus 'A' |
| Alphabet.Symbol | enc_server.c:164 | a value in [0, 27) maps to the symbol with that value; a negative remainder maps to a character just below 'A' |
| Alphabet.ValueInjective | enc_server.c:158-164 | two symbols with the same value are the same symbol |
| Alphabet.SymbolOfValue | enc_server.c:158-164 | mapping a symbol to its value and back returns the symbol |
| Alphabet.MappingVectors | enc_server.c:158 | 'A' is 0, 'Z' is 25, space is 26, 'a' is 32, newline is -55 |
| Cipher.CMod | enc_server.c:162 | C's `% 27` always lies strictly between -27 and 27, and agrees with the mathematical residue on non-negative operands |
| Cipher.CModNegative | dec_server.c:160 | for a negative operand C's remainder is never positive: it is 0 or the residue minus 27 |
| Cipher.EncryptChar | enc_server.c:156-165 | on two symbols, gives the symbol whose value is the sum of their values mod 27; on any characters, the result is a space or lies within 26 code points of 'A' |
| Cipher.DecryptChar | dec_server.c:154-163 | on two symbols, gives the symbol whose value is the difference of their values mod 27; same range as encryption on any characters |
| Cipher.DecryptEncrypt | dec_server.c:154-163 | decrypting with the same key undoes encrypting, for every pair of symbols |
| Cipher.EncryptDecrypt | enc_server.c:156-165 | encrypting with the same key undoes decrypting, for every pair of symbols |
| Cipher.Vectors | enc_server.c:156-165 | worked values: ('A','A') gives 'A', ('Z','B') gives space, (space, space) gives 'Z', and decrypting 'A' under 'B' gives space |
| Cipher.OutsideVectors | dec_server.c:154-163 | characters outside the alphabet: encrypting 'a' under 'A' gives 'F'; decrypting newline under newline gives 'A'; decrypting newline under 'A' gives '@' |
| Cipher.EncryptText | enc_server.c:131-138 | the ciphertext has the length of the text, and is a text whenever the text and the key prefix it uses are |
| Cipher.DecryptText | dec_server.c:130-137 | the plaintext has the length of the text, and is a text whenever the text and the key prefix it uses are |
| Cipher.EncryptUsesKeyPrefix | enc_server.c:135-137 | key characters past the text's length do not change the ciphertext |
| Cipher.DecryptUsesKeyPrefix | dec_server.c:134-136 | key characters past the text's length do not change the plaintext |
| Cipher.DecryptTextExtend | dec_server.c:134-136 | one more text and key character adds exactly one decrypted character at the end |
| Cipher.DecryptEncryptText | dec_server.c:134-136 | text-level round trip: decrypting a ciphertext under the key that produced it gives the plaintext back |
| Cipher.EncryptDecryptText | enc_server.c:135-137 | text-level round trip in the other direction |
| CStrings.TakeUntil | enc_client.c:140 | the result is the longest prefix free of the stop character, and the stop character follows it when the prefix is shorter than the input |
| CStrings.CStr | enc_server.c:124 | a NUL-terminated buffer reads as its NUL-free prefix, and as the whole buffer when it holds no NUL |
| CStrings.Truncate | enc_client.c:88 | a bounded write keeps the first n characters, or all of them when fewer |
| CStrings.TakeUntilSplit | enc_client.c:140 | the prefix before the first stop character is exactly the part in front of it |
| Framing.Frame | enc_client.c:88 | the frame is at most 1023 characters: text, delimiter and key when they fit, otherwise their first 1023 characters |
| Framing.TokenEnd | enc_server.c:127-128 | a token runs from its start to the first delimiter or the end of the string: it holds no delimiter, and a delimiter follows it unless it reaches the end |
| Framing.TokenEndAt | enc_server.c:127-128 | the token end is that first delimiter, or the end of the string when it holds none |
| Framing.Strtok | enc_server.c:127-128 | there is no token exactly when everything from the scan position on is a delimiter; otherwise only delimiters come before the token, the token is non-empty and delimiter-free, and a delimiter follows it unless it reaches the end |
| Framing.StrtokSkips | enc_server.c:127 | leading delimiters are skipped: scanning from before them finds the same token as scanning from after them |
| Framing.StrtokField | enc_server.c:127-128 | a non-empty, delimiter-free field that ends at a delimiter or at the end of the string is the token found at its start |
| Framing.Next | enc_server.c:128 | the next scan starts just after the delimiter that ended the token, or at the end of the string when none did |
| Handler.Buffer | enc_server.c:118-124 | the C string in the buffer is a NUL-free prefix of the received bytes, at most 1023 long, that stops only at the 1023 bytes `recv` stores or at a NUL |
| Handler.Scan | enc_server.c:127-128 | the text token is missing exactly when the string is all delimiters; otherwise the key token is missing exactly when everything after the delimiter that ends the text token is a delimiter; the key token lies after the text token |
| Handler.Split | enc_server.c:127-128 | both tokens are non-empty and delimiter-free; the split fails exactly when a token is missing, with that token as the cause |
| Handler.Stored | enc_server.c:118-124 | the buffer's defined bytes: at most 1024, ending in the NUL written after the received bytes, and holding the C string followed by a NUL |
| Handler.KeyView | enc_server.c:127-136 | what `key[i]` can read with a defined value: the buffer from the key token on, with the byte after the token set to NUL; it starts with the key token |
| Handler.Admit | enc_server.c:135-136 | the loop is defined exactly when the text is no longer than the bytes it can read from the key; it is then keyed by bytes that agree with those on every text position, and by the key token itself when that token is long enough; otherwise the cause is a short key |
| Handler.Request | enc_server.c:117-136 | a request is defined exactly when both tokens exist and the text is no longer than the bytes readable from the key; the loop then runs on the text token, with a key that agrees with those bytes over the text's length |
| Handler.Transform | enc_server.c:131-138 | the output has exactly one character per text character |
| Handler.Serve | enc_server.c:113-144 | the server stays silent exactly when `recv` fails, and replies exactly when the request is defined |
| Handler.SameBufferSameResponse | enc_server.c:124-128 | two receptions with the same buffer contents get the same tokens, and the same response when a token is missing or the key covers the text |
| Handler.RecvBound | enc_server.c:118 | bytes past the first 1023 never affect the response |
| Handler.NulEndsRequest | enc_server.c:124-131 | a NUL ends the C string, so the tokens ignore what follows it; so does the response unless a short key makes the loop read on |
| Handler.FrameTokens | enc_server.c:127-128 | a fitting frame of non-empty, delimiter-free, NUL-free fields splits back into those fields, at the positions where they sit |
| Handler.ExtraFieldIgnored | enc_server.c:128 | the key token stops at a second delimiter, and what follows leaves both tokens unchanged |
| Handler.EmptyTextTakesKey | enc_server.c:127-128 | a frame with an empty text field gives the key as the text token and no key token |
| Handler.ServeSplit | enc_server.c:127-143 | the reply to a split request: under the key token when it is long enough, else under the bytes readable from the key when they cover the text, else undefined |
| Handler.ShortKeyReadsOn | enc_server.c:124-136 | a short key with a third field after it: the loop reads the key, the NUL over the second delimiter, the third field and `recv`'s NUL; a text longer than those is undefined |
| Handler.ViewPastSecondDelim | enc_server.c:124-128 | the bytes readable from the key of such a request are the key, a NUL, the third field and a NUL |
| Handler.ShortLastKey | enc_server.c:124-136 | a short key at the end of the request is defined only for a text one longer than the key, whose last character then reads `recv`'s NUL |
| Handler.ShortKeyReadsPastNul | enc_server.c:124-136 | a NUL sent after a short key ends the tokens but not what the loop reads: it goes on into the bytes after the NUL |
| Handler.ViewPastNul | enc_server.c:118-128 | the bytes readable from a key followed by a sent NUL are the key, that NUL, what follows and `recv`'s NUL |
| Handler.ShortKeyVector | enc_server.c:127-136 | the request "ABC", delimiter, "X", delimiter, "YZ" gets the reply "X7 " |
| Handler.NulKeyVector | enc_server.c:135-137 | "ABC" enciphered under 'X', NUL, 'Y' gives "X7 " |
| Handler.NulKeyChars | enc_server.c:156-165 | 'A' under 'X' gives 'X', 'B' under NUL gives '7', 'C' under 'Y' gives space |
| Handler.BytesPastNulRead | enc_server.c:118-136 | the request "ABC", delimiter, "C" is undefined, while the same request followed by a NUL and "X" is enciphered under 'C', NUL, 'X' |
| EncServer.EncryptLoop | enc_server.c:131-138 | the filled array equals the ciphertext of the text under the key |
| EncServer.HandleClient | enc_server.c:113-144 | the handler's response equals the modelled server response; a reply is the ciphertext of the request's text under its key |
| DecServer.DecryptLoop | dec_server.c:130-137 | the filled array equals the plaintext of the ciphertext under the key |
| DecServer.HandleClient | dec_server.c:112-143 | the handler's response equals the modelled server response; a reply is the plaintext of the request's text under its key |
| Client.ExitCode | enc_client.c:64-102 | a client exits with 2 exactly for socket and connect failures, and with 1 for any other failure |
| Client.Status | enc_client.c:64-110 | a run that printed the reply exits with 0, and only such a run does; a failed run exits with its failure's exit code |
| Client.LineOf | enc_client.c:133 | fgets stops after the first newline: the result is a prefix holding no earlier newline, ending in the newline when the data has one |
| Client.Fgets | enc_client.c:124-137 | a missing or empty file is an error; otherwise the result is a NUL-free prefix of at most 1023 characters, with no newline before its last character, that stops only at the end of the file, at 1023 characters, before a NUL or after a newline |
| Client.FgetsWholeLine | enc_client.c:133 | a one-line file that fits is read whole, newline included |
| Client.Exchange | enc_client.c:62-110 | exit 2 exactly when socket or connect fails; output exactly when every call succeeds; the frame is sent only when send succeeds; the output is the reply read as a C string plus a newline |
| EncClient.ReadFile | enc_client.c:122-144 | fails exactly when fgets fails; otherwise the result is a prefix of the file with no newline and no NUL, at most 1023 long, that stops only at the end of the file, at 1023 characters, or before a newline or a NUL |
| EncClient.StripsNewline | enc_client.c:140 | the newline ending a file's line is removed |
| EncClient.ValidateText | enc_client.c:157-168 | returns true exactly when every character is an uppercase letter or a space |
| EncClient.Validate | enc_client.c:43-57 | the checks run in source order: a short key fails first, then bad plaintext characters, then bad key characters; it passes exactly when all three pass |
| EncClient.Check | enc_client.c:38-57 | every input failure exits with 1; accepted inputs are texts, and the key is at least as long as the plaintext |
| EncClient.RunClient | enc_client.c:24-111 | a failed input check ends the run with exit 1 before anything is sent; otherwise the run is the exchange of the frame of the checked inputs |
| DecClient.ReadFile | dec_client.c:105-121 | fails exactly when the file is missing or empty; otherwise the result is a NUL-free prefix of the file, at most 1023 long, with no newline before its last character, that stops only at the end of the file, at 1023 characters, before a NUL or after a newline, which it keeps |
| DecClient.KeepsNewline | dec_client.c:116 | the newline ending a file's line stays in the string |
| DecClient.Validate | dec_client.c:37-40 | passes exactly when the key is at least as long as the ciphertext; characters are not examined |
| DecClient.Check | dec_client.c:33-40 | every input failure exits with 1 and is never a bad-character failure; accepted keys are at least as long as the ciphertext |
| DecClient.RunClient | dec_client.c:22-94 | a failed input check ends the run with exit 1 before anything is sent; otherwise the run is the exchange of the frame |
| Protocol.FrameRoundTrip | enc_client.c:88 | the server's split inverts the client's frame for non-empty, delimiter-free, NUL-free fields that fit |
| Protocol.ServeFrame | enc_server.c:113-144 | a server replies to the frame of a text and a long-enough key with the transformed text |
| Protocol.ServeText | enc_server.c:113-144 | the same for a text and a key over the alphabet, with the reply given |
| Protocol.EncryptRequest | enc_client.c:38-98 | inputs the encrypting client accepts, non-empty and fitting, get back the ciphertext of the plaintext |
| Protocol.EndToEnd | dec_server.c:112-143 | what the encrypting server returns, sent to the decrypting server with the same key, comes back as the original plaintext |
| Protocol.EmptyPlaintextLosesKey | enc_client.c:38-88 | an empty plaintext line passes the client's checks, but the server finds no key token in its frame |
| Protocol.NewlineReachesDecryptServer | dec_client.c:105-121 | as written: files holding the ciphertext and the key line pass dec_client's checks, yet the server's reply is the plaintext plus one extra character, so it differs from the plaintext; the extra character is 'A' when the key is as long as the text |
| Protocol.StrippedReadDecrypts | enc_client.c:140 | corrected: with the reading that strips the newline, the same files decrypt to exactly the plaintext |

## Left out

- Sockets, `bind`, `listen`, the accept loop and `fork` (enc_server.c and dec_server.c `main`) are not modelled. Each connection is passed to the handler as a `Recv` value. Concurrency and process isolation are left out with them.
- `keygen.c` is not part of this model.
- Argument-count checks, usage messages, `atoi` of the port and `perror`/`fprintf` texts are left out. They change no state the model tracks beyond the exit codes.
- `fopen`, `fgets` and the file system are modelled as a file's contents (`Option<seq<char>>`, None when `fopen` fails). Multi-line files are read only up to their first line, as `fgets` does. `dec_client` never calls `fclose`; the model has no file handles, so it does not show this.
- A `recv` that returns fewer bytes than were sent is the same as a peer that sent fewer bytes. `Recv` carries the bytes the single call observes.
- A server's `send` failure (enc_server.c:141-143) is not modelled. After the reply is computed it changes nothing but a log line.
- `Handler.Serve`: for the three kinds of undefined behaviour listed above, the model returns `Unspecified(cause)` and does not say what bytes come back.
- `Handler.Request`: a short key makes the loop read the rest of `buffer`. The bytes past the received data and its NUL are uninitialized, or lie beyond the array. The model reports such a request as `Unspecified(KeyTooShort)` and gives those bytes no value.
- Characters are Dafny characters, not C bytes. A byte at or above 0x80, negative under a signed `char`, takes its unsigned code in `Alphabet.Value`.
- The in-place buffers (`buffer`, the output VLA) are values in the model, except for the servers' output arrays. `strtok` is modelled by token positions in the C string. The NUL it writes after the key token appears only where the loop reads it, in `Handler.KeyView`.

## Findings

| source | as written | input that shows it | evidently intended | confidence | as-written member | corrected member |
|---|---|---|---|---|---|---|
| dec_client.c:105-121 | `read_file` stops after `fgets`. Its comment says it removes newline characters, but it does not, so the line's `'\n'` goes into the length check and the frame. | A ciphertext file "CBA\n" produced by `enc_client` and a key file "XYZ\n". The server decrypts the trailing newline as a fourth character ('A' under the key's own newline), so the reply is one character longer than the plaintext. | Strip the newline as `enc_client`'s `read_file` does (enc_client.c:140). | not executed | Protocol.NewlineReachesDecryptServer | Protocol.StrippedReadDecrypts |
