# controlled6DoFMotion — a Dafny model of its string and buffer logic

`controlled6DoFMotion.C` is an OpenFOAM solid-body motion function that lets
an external controller drive a rigid body. Once per time step the leader
process reads a `;`-separated pose from a local Unix-domain socket, answers
with a fixed acknowledgement, broadcasts the text to every process, and each
process turns it into a displacement and an XYZ rotation about the centre of
gravity.

This project models the three sequential pieces of that file whose behaviour
can be stated exactly, and proves what they do:

* **Pose wire decoder** (`transformation()`, lines 205-227), module
  `PoseDecoder`. `Split` gives the tokens that repeated
  `std::getline(ss, token, ';')` calls produce. An empty payload has no
  token, and a trailing `;` adds none. `GetLine` is one such call.
  `DecodePayload` is the `while` loop with its counter `i`: tokens 1-6 go
  to displacement x, y, z and rotation x, y, z, and later tokens are
  counted and otherwise ignored. The numeric conversion `stof` is the
  parameter `parse: string -> Option<real>`. `None` means `stof` throws,
  which ends the decode. The pose the locals held before the loop is the
  parameter `init`, because OpenFOAM's `vector` default constructor leaves
  its components uninitialised. `DecodeTokens` is the loop's meaning on a
  token list. `ExpectedPose` restates it field by field, without the loop.
* **Socket path** (constructor, lines 109-114), module `SocketName`, built
  on the C-string operations in `CStrings`. `FormatDecimal` models the
  `snprintf("%.0f")` call and `StrCat` models `strcat`.
  `BuildSocketName` performs the constructor's four steps on 20-byte arrays
  and yields `"./exchange" + decimal(id) + ".sock"`. The channel id is a
  natural number.
* **Exchange buffer** (`func`, lines 49-80), module `Exchange`. The bytes one
  `read` delivers are a parameter. `Func` zeroes the 150-byte buffer,
  receives into it, keeps the text up to the first NUL, re-zeroes it, sets
  byte 0 to `'\n'`, and returns that buffer as the bytes written back.

Four behaviours of the code that a reader might expect to be otherwise:

* The `"exit"` test at line 75 compares against the acknowledgement buffer,
  not the received data. It can never succeed (`AckNeverRequestsExit`), so
  the connection is never closed by a keyword (`Func` ensures `!closed`).
  `ReceivedExitWouldPass` shows that the same test applied to a received
  `"exit"` would succeed.
* Fields not reached by the counter keep the value they had before the loop.
  They are not set to zero.
* A token that does not convert makes `stof` throw, and nothing in the file
  catches the exception. The model's decode therefore fails, rather than
  filling in a default.
* A read of zero bytes is not treated as a terminal condition. The buffer
  stays zeroed, the text is empty, and the decode yields the initial pose.

## Model

| member | source | states |
|---|---|---|
| `PoseDecoder.DecodePayload` | controlled6DoFMotion.C:205-227 | The loop's result is the decode of the tokens of the payload. On success the counter `i` equals the number of tokens. On failure `i` is the position (1-6) of the first token whose conversion fails. |
| `PoseDecoder.DecodeTokens` | controlled6DoFMotion.C:210-227 | The loop's effect after a given token list. When it succeeds, every field past the number of tokens still holds its value from before the loop. |
| `PoseDecoder.GetLine` | controlled6DoFMotion.C:211 | One `getline` call fails exactly at the end of the text. Otherwise it yields the text up to the next `;` (or the end), contains no `;`, and resumes after that `;`. The token and the rest split as the whole did. |
| `PoseDecoder.Split` | controlled6DoFMotion.C:211 | The tokens successive `getline` calls yield. An empty payload yields no tokens, and any non-empty payload yields at least one. |
| `PoseDecoder.SetField` | controlled6DoFMotion.C:213-226 | One `switch` arm stores the value in field k and leaves the other five fields unchanged. |
| `PoseDecoder.Assign` | controlled6DoFMotion.C:213-226 | The `switch` on the counter, as the loop runs it on the displacement and rotation vectors, gives exactly `SetField`: component i is set to the value and the other five are kept. |
| `PoseDecoder.SplitCount` | controlled6DoFMotion.C:210-212 | The number of tokens (the counter's final value) is one per `;`, plus one if text follows the last `;`. So it is 0 for an empty payload, and a trailing `;` adds nothing. |
| `PoseDecoder.SplitTokensUndelimited` | controlled6DoFMotion.C:211 | No token contains the delimiter. |
| `PoseDecoder.JoinSplit` | controlled6DoFMotion.C:211 | Rejoining the tokens with `;` gives back the payload, less its trailing `;` if it has one: splitting loses nothing else. |
| `PoseDecoder.SplitJoin` | controlled6DoFMotion.C:211 | `;`-free tokens, joined and `;`-terminated, split back into exactly those tokens, in order. |
| `PoseDecoder.SplitAppend` | controlled6DoFMotion.C:211 | A payload prefix ending in `;` splits independently of what follows it. |
| `PoseDecoder.TrailingDelimiter` | controlled6DoFMotion.C:211 | Adding a `;` after a final non-empty token adds no token. |
| `PoseDecoder.SplitDelimTerminated` | controlled6DoFMotion.C:211 | Appending `;` to a non-empty payload adds one empty token if it already ended in `;`, and none otherwise. |
| `PoseDecoder.DecodeTokensIsExpected` | controlled6DoFMotion.C:210-227 | The positional loop equals the field-by-field reference decode for every token list. |
| `PoseDecoder.DecodeFields` | controlled6DoFMotion.C:208-226 | The decode fails exactly when one of the first six tokens does not convert. Otherwise token k (k = 1..6) is the value of field k, and every field beyond the token count keeps its initial value. |
| `PoseDecoder.DecodeIgnoresExtraTokens` | controlled6DoFMotion.C:211-227 | Tokens after the sixth, malformed or not, never change the decode. |
| `PoseDecoder.DecodeIgnoresAppendedTokens` | controlled6DoFMotion.C:211-227 | A payload with at least six tokens decodes the same with `;` and any further text appended. |
| `PoseDecoder.FailureIsFinal` | controlled6DoFMotion.C:213-226 | Once a conversion has failed, no further tokens can rescue the decode. |
| `PoseDecoder.DecodeOneMore` | controlled6DoFMotion.C:212-226 | One pass of the loop body: the counter advances, and the token is converted and stored only at positions 1-6. |
| `CStrings.CStr` | controlled6DoFMotion.C:64 | The text taken from a buffer is its prefix before the first NUL. It contains no NUL and is followed by one unless it fills the buffer. |
| `CStrings.CStrOfTerminated` | controlled6DoFMotion.C:64 | Whatever follows the first NUL does not change the text. |
| `CStrings.CStrOfPadded` | controlled6DoFMotion.C:56-64 | Zero padding behind the received bytes does not change the text they hold. |
| `CStrings.StringOf` | controlled6DoFMotion.C:64 | Building a `std::string` from the buffer scans to the first NUL and yields exactly that text. |
| `CStrings.Zero` | controlled6DoFMotion.C:56 | `bzero` makes every byte of the buffer NUL. |
| `CStrings.StrNCmpLiteral` | controlled6DoFMotion.C:75 | `strncmp` of a NUL-free literal against a buffer over the literal's length is 0 exactly when the buffer starts with the literal. |
| `CStrings.StrNCmp` | controlled6DoFMotion.C:75 | `strncmp` with C semantics, reading a NUL past the end of either argument. Identical arguments always compare equal. |
| `CStrings.StrCat` | controlled6DoFMotion.C:112-114 | `strcat`, given room, appends the text after the buffer's current text and keeps the buffer NUL-terminated. Bytes past the new terminator are untouched. |
| `CStrings.FormatDecimal` | controlled6DoFMotion.C:111 | `snprintf` of the id writes its decimal rendering, cut to the buffer size less one, and terminates it. Bytes past the new terminator are untouched. |
| `CStrings.Decimal` | controlled6DoFMotion.C:111 | The rendering of a whole number is a non-empty string of digits with no leading zero. |
| `CStrings.ValueOfDecimal` | controlled6DoFMotion.C:111 | Reading the decimal rendering back gives the number: rendering loses nothing. |
| `CStrings.DecimalInjective` | controlled6DoFMotion.C:111 | Distinct ids render differently. |
| `CStrings.DecimalLength` | controlled6DoFMotion.C:111 | A number renders in at most k characters exactly when it is below 10^k. |
| `SocketName.FitsBuffer` | controlled6DoFMotion.C:46 | The path plus its NUL fits the 20-byte buffer exactly when the id is below 10000 (10 + 4 + 5 + 1 = 20). |
| `SocketName.SocketPathInjective` | controlled6DoFMotion.C:109-114 | Distinct channel ids never share a socket path. |
| `SocketName.IdOfSocketPath` | controlled6DoFMotion.C:109-114 | The path is `./exchange`, the id's digits, then `.sock`, and the id can be read back from between them. |
| `SocketName.FormatId` | controlled6DoFMotion.C:109-111 | For any id of at most 19 digits, formatting it into the 20-byte id buffer and reading it back yields the whole decimal rendering, with nothing cut off. |
| `SocketName.BuildSocketName` | controlled6DoFMotion.C:109-114 | For ids below 10000, the constructor's `snprintf` and three `strcat`s produce exactly `"./exchange" + decimal(id) + ".sock"`, within the 20-byte buffer. |
| `Exchange.AckBuffer` | controlled6DoFMotion.C:66-68 | The acknowledgement is 150 bytes: `'\n'`, then NUL bytes. |
| `Exchange.ExitRequestedIff` | controlled6DoFMotion.C:75 | The exit test accepts a buffer exactly when it starts with `exit`. |
| `Exchange.ExitRequested` | controlled6DoFMotion.C:75 | The `strncmp` test for `exit`. It never passes on a buffer shorter than the keyword. |
| `Exchange.AckNeverRequestsExit` | controlled6DoFMotion.C:66-78 | The test is applied to the acknowledgement, which never passes it, so the close branch is dead. |
| `Exchange.ReceivedExitWouldPass` | controlled6DoFMotion.C:74-75 | A received buffer starting with `exit` would pass the same test. |
| `Exchange.Receive` | controlled6DoFMotion.C:60 | The delivered bytes land at the front of the buffer, and the rest of the buffer is unchanged. |
| `Exchange.Func` | controlled6DoFMotion.C:49-80 | `func` returns the received bytes up to the first NUL (fewer than 150 characters) and writes back exactly the acknowledgement buffer. The connection is never closed. |

## Left out

- Socket lifecycle (`socket`, `unlink`, `bind`, `listen`, `accept`, lines 122-173) and the `read`/`write` system calls: operating-system I/O. The received bytes are a parameter of `Func`, and the written bytes are its result.
- `Pstream::master()` and `Pstream::scatter` (lines 186-203): a parallel collective whose purpose is cross-process consistency. In a sequential model it is the identity on the payload, so the decoder takes the payload directly.
- The rigid transform `quaternion R(quaternion::XYZ, …)` and the `septernion` composition (lines 238-249): floating-point quaternion algebra from library types that are not part of this model.
- The decimal-to-float conversion inside `stof`: floating point. It is the uninterpreted parameter `parse`, and scalars are `real`.
- Logging (`printf`, `Info`, `Pout`, `std::cout`), run-time registration (lines 84-96), the trivial `read()` member (253-261), and the unused locals `t`, `times`, `x`, `y`.
- `CStrings.FormatDecimal`: ids are natural numbers. The `%.0f` rendering of a negative or fractional `socket_id` (sign, rounding) is not modelled.
- `Exchange.Func`: requires the delivered bytes to be shorter than 150 or to contain a NUL. A read that fills all 150 bytes without a NUL leaves the buffer unterminated, and line 64 then reads past its end.
- `SocketName.BuildSocketName`: requires an id below 10000. For larger ids the third `strcat` writes past the 20-byte buffer, which the source does not guard against.
