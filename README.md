# pixelwars2: the shared canvas and its edit loop, in Dafny

pixelwars2 is a collaborative pixel canvas served by one FastAPI process.
The state lives in `app.py`. The canvas `image` is a list of
`size * size = 100` colour names, all `"green"` at start-up. The
`ConnectionManager` keeps a list of open WebSocket connections. Each
connection runs `websocket_endpoint`. That loop reads a text frame
`"<index_str> <color>"` and splits it into two fields. It computes
`int(index_str.replace('p', '')) - 1` and writes the colour at that index
with Python list semantics. It then broadcasts `"<index_str> <color>"` to
every registered connection.

This project models that core:

- `wrappers.dfy`: `Option` and `Result`.
- `text.dfy` (module `Text`): Python's `str.split()` with no argument and
  `str.replace(c, '')`. It uses Python's whitespace set, including the
  non-ASCII whitespace characters. `Split` is characterised both ways: it
  returns `fields` exactly when the string is those fields laid out between
  whitespace separators that are non-empty between two fields.
- `pyint.dfy` (module `PyInt`): Python's `int()` in base 10 on a string
  without whitespace. It accepts an optional sign and ASCII digits, with
  single underscores allowed between digits. It refuses more than 4300
  digits, the default limit of CPython 3.11 and later. It is proved to
  invert the decimal form of every integer within that limit and to refuse
  every longer one.
- `command.dfy` (module `Command`): parsing a frame (`ParseCommand`) and
  Python list indexing (`ListIndex`). `Decide` combines them into the cell
  written and the broadcast text, or the exception raised. Worked frames
  are included: `"p0 red"` writes the last cell, `"p101 red"` raises
  `IndexError`, and `"p1_0 red"` writes cell 9.
- `connections.dfy` (module `Connections`): the `ConnectionManager` class.
  Its `active` field is a sequence of connection ids, with `Connect`
  (append), `Disconnect` (remove the first occurrence, or fail) and
  `Broadcast` (a loop building the ordered list of sends).
- `app.dfy` (module `App`): the `Server` class. It holds the canvas as a
  100-cell `array<string>` and the connection manager. `HandleCommand` is
  one pass of the loop body. `Session` is one connection's
  `websocket_endpoint`: connect, handle frames until one raises, and
  unregister only on disconnect. `Replay` is the specification of a run
  of frames.

Points where `app.py` behaves differently from what a reader might expect of
such a service; the model follows the code:

- A frame has two fields, not three. There is no identity, cooldown,
  online-count message or edit log.
- A malformed frame or a bad index is not caught. It ends the session, and
  the session's connection stays registered.
- Negative indices down to -100 wrap round (`"p0"` writes cell 99). They are
  not rejected as out of range.
- `disconnect` raises when the connection is absent, so it is not
  idempotent. A failed send during `broadcast` is not isolated.

## Model

| member | source | states |
|---|---|---|
| `Text.Split` | app.py:46 | every field `data.split()` yields is non-empty and holds no whitespace |
| `Text.SplitInterleave` | app.py:46 | fields laid out between whitespace separators (non-empty between two fields, any at the ends) split back into exactly those fields |
| `Text.SplitLayout` | app.py:46 | every string is its split fields laid out between such separators, so nothing but whitespace is dropped |
| `Text.SplitCharacterisation` | app.py:46 | `Split(s) == fields` if and only if `s` is `fields` laid out between well-formed separators |
| `Text.Without` | app.py:47 | `replace('p', '')` leaves no `'p'`, never lengthens the string, and is the identity on strings without `'p'` |
| `Text.WithoutConcat` | app.py:47 | deleting a character works piece by piece, so the other characters keep their order |
| `Text.WithoutCounts` | app.py:47 | deleting a character removes exactly its occurrences: every other character keeps its count |
| `PyInt.ParseUnsigned` | app.py:47 | `int()` without a sign succeeds exactly on digits with single underscores between them, at most 4300 digits not counting the underscores |
| `PyInt.ParseInt` | app.py:47 | `int()` succeeds exactly on an optional sign followed by such a numeral; unsigned numerals give non-negative values |
| `PyInt.ParseShowNat` | app.py:47 | the digits of a natural number read back as it when there are at most 4300 of them, and are refused otherwise |
| `PyInt.ParseShow` | app.py:47 | `int(str(n)) == n` for every integer `n` of at most 4300 digits; a longer decimal form is refused |
| `PyInt.ValueShowNat` | app.py:47 | the decimal digits of `n` denote `n` |
| `PyInt.ShowChars` | app.py:47 | the decimal form of an integer is non-empty and holds only digits and at most a leading minus sign |
| `PyInt.ExampleUnderscoreInt` | app.py:47 | `int("1_0") == 10` |
| `PyInt.ExampleTooManyDigits` | app.py:47 | `int()` refuses a numeral of 4301 ones |
| `Command.ParseCommand` | app.py:46-47 | unpacking fails exactly when there are not two fields; `int()` fails exactly when the first field without its `'p'` is not an integer; otherwise the index is that integer minus 1, with the fields as received |
| `Command.ParseFrame` | app.py:46-47 | any frame of two fields with any well-formed whitespace reads as index `int(token without 'p') - 1`, the token and the colour |
| `Command.ParseFrameFieldCount` | app.py:46 | a frame with any other number of fields fails to unpack, with that count |
| `Command.ClientToken` | app.py:47 | `"p" + str(k)` is a single field and deleting its `'p'` leaves `str(k)` |
| `Command.SpaceJoined` | app.py:46 | two fields joined by one space are laid out with well-formed separators |
| `Command.ParseClientFrame` | app.py:46-47 | the frame `"p<k> <color>"` reads as index `k - 1`, token `"p<k>"` and the colour; if `k` has more than 4300 digits, `int()` fails on `str(k)` |
| `Command.ListIndex` | app.py:48 | list indexing succeeds exactly for `-n <= i < n`, and then lands on a cell `< n` congruent to `i` modulo `n` |
| `Command.Decide` | app.py:46-49 | a successful edit always names a cell inside the canvas |
| `Command.DecideRejectsMalformed` | app.py:46-47 | a frame that fails to unpack or to parse is rejected with that same error |
| `Command.DecideOneBased` | app.py:47-49 | for an index field value `k` in `1..n`, cell `k - 1` gets the colour and the broadcast text is the token, a space and the colour |
| `Command.DecideWraps` | app.py:47-48 | an index in `-n..-1` writes cell `index + n` |
| `Command.DecideOutOfRange` | app.py:47-48 | an index `>= n` or `< -n` raises `IndexError` carrying that index |
| `Command.DecideClientFrame` | app.py:46-49 | the frame `"p<k> <color>"` writes where list indexing puts `k - 1` and broadcasts the frame itself, or raises `IndexError`; a `k` of more than 4300 digits raises `ValueError` instead |
| `Command.DecideNotInteger` | app.py:46-47 | a two-field frame whose index field without its `'p'` is not accepted by `int()` raises that `ValueError` |
| `Command.DecideTooManyDigits` | app.py:46-47 | an index field of more than 4300 digits raises `ValueError` whatever the canvas size, before any list indexing |
| `Command.ExampleTooManyDigitsFrame` | app.py:46-47 | `"p"`, 4301 ones and `" red"` raises `ValueError` |
| `Command.ZeroWritesLastCell` | app.py:47-48 | `"p0 <color>"` writes the last cell |
| `Command.ExampleFifth` | app.py:46-49 | `"p5 red"` writes cell 4 and broadcasts `"p5 red"` |
| `Command.ExampleLast` | app.py:46-49 | `"p100 red"` writes cell 99 |
| `Command.ExamplePastEnd` | app.py:47-48 | `"p101 red"` raises `IndexError` for index 100 |
| `Command.ExampleNegative` | app.py:47-48 | `"p-99 red"` is index -100, which writes cell 0 |
| `Command.ExampleOneField` | app.py:46 | `"p5"` fails to unpack (one field) |
| `Command.ExampleThreeFields` | app.py:46 | `"p5 red u1"` fails to unpack (three fields) |
| `Command.ExampleNotInteger` | app.py:47 | `"px red"` fails in `int("x")` |
| `Command.ExampleUnderscore` | app.py:46-49 | `"p1_0 red"` writes cell 9 |
| `Connections.Fanout` | app.py:23-25 | a broadcast makes one send per registered connection, to that connection, in list order, all with the same text |
| `Connections.RemoveFirst` | app.py:17-18 | `list.remove` leaves the list as it was when the connection is absent, and otherwise shortens it by one |
| `Connections.RemoveFirstAt` | app.py:17-18 | only the first occurrence is removed; the entries before and after it keep their order |
| `Connections.RemoveFirstCounts` | app.py:17-18 | removal takes away exactly one occurrence of the connection and nothing else |
| `Connections.ConnectThenDisconnect` | app.py:15-18 | connecting a new connection and then disconnecting it restores the registry |
| `Connections.ConnectionManager.constructor` | app.py:10-11 | the registry starts empty |
| `Connections.ConnectionManager.Connect` | app.py:13-15 | the connection is appended; earlier entries and their order are unchanged |
| `Connections.ConnectionManager.Disconnect` | app.py:17-18 | fails exactly when the connection is absent; otherwise removes only its first occurrence |
| `Connections.ConnectionManager.Broadcast` | app.py:23-25 | the sends go to every registered connection in list order, each with the message |
| `App.Step` | app.py:46-49 | one pass of the loop keeps the canvas size; a pass that raises changes neither the canvas nor the count of handled frames |
| `App.Replay` | app.py:44-49 | a run keeps the canvas size, broadcasts once per handled frame, and has no error exactly when it handled every frame |
| `App.ReplayExtend` | app.py:44-49 | handling one more frame after an error-free run is one more loop pass |
| `App.ReplayDeadAfterError` | app.py:44-50 | once a frame has raised, later frames change nothing: the loop is dead |
| `App.ReplayDeadAt` | app.py:44-50 | a run that raised within its first `i` frames ends there |
| `App.ReplayStopsAtError` | app.py:44-49 | the run stops at the first frame that raises: the frames before it ran without error and left the final canvas |
| `App.ReplayMessages` | app.py:44-49 | every handled frame was decided as a write, and the text broadcast for it is its index field, a space and its colour |
| `App.ReplayLastKeeps` | app.py:44-48 | a last frame that does not write a cell leaves that cell as the run before it left it |
| `App.ReplayLastWrites` | app.py:44-48 | a frame handled only once the last frame is added is that last frame, and its cell has its colour |
| `App.ReplayLastWriter` | app.py:44-48 | a cell ends a run with the colour of the last handled frame that wrote it |
| `App.ReplayWrites` | app.py:44-48 | a cell that no handled frame writes keeps its colour through a run, whatever the frames after the one that raised |
| `App.Server.constructor` | app.py:28-32 | the canvas has `size * size = 100` cells, all `"green"`, and the registry is empty |
| `App.Server.HandleCommand` | app.py:46-49 | on an error the canvas is unchanged and nothing is sent; otherwise exactly the decided cell takes the colour and the token-space-colour text goes to every registered connection in order |
| `App.Server.Session` | app.py:41-51 | connects, then the canvas is the replay of the frames and each handled frame is broadcast to the registry including itself; a crash leaves the connection registered, a disconnect removes its first occurrence |

## Left out

- The FastAPI application, the `/` route and its Jinja2 template (app.py:6-7, 36-38) are HTTP and page glue.
- `print(image)` (app.py:34) is console output.
- `send_personal_message` (app.py:20-21) is a single socket send and is never called.
- `websocket.accept`, `send_text` and `receive_text` are network I/O. A connection is an abstract id, and `Broadcast` returns the ordered list of sends instead of performing them. A send that fails (and the exception it would raise in the sender's session) is not modelled.
- `async`/`await` scheduling is not modelled. `App.Server.Session` runs one connection's loop with no other session in between. In the program other sessions can connect, disconnect and edit at each `await`, including while `broadcast` iterates over the list.
- `App.Server.Session` takes the frames a client sends as a parameter, and a flag for whether it then disconnects. A session that neither crashes nor disconnects ends as `Waiting`, standing for the loop blocked in `receive_text`.
- PyInt.ParseInt: does not accept the non-ASCII decimal digits (Unicode category Nd) that Python's `int()` also accepts; such a token is treated as a `ValueError`.
- PyInt.ParseInt: assumes CPython 3.11 or later (or the 3.7.14, 3.8.14, 3.9.14 and 3.10.7 security releases) with the default limit of 4300 digits. Earlier interpreters have no limit and accept longer numerals. A limit changed through `sys.set_int_max_str_digits`, `PYTHONINTMAXSTRDIGITS` or `-X int_max_str_digits` is not modelled.
- Connections.ConnectionManager.Disconnect: the `ValueError` of `list.remove` on an absent connection is returned as `ok == false` with the registry unchanged, not raised out of the endpoint.
