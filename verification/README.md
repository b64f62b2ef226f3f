# pdb-attach: framed transport and session logic, in Dafny

pdb-attach lets a client debug a running Python process. The process calls
`listen(port)`: this installs a `PdbServer` (a `pdb.Pdb` subclass) as its
SIGUSR1 handler. The client sends the signal, connects, and from then on
both sides talk through `PdbIOWrapper`, a text stream over a socket. Every
message goes on the wire as `<len>|<code>|<text>`, with code 0 for text,
1 for the debugger's prompt and 2 for "end of input". On the receiving side
a buffer sits on top of the frames and serves `read`, `readline` and
`read_prompt`. The prompt travels as a `PdbStr`: a string carrying a one-bit
"is prompt" tag.

This project models that transport and the session logic around it, and
proves what they promise:

- `wrappers.dfy`: `Wrappers` (Option).
- `decimal.dfy`: `Decimal`. This is the decimal
  rendering of the header numbers and their parsing (`int(field)` on digit
  strings), with a round trip.
- `codec.dfy`: `Codec`. The frame format (`_format_msg`, as
  `Codec.FormatMsg`; the `Codec.FrameRoundTrip` and `Transport.Write` rows
  state what it means) and one `_read`:
  - the header loop;
  - EOF inside the header;
  - code 2 raising EOFError;
  - the size and code fields failing to parse;
  - a short payload turning the code into CLOSED.
- `transport.dfy`: `Transport`. The receive side of one wrapper as a
  `Channel(wire, buffer)`: the characters the peer sent that are still
  unread, and `_buffer`. It models `_read_eof`, `read`, `readline`,
  `read_prompt`, `write` and `raise_eoferror`.
- `streams.dfy`: `Streams`. What the read operations do on a stream made of
  the peer's own `write` calls: stopping at the first prompt, reading
  everything up to close, the partial text of a short frame, and EOFError.
- `session.dfy`: `Session`. The SIGUSR1 handler cell with
  `listen`/`unlisten`, the prompt tagging in `PdbServer.__init__`, and the
  client's `send_and_recv` and `raise_eoferror`.

Two key definitions:

- `Transport.Pending(w)` is all the text that reading `w` frame after frame
  will deliver: every frame up to the first CLOSED one, or up to a frame that
  raises. `Transport.End(w)` says which of the two ends it.
- Every read operation keeps the same invariant. The returned text, then
  the new buffer, then what the stream will still deliver, equals the old
  buffer followed by what the stream was going to deliver. Nothing is lost,
  invented or reordered.

`pdb_attach.py` and the package (`pdb_attach/io_wrapper.py`,
`pdb_attach/__init__.py`) contain the same logic twice. It is modelled once.
The table cites whichever copy states the property most directly. Each
operation has the same line structure in the other copy:
- `_read` is `pdb_attach.py:130-153` and `pdb_attach/io_wrapper.py:41-64`;
- `read_prompt` is `pdb_attach.py:223-238` and `pdb_attach/io_wrapper.py:134-149`;
- `listen`/`unlisten` is `pdb_attach.py:15-25` and `pdb_attach/__init__.py:18-27`.

The package copy has defects that stop it from running:
- `io_wrapper.py` never imports `io` (line 10) or `os` (line 112).
- `__init__.py`'s `listen` passes undefined `args`/`kwargs` (line 20).
- `PdbServer.__init__` uses `_PdbStr` without importing it (line 48).

The model follows the evident intent, which is what the flat script does.
The two session defects are also modelled as written; see Findings.

## Model

| member | source | states |
|---|---|---|
| Decimal.NatToDecimal | pdb_attach.py:125 | the header renders a count as a non-empty digit string with no leading zero and no bar character |
| Decimal.ParseDecimal | pdb_attach.py:144-146 | a header field parses exactly when it is a non-empty string of digits |
| Decimal.DecimalRoundTrip | pdb_attach.py:125 | parsing the rendered number gives the number back |
| Codec.SplitAtBarFacts | pdb_attach.py:138-144 | the header loop cuts the stream at its first bar character, and finds none only when the stream holds none |
| Codec.ScanHeaderFacts | pdb_attach.py:138-144 | the header loop stops after two bar characters or at the end of the stream; the two fields hold no bar character and the stream is field, bar, field, bar, rest |
| Codec.DecodeFrame | pdb_attach.py:144-153 | after the header: a field that does not parse raises ValueError, and only then; code 2 raises EOFError before any payload is read; otherwise the payload is taken from the front, the code becomes CLOSED exactly when fewer characters remain than announced, and the text is tagged as a prompt exactly when the code field is 1 |
| Codec.DecodeConsumesPrefix | pdb_attach.py:151-153 | the payload text and what is left unread spell out the stream after the header |
| Codec.ReadFrame | pdb_attach.py:130-153 | `_read`: a CLOSED result consumed the whole stream; any other code is a non-negative code other than 2 (whatever the header field parses to) and consumed at least a four-character header; a prompt tag goes only with code 1 or CLOSED |
| Codec.HeaderCutShort | pdb_attach.py:138-141 | a stream that ends before two bar characters gives empty, untagged text with code CLOSED |
| Codec.ReadFrameConsumesPrefix | pdb_attach/io_wrapper.py:48-64 | `_read` consumes the stream from the front: the text and the unread rest are a suffix of the stream |
| Codec.FrameRoundTrip | pdb_attach/io_wrapper.py:35-64 | a formatted message, followed by anything, reads back as its text and code, tagged exactly for code 1; code 2 raises and leaves the payload unread |
| Codec.TaggedRoundTrip | pdb_attach.py:265-268 | a text written with its tag reads back with the same text and the same tag |
| Codec.ShortPayload | pdb_attach/io_wrapper.py:62-64 | fewer payload characters than announced give the partial text, code CLOSED, and the tag the header code gave |
| Codec.EofHeaderRaises | pdb_attach/io_wrapper.py:56-60 | a code-2 header raises EOFError and no payload character is consumed |
| Transport.Pull | pdb_attach.py:180-181 | one `_read` appended to the buffer: no character lost or invented, the stream end unchanged, CLOSED consumes the stream, and any other frame shortens it |
| Transport.ReadToEof | pdb_attach/io_wrapper.py:66-71 | `_read_eof` buffers everything the stream delivers; it returns exactly when the stream ends CLOSED and raises otherwise |
| Transport.ReadSome | pdb_attach.py:179-186 | `read(n)` loop: at most n characters, exactly n unless CLOSED emptied everything; a buffer already holding n is served without reading |
| Transport.Read | pdb_attach.py:162-186 | `read(size)`: negative size returns old buffer plus all delivered text and empties the buffer; otherwise at most `size`, exactly `size` unless CLOSED; FIFO conservation in every case; errors leave the text in the buffer |
| Transport.Find | pdb_attach.py:215-216 | `index(sep)` is the first position where the separator occurs, and None means it occurs nowhere |
| Transport.LineEnd | pdb_attach.py:211-219 | the cut point never passes the first separator or the size cap, and stops short of the separator only at the cap or the end of the buffer |
| Transport.CutLine | pdb_attach.py:211-221 | the slice returns a prefix, keeps the remainder in the buffer, and ends at the first separator unless capped |
| Transport.ReadLine | pdb_attach.py:188-221 | `readline(size)`: never past the first separator, never longer than `size`; short of a separator only when capped or when the stream closed and the buffer was emptied; the rest stays buffered; no read when the buffer already suffices |
| Transport.ReadPrompt | pdb_attach.py:223-238 | `read_prompt` empties the buffer, returns buffer plus delivered text up to where it stopped, reports closed only with the stream consumed, and leaves text buffered when it raises |
| Transport.ReadPromptFlag | pdb_attach.py:231-238 | the closed flag is false exactly when a prompt-tagged frame comes before any CLOSED frame; without one, `read_prompt` returns iff the stream ends CLOSED |
| Transport.Write | pdb_attach.py:253-276 | `write` returns the text length after a successful send and 0 after a failed one; the bytes sent decode to the same text with code 1 for a prompt and 0 otherwise |
| Transport.SendEof | pdb_attach.py:240-251 | `raise_eoferror` sends exactly the four characters zero, bar, two, bar, which the peer's next read turns into EOFError, and returns whether the send succeeded |
| Streams.EncodeCarries | pdb_attach/io_wrapper.py:164-187 | the bytes of a run of successful writes are read back frame by frame as exactly the written messages |
| Streams.PendingOfFrames | pdb_attach/io_wrapper.py:66-71 | a run of written frames delivers exactly their texts, in order, and does not change how the stream ends |
| Streams.ReadAllFrames | pdb_attach/io_wrapper.py:85-88 | `read(-1)` on written frames returns old buffer plus every text and leaves buffer and stream empty |
| Streams.ReadAvailable | pdb_attach.py:179-186 | `read(n)` on a stream that ends closed returns exactly the first n characters of buffer plus delivered text when that many exist |
| Streams.ReadExactFrames | pdb_attach/io_wrapper.py:90-97 | `read(n)` on written frames returns the first n characters of buffer plus texts |
| Streams.ReadPromptSkipsAll | pdb_attach.py:231-235 | `read_prompt` moves past non-prompt frames, appending their texts in order |
| Streams.ReadPromptStopsAtPrompt | pdb_attach.py:231-238 | `read_prompt` stops at the first prompt frame: it returns buffer, earlier texts and prompt with the flag false, and later frames stay unread |
| Streams.ReadPromptUntilClosed | pdb_attach/io_wrapper.py:142-149 | without a prompt, `read_prompt` returns buffer plus all texts and reports closed |
| Streams.ReadPromptShortPayload | pdb_attach.py:232-235 | a frame cut short by the end of the stream ends `read_prompt` as closed, and its partial text is kept in the result |
| Streams.ReadPromptRaisesAtEof | pdb_attach.py:145-149 | an end-of-input frame makes `read_prompt` raise EOFError, with the earlier texts buffered and what follows unread |
| Streams.ReadLineIsFirstLine | pdb_attach.py:201-221 | `readline()` with a separator available returns exactly the text up to and including the first separator |
| Streams.ReadLineAtClose | pdb_attach/io_wrapper.py:112-132 | `readline()` without a separator returns everything once the stream ends CLOSED, leaving nothing |
| Session.NewServer | pdb_attach.py:35-47 | a new server remembers the handler it replaces and its port, and its prompt carries the prompt tag |
| Session.Listen | pdb_attach.py:15-18 | `listen` installs a server that remembers the handler in place before; if binding fails, nothing changes |
| Session.ListenAsWritten | pdb_attach/__init__.py:18-21 | the package's `listen` raises NameError and leaves the handler as it was |
| Session.ListenAsWrittenInstallsNothing | pdb_attach/__init__.py:20 | the package's `listen` fails where the intended `listen` installs a server |
| Session.Unlisten | pdb_attach.py:21-25 | the intended `unlisten` restores the handler the installed server replaced, and changes nothing when no server is installed |
| Session.UnlistenAsWritten | pdb_attach/__init__.py:23-27 | `unlisten` as written raises AttributeError whenever a server is installed, and leaves the handler in place |
| Session.ListenThenUnlisten | pdb_attach/__init__.py:18-27 | with the intended `unlisten`, `listen` then `unlisten` leaves installed exactly the handler found before |
| Session.UnlistenIdle | pdb_attach/__init__.py:23-25 | `unlisten` without an installed server, for instance a second call, is a no-op |
| Session.StackDiscipline | pdb_attach.py:15-25 | `listen` stacks one server and the intended `unlisten` removes one; the handler beneath all servers never changes |
| Session.UnlistenAll | pdb_attach.py:21-25 | as many calls of the intended `unlisten` as stacked servers bring back the original handler |
| Session.NestedListen | pdb_attach.py:15-25 | two `listen` calls undone by two calls of the intended `unlisten` restore each earlier handler in turn |
| Session.UnlistenAsWrittenKeepsServer | pdb_attach.py:24 | right after a successful `listen`, the `unlisten` as written fails and the server, not the old handler, stays installed |
| Session.ServerPromptFrame | pdb_attach/__init__.py:48 | the tagged server prompt goes out as a code-1 frame and reads back as a prompt |
| Session.ServerPromptReachesClient | pdb_attach.py:47 | after plain outputs the server prompt ends the client's `read_prompt`, open, with outputs and prompt in order and later bytes unread |
| Session.Normalise | pdb_attach/__init__.py:85-86 | the command sent ends with the separator and starts with the command; it is unchanged exactly when the command already ends with the separator, and otherwise one separator longer |
| Session.NormaliseIdempotent | pdb_attach/__init__.py:85-86 | normalising twice is normalising once |
| Session.SendAndRecv | pdb_attach/__init__.py:84-88 | `send_and_recv` sends the normalised line as an untagged code-0 frame (nothing after a failed send), then reads as `read_prompt` does: the closed flag is false exactly when a prompt frame comes before the stream ends, so a coming prompt guarantees a return; a return empties the buffer, conserves every character and keeps the stream end; a raise keeps the text buffered |
| Session.ClientRaiseEof | pdb_attach/__init__.py:79-82 | the client's `raise_eoferror` returns `("", True)` without reading when the send fails; otherwise it sends the code-2 frame with empty text and reads as `read_prompt` does: closed flag false exactly when a prompt comes first, every character conserved on a return, the text kept buffered and the stream end reported on a raise |
| Session.CommandReachesServer | pdb_attach.py:85-89 | a command sent by `send_and_recv` is what the server's `readline()` returns, when the line's first separator is its last |

## Left out

- Sockets are not modelled as such. `recv(k)` is the next `min(k, remaining)`
  characters of a finite sequence, and an empty result is end of stream.
  The outcome of `sendall` is a boolean parameter.
- A `recv` that returns fewer bytes while the peer is still connected is
  not modelled separately. The source treats every short payload as CLOSED,
  and so does the model.
- A failed `sendall` may have sent part of the frame. The model treats a
  failed send as sending nothing.
- Text encoding is not modelled: characters are ASCII, one character is one
  byte. `len(msg)` counts characters, but `recv(msg_size)` counts bytes, so
  multi-byte text would be mis-framed; that is out of scope.
- `int()` leniency is not modelled: a header field parses only as a plain
  digit string, with no sign, whitespace or underscores.
- `int()` length limit is not modelled: from Python 3.11 `int()` rejects a
  field of more than 4300 digits with ValueError, while `Decimal.ParseDecimal`
  accepts digit strings of any length.
- Codec.DecodeFrame: does not model `recv(msg_size)` raising OverflowError
  when the size field exceeds `sys.maxsize`; the model reads such a header as
  a short payload and gives CLOSED, because sizes are unbounded integers here.
- Codec.ShortPayload: the CLOSED result holds only for announced sizes up to
  `sys.maxsize`; a larger size raises OverflowError in `recv`, which the
  model does not represent (see Codec.DecodeFrame above).
- Streams.ReadPromptShortPayload: the closed return holds only for announced
  sizes up to `sys.maxsize`; a larger size makes `read_prompt` raise
  OverflowError in the source, which the model does not represent.
- Signals: `signal.signal`/`getsignal` become one handler cell, and
  `os.kill` and the SIGUSR1 delivery are not modelled.
- PdbServer's signal entry (`__call__` and `set_trace`, which accept the
  connection and install the wrapper), `do_detach`, and everything inherited
  from `pdb.Pdb` (breakpoints, the command loop) are not modelled. The model
  keeps only the prompt text that `pdb.Pdb.__init__` sets, as a parameter.
- `read(None)` (pdb_attach.py:174) is not modelled as a separate case:
  `Transport.Read` takes an integer size, and `None` behaves like `-1`.
- `PdbClient.connect`, `main`, `pdb_attach/__main__.py` and the CLI are not
  modelled; they are I/O plumbing.
- `encoding`, `errors` and `_new_buffer` are constants and have no member
  of their own.
- `os.linesep` is a parameter `sep`, so the model covers any separator,
  including the Windows two-character one.
- Session.CommandReachesServer: requires the normalised command's first
  separator to be its last. The source promises nothing when the command
  already contains a separator, because the server would then read two lines.
- Session.SendAndRecv: does not state the value `write` returns, because
  `send_and_recv` ignores it.

## Findings

| source | as written | input that shows it | evidently intended | confidence | as-written member | corrected member |
|---|---|---|---|---|---|---|
| pdb_attach.py:24 | `unlisten` calls `cur_handler.close()` before restoring the old handler, and neither `PdbServer` nor `pdb.Pdb` defines `close` | `listen(p)` then `unlisten()`: AttributeError, and the server stays installed | restore the handler the server replaced (as test_signal.py expects) | not executed; holds while `pdb.Pdb` has no `close` method | Session.UnlistenAsWritten | Session.Unlisten |
| pdb_attach/__init__.py:20 | the package's `listen` passes `*args, **kwargs`, which are not defined in that function | any `listen(p)`: NameError before a server is built | build and install the server as `pdb_attach.py:17` does | not executed | Session.ListenAsWritten | Session.Listen |

The as-written `unlisten` is exhibited by
`Session.UnlistenAsWrittenKeepsServer`, and the as-written `listen` by
`Session.ListenAsWrittenInstallsNothing`. The corrected pair is proved to
restore the handler by `Session.ListenThenUnlisten` and
`Session.UnlistenAll`.
