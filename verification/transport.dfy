/**
  The receive buffer of `PdbIOWrapper` sitting on top of the framed stream,
  and its stream operations `read`, `readline`, `read_prompt`, plus the two
  sending operations `write` and `raise_eoferror`.

  The socket's incoming side is the sequence of characters the peer has
  sent and this side has not yet read (`wire`); `recv(k)` takes the next
  `min(k, |wire|)` of them, and an empty result is end of stream.
 */
module Transport {
  import opened Wrappers
  import opened Decimal
  import opened Codec

  /** The receiving state of one wrapper: unread stream and `_buffer`. */
  datatype Channel = Channel(wire: string, buffer: string)

  /** A read operation either returns a value or raises; either way the channel has moved on. */
  datatype Answer<T> = Return(value: T, after: Channel) | Throw(error: Error, after: Channel)

  /** How a stream ends when read frame after frame: at a CLOSED code, or at a raise. */
  datatype Stop = Closed | Raise(error: Error, rest: string)

  /**
    All the text a stream will still deliver when read frame after frame:
    the texts of its frames up to and including the first CLOSED one, or up
    to the first frame that raises.
   */
  function Pending(w: string): string
    decreases |w|
  {
    match ReadFrame(w)
    case Raised(_, _) => ""
    case Got(f, rest) => if f.code == CLOSED then f.msg.text else f.msg.text + Pending(rest)
  }

  /** How reading `w` frame after frame ends. */
  function End(w: string): Stop
    decreases |w|
  {
    match ReadFrame(w)
    case Raised(e, rest) => Raise(e, rest)
    case Got(f, rest) => if f.code == CLOSED then Closed else End(rest)
  }

  /** A stream with nothing left delivers nothing and ends closed. */
  lemma EmptyStream()
    ensures Pending("") == "" && End("") == Closed
  {
    assert ReadFrame("") == Got(Frame(Plain(""), CLOSED), "");
  }

  /** One `_read` followed by `self._buffer += msg`. */
  function Pull(s: Channel): (r: Answer<Frame>)
    ensures r.Throw? ==> r.after.buffer == s.buffer && Pending(s.wire) == "" &&
                         End(s.wire) == Raise(r.error, r.after.wire)
    ensures r.Return? ==> r.after.buffer == s.buffer + r.value.msg.text
    ensures r.Return? ==> s.buffer + Pending(s.wire) == r.after.buffer + Pending(r.after.wire)
    ensures r.Return? ==> End(r.after.wire) == End(s.wire)
    ensures r.Return? && r.value.code == CLOSED ==> r.after.wire == ""
    ensures r.Return? && r.value.code != CLOSED ==> |r.after.wire| < |s.wire|
    ensures r.Return? && r.value.msg.isPrompt ==> r.value.code == PROMPT || r.value.code == CLOSED
  {
    match ReadFrame(s.wire)
    case Raised(e, rest) => Throw(e, Channel(rest, s.buffer))
    case Got(f, rest) =>
      EmptyStream();
      assert s.buffer + Pending(s.wire) == (s.buffer + f.msg.text) + Pending(rest);
      Return(f, Channel(rest, s.buffer + f.msg.text))
  }

  /** `_read_eof`: pull frames into the buffer until a CLOSED code. */
  function ReadToEof(s: Channel): (r: Answer<()>)
    decreases |s.wire|
    ensures r.after.buffer == s.buffer + Pending(s.wire)
    ensures r.Return? <==> End(s.wire) == Closed
    ensures r.Return? ==> r.after.wire == ""
    ensures r.Throw? ==> End(s.wire) == Raise(r.error, r.after.wire)
  {
    match Pull(s)
    case Throw(e, s1) => Throw(e, s1)
    case Return(f, s1) => if f.code == CLOSED then Return((), s1) else ReadToEof(s1)
  }

  function Min(a: int, b: int): int {
    if a <= b then a else b
  }

  /** `read(size)` for `size >= 0`: pull frames until `size` characters are buffered or CLOSED. */
  function ReadSome(s: Channel, size: nat): (r: Answer<string>)
    decreases |s.wire|
    ensures r.Return? ==> |r.value| <= size && (|r.value| == size || r.after == Channel("", ""))
    ensures r.Return? ==> r.value + r.after.buffer + Pending(r.after.wire) == s.buffer + Pending(s.wire)
    ensures r.Return? ==> End(r.after.wire) == End(s.wire)
    ensures r.Throw? ==> End(s.wire) == Raise(r.error, r.after.wire) &&
                         r.after.buffer == s.buffer + Pending(s.wire) && |r.after.buffer| < size
    ensures |s.buffer| >= size ==> r.Return? && r.after.wire == s.wire
  {
    if |s.buffer| >= size then
      assert s.buffer[..size] + s.buffer[size..] == s.buffer;
      Return(s.buffer[..size], Channel(s.wire, s.buffer[size..]))
    else
      match Pull(s)
      case Throw(e, s1) => Throw(e, s1)
      case Return(f, s1) =>
        if f.code == CLOSED then
          var m := Min(|s1.buffer|, size);
          assert s1.buffer[..m] + s1.buffer[m..] == s1.buffer;
          Return(s1.buffer[..m], Channel(s1.wire, s1.buffer[m..]))
        else
          ReadSome(s1, size)
  }

  /**
    `read(size)`. A negative size reads until CLOSED and returns the whole
    buffer; otherwise at most `size` characters come back, exactly `size`
    unless the stream closed first, in which case nothing is left. In every
    case no character is lost, invented or reordered: the result, then the
    new buffer, then what the stream will still deliver, spell out the old
    buffer followed by what the stream was going to deliver.
   */
  function Read(s: Channel, size: int): (r: Answer<string>)
    ensures size < 0 ==> (r.Return? <==> End(s.wire) == Closed)
    ensures size < 0 && r.Return? ==> r.value == s.buffer + Pending(s.wire) && r.after == Channel("", "")
    ensures size >= 0 && r.Return? ==> |r.value| <= size && (|r.value| == size || r.after == Channel("", ""))
    ensures r.Return? ==> r.value + r.after.buffer + Pending(r.after.wire) == s.buffer + Pending(s.wire)
    ensures r.Return? ==> End(r.after.wire) == End(s.wire)
    ensures r.Throw? ==> End(s.wire) == Raise(r.error, r.after.wire) && r.after.buffer == s.buffer + Pending(s.wire)
  {
    if size < 0 then
      match ReadToEof(s)
      case Throw(e, s1) => Throw(e, s1)
      case Return(_, s1) =>
        assert ReadFrame("") == Got(Frame(Plain(""), CLOSED), "");
        Return(s1.buffer, Channel(s1.wire, ""))
    else
      ReadSome(s, size)
  }

  /** `sep` appears in `s` at position `i`. */
  predicate OccursAt(s: string, sep: string, i: nat) {
    i + |sep| <= |s| && s[i..i + |sep|] == sep
  }

  function FindFrom(s: string, sep: string, i: nat): (r: Option<nat>)
    requires i <= |s|
    decreases |s| - i
    ensures r.Some? ==> i <= r.value && OccursAt(s, sep, r.value) &&
                        forall j :: i <= j < r.value ==> !OccursAt(s, sep, j)
    ensures r.None? ==> forall j :: i <= j ==> !OccursAt(s, sep, j)
  {
    if OccursAt(s, sep, i) then Some(i)
    else if i == |s| then None
    else FindFrom(s, sep, i + 1)
  }

  /** `s.index(sep)`, or None where `sep in s` is false: the first position of `sep`. */
  function Find(s: string, sep: string): (r: Option<nat>)
    ensures r.Some? ==> OccursAt(s, sep, r.value) && forall j :: 0 <= j < r.value ==> !OccursAt(s, sep, j)
    ensures r.None? ==> forall j :: !OccursAt(s, sep, j)
  {
    FindFrom(s, sep, 0)
  }

  /** `t` ends just after the first occurrence of `sep` in it. */
  predicate EndsAtFirst(t: string, sep: string) {
    |sep| <= |t| && Find(t, sep) == Some(|t| - |sep|)
  }

  /** An occurrence inside a prefix is an occurrence in the whole, and back. */
  lemma OccursInPrefix(s: string, sep: string, n: nat, j: nat)
    requires n <= |s|
    ensures OccursAt(s[..n], sep, j) <==> OccursAt(s, sep, j) && j + |sep| <= n
  {
    if j + |sep| <= n {
      assert s[..n][j..j + |sep|] == s[j..j + |sep|];
    }
  }

  /** The first separator of a prefix is the first separator of the whole, when the prefix holds it. */
  lemma FindInPrefix(buf: string, sep: string, idx: nat)
    requires idx <= |buf|
    ensures Find(buf[..idx], sep).Some? ==>
              Find(buf, sep).Some? && Find(buf[..idx], sep) == Find(buf, sep) && Find(buf, sep).value + |sep| <= idx
    ensures Find(buf, sep).Some? && Find(buf, sep).value + |sep| <= idx ==> Find(buf[..idx], sep) == Find(buf, sep)
  {
    var v := buf[..idx];
    if Find(v, sep).Some? {
      OccursInPrefix(buf, sep, idx, Find(v, sep).value);
      OccursInPrefix(buf, sep, idx, Find(buf, sep).value);
    }
    if Find(buf, sep).Some? && Find(buf, sep).value + |sep| <= idx {
      var i := Find(buf, sep).value;
      OccursInPrefix(buf, sep, idx, i);
      forall j | 0 <= j < i ensures !OccursAt(v, sep, j) {
        OccursInPrefix(buf, sep, idx, j);
      }
    }
  }

  /** Where `readline` cuts the buffer once its loop has stopped. */
  function LineEnd(buf: string, size: int, sep: string): (idx: nat)
    ensures idx <= |buf|
    ensures size >= 0 ==> idx <= size
    ensures Find(buf, sep).Some? ==> idx <= Find(buf, sep).value + |sep|
    ensures Find(buf, sep).Some? ==> idx == Find(buf, sep).value + |sep| || (size >= 0 && idx == size)
    ensures Find(buf, sep).None? ==> idx == |buf| || (size >= 0 && idx == size)
  {
    match Find(buf, sep)
    case Some(i) => if size >= 0 then Min(size, i + |sep|) else i + |sep|
    case None => if size >= 0 then Min(size, |buf|) else |buf|
  }

  /** The slicing at the end of `readline`, once the loop has stopped. */
  function CutLine(s: Channel, size: int, sep: string): (r: Answer<string>)
    ensures r.Return? && r.after.wire == s.wire && r.value + r.after.buffer == s.buffer
    ensures size >= 0 ==> |r.value| <= size
    ensures Find(r.value, sep).Some? ==> EndsAtFirst(r.value, sep)
    ensures Find(s.buffer, sep).Some? || (size >= 0 && |s.buffer| >= size) ==>
              EndsAtFirst(r.value, sep) || (size >= 0 && |r.value| == size)
    ensures Find(s.buffer, sep).None? && (size < 0 || |s.buffer| < size) ==> r.after.buffer == ""
  {
    var buf := s.buffer;
    var idx := LineEnd(buf, size, sep);
    assert buf[..idx] + buf[idx..] == buf;
    FindInPrefix(buf, sep, idx);
    Return(buf[..idx], Channel(s.wire, buf[idx..]))
  }

  /**
    `readline(size)`. Pull frames until the buffer holds the line separator,
    holds `size` characters (when `size >= 0`), or the stream closes. The
    result never runs past the first separator, never exceeds `size`, and
    stops short of a separator only when capped by `size` or when the stream
    closed and the whole buffer was taken. What is not returned stays buffered.
   */
  function ReadLine(s: Channel, size: int, sep: string): (r: Answer<string>)
    decreases |s.wire|
    ensures r.Return? ==> r.value + r.after.buffer + Pending(r.after.wire) == s.buffer + Pending(s.wire)
    ensures r.Return? ==> End(r.after.wire) == End(s.wire)
    ensures r.Return? && size >= 0 ==> |r.value| <= size
    ensures r.Return? && Find(r.value, sep).Some? ==> EndsAtFirst(r.value, sep)
    ensures r.Return? ==> EndsAtFirst(r.value, sep) || (size >= 0 && |r.value| == size) || r.after == Channel("", "")
    ensures r.Throw? ==> End(s.wire) == Raise(r.error, r.after.wire) && r.after.buffer == s.buffer + Pending(s.wire)
    ensures r.Throw? ==> Find(r.after.buffer, sep).None? && (size < 0 || |r.after.buffer| < size)
    ensures Find(s.buffer, sep).Some? || 0 <= size <= |s.buffer| ==> r.Return? && r.after.wire == s.wire
  {
    if Find(s.buffer, sep).Some? || (size >= 0 && |s.buffer| >= size) then
      CutLine(s, size, sep)
    else
      match Pull(s)
      case Throw(e, s1) => Throw(e, s1)
      case Return(f, s1) =>
        if f.code == CLOSED then
          assert ReadFrame("") == Got(Frame(Plain(""), CLOSED), "");
          CutLine(s1, size, sep)
        else
          ReadLine(s1, size, sep)
  }

  /**
    `read_prompt`. Pull frames until one is prompt-tagged or CLOSED, then
    hand back the whole buffer and empty it; the flag reports CLOSED.
   */
  function ReadPrompt(s: Channel): (r: Answer<(string, bool)>)
    decreases |s.wire|
    ensures r.Return? ==> r.after.buffer == ""
    ensures r.Return? ==> r.value.0 + Pending(r.after.wire) == s.buffer + Pending(s.wire)
    ensures r.Return? ==> End(r.after.wire) == End(s.wire)
    ensures r.Return? && r.value.1 ==> r.after.wire == ""
    ensures r.Throw? ==> End(s.wire) == Raise(r.error, r.after.wire) && r.after.buffer == s.buffer + Pending(s.wire)
  {
    match Pull(s)
    case Throw(e, s1) => Throw(e, s1)
    case Return(f, s1) =>
      if f.code == CLOSED || f.msg.isPrompt then
        Return((s1.buffer, f.code == CLOSED), Channel(s1.wire, ""))
      else
        ReadPrompt(s1)
  }

  /**
    Reading `w` frame after frame meets a prompt-tagged frame that is not
    CLOSED before any CLOSED frame or raise.
   */
  predicate PromptAhead(w: string)
    decreases |w|
  {
    match ReadFrame(w)
    case Raised(_, _) => false
    case Got(f, rest) => f.code != CLOSED && (f.msg.isPrompt || PromptAhead(rest))
  }

  /**
    `read_prompt` reports "closed" exactly when no prompt lies ahead: with a
    prompt ahead it returns with the flag false; without one it returns with
    the flag true if the stream ends closed, and raises otherwise.
   */
  lemma {:induction false} ReadPromptFlag(s: Channel)
    decreases |s.wire|
    ensures PromptAhead(s.wire) ==> ReadPrompt(s).Return? && !ReadPrompt(s).value.1
    ensures !PromptAhead(s.wire) ==> (ReadPrompt(s).Return? <==> End(s.wire) == Closed)
    ensures ReadPrompt(s).Return? ==> (ReadPrompt(s).value.1 <==> !PromptAhead(s.wire))
  {
    match ReadFrame(s.wire)
    case Raised(_, _) =>
    case Got(f, rest) =>
      if f.code != CLOSED && !f.msg.isPrompt {
        ReadPromptFlag(Channel(rest, s.buffer + f.msg.text));
      }
  }

  /** What a send produced: the count `write` returns and the bytes that went out. */
  datatype Sent = Sent(count: nat, bytes: string)

  /**
    `write(msg)`: a prompt-tagged text goes out with code 1, anything else
    with code 0; on success the count is the number of characters of the
    text, and on a failed send it is 0 and nothing is sent.
   */
  function Write(m: TaggedText, sendOk: bool): (r: Sent)
    ensures sendOk ==> r.count == |m.text| && ReadFrame(r.bytes) == Got(Frame(m, CodeOf(m)), "")
    ensures sendOk ==> |r.bytes| >= |m.text| + 4
    ensures !sendOk ==> r.count == 0 && r.bytes == ""
  {
    if sendOk then
      TaggedRoundTrip(m, "");
      assert FormatMsg(m.text, CodeOf(m)) + "" == FormatMsg(m.text, CodeOf(m));
      Sent(|m.text|, FormatMsg(m.text, CodeOf(m)))
    else
      Sent(0, "")
  }

  /**
    `raise_eoferror`: send an empty code-2 message, which the peer's next
    read turns into EOFError; report whether the send succeeded.
   */
  function SendEof(sendOk: bool): (r: (bool, string))
    ensures r.0 == sendOk
    ensures sendOk ==> r.1 == "0|2|" && ReadFrame(r.1) == Raised(EofError, "")
    ensures !sendOk ==> r.1 == ""
  {
    if sendOk then
      FrameRoundTrip("", EOFERROR, "");
      assert FormatMsg("", EOFERROR) + "" == FormatMsg("", EOFERROR);
      (true, FormatMsg("", EOFERROR))
    else
      (false, "")
  }
}
