/**
  What the read operations make of a stream built by the peer's own
  `write` calls: a run of frames, optionally followed by anything.
 */
module Streams {
  import opened Wrappers
  import opened Decimal
  import opened Codec
  import opened Transport

  /** The bytes a peer puts on the wire by writing `ms` in order, every send succeeding. */
  function EncodeAll(ms: seq<TaggedText>): string {
    if |ms| == 0 then "" else FormatMsg(ms[0].text, CodeOf(ms[0])) + EncodeAll(ms[1..])
  }

  /** The texts of `ms`, concatenated. */
  function Texts(ms: seq<TaggedText>): string {
    if |ms| == 0 then "" else ms[0].text + Texts(ms[1..])
  }

  predicate NoPrompt(ms: seq<TaggedText>) {
    forall i :: 0 <= i < |ms| ==> !ms[i].isPrompt
  }

  /** Writing `m` with a successful send puts exactly its frame on the wire. */
  lemma WriteIsFrame(m: TaggedText)
    ensures Write(m, true).bytes == EncodeAll([m])
  {
    assert EncodeAll([m]) == FormatMsg(m.text, CodeOf(m)) + EncodeAll([]);
  }

  lemma EncodeCons(ms: seq<TaggedText>, tail: string)
    requires |ms| > 0
    ensures EncodeAll(ms) + tail == FormatMsg(ms[0].text, CodeOf(ms[0])) + (EncodeAll(ms[1..]) + tail)
  {
  }

  lemma TextsCons(ms: seq<TaggedText>)
    requires |ms| > 0
    ensures Texts(ms) == ms[0].text + Texts(ms[1..])
  {
  }

  /** One written frame in front of anything is read back whole, leaving what follows. */
  lemma FrameStep(m: TaggedText, rest: string)
    ensures ReadFrame(FormatMsg(m.text, CodeOf(m)) + rest) == Got(Frame(m, CodeOf(m)), rest)
  {
    TaggedRoundTrip(m, rest);
  }

  /** Reading `w` frame after frame yields the messages `ms`, each whole, and then leaves `tail`. */
  predicate Carries(w: string, ms: seq<TaggedText>, tail: string)
    decreases |ms|
  {
    if |ms| == 0 then w == tail
    else
      match ReadFrame(w)
      case Raised(_, _) => false
      case Got(f, rest) => f == Frame(ms[0], CodeOf(ms[0])) && Carries(rest, ms[1..], tail)
  }

  /** The bytes of a run of writes carry exactly the written messages. */
  lemma {:induction false} EncodeCarries(ms: seq<TaggedText>, tail: string)
    ensures Carries(EncodeAll(ms) + tail, ms, tail)
  {
    if |ms| == 0 {
      assert EncodeAll(ms) + tail == tail by { assert EncodeAll(ms) == ""; }
    } else {
      var rest := EncodeAll(ms[1..]) + tail;
      EncodeCarries(ms[1..], tail);
      assert EncodeAll(ms) + tail == FormatMsg(ms[0].text, CodeOf(ms[0])) + rest by { EncodeCons(ms, tail); }
      FrameStep(ms[0], rest);
    }
  }

  /**
    Regrouping a concatenation. Stated once here so that the longer proofs
    below rewrite by this fact instead of reasoning about sequence equality.
   */
  lemma Assoc(a: string, b: string, c: string)
    ensures a + (b + c) == (a + b) + c
  {
  }

  /** A frame read whole, not CLOSED, puts its text in front of what the rest delivers. */
  lemma PendingAfterFrame(w: string, m: TaggedText, rest: string)
    requires ReadFrame(w) == Got(Frame(m, CodeOf(m)), rest)
    ensures Pending(w) == m.text + Pending(rest)
    ensures End(w) == End(rest)
  {
  }

  /** A carried run delivers exactly its texts, in order, and does not change how the stream ends. */
  lemma {:induction false} PendingOfCarried(w: string, ms: seq<TaggedText>, tail: string)
    requires Carries(w, ms, tail)
    decreases |ms|
    ensures Pending(w) == Texts(ms) + Pending(tail)
    ensures End(w) == End(tail)
  {
    if |ms| == 0 {
      assert Texts(ms) == "";
      assert w == tail;
      assert "" + Pending(tail) == Pending(tail);
    } else {
      var rest := ReadFrame(w).rest;
      assert ReadFrame(w) == Got(Frame(ms[0], CodeOf(ms[0])), rest);
      PendingAfterFrame(w, ms[0], rest);
      PendingOfCarried(rest, ms[1..], tail);
      TextsCons(ms);
      Assoc(ms[0].text, Texts(ms[1..]), Pending(tail));
    }
  }

  /** A run of written frames delivers exactly their texts, in order, and does not change how the stream ends. */
  lemma PendingOfFrames(ms: seq<TaggedText>, tail: string)
    ensures Pending(EncodeAll(ms) + tail) == Texts(ms) + Pending(tail)
    ensures End(EncodeAll(ms) + tail) == End(tail)
  {
    EncodeCarries(ms, tail);
    PendingOfCarried(EncodeAll(ms) + tail, ms, tail);
  }

  /** `read(-1)` on a run of written frames returns the old buffer and every text, and empties the buffer. */
  lemma ReadAllFrames(ms: seq<TaggedText>, buf: string)
    ensures Read(Channel(EncodeAll(ms), buf), -1) == Return(buf + Texts(ms), Channel("", ""))
  {
    var w := EncodeAll(ms);
    PendingOfFrames(ms, "");
    assert w + "" == w;
    EmptyStream();
    assert Pending(w) == Texts(ms) by {
      assert Texts(ms) + "" == Texts(ms);
    }
    assert End(w) == Closed;
    var r := Read(Channel(w, buf), -1);
    assert r.Return?;
    assert r.value == buf + Texts(ms);
  }

  lemma TakePrefix(v: string, b: string, p: string, total: string, n: nat)
    requires (v + b) + p == total && |v| <= n <= |total| && (|v| == n || (b == "" && p == ""))
    ensures v == total[..n]
  {
    Assoc(v, b, p);
    assert total[..|v|] == v;
  }

  /**
    `read(n)` on a stream that ends closed returns exactly the first `n`
    characters of buffer plus pending text, when that many are available.
   */
  lemma ReadAvailable(s: Channel, n: nat)
    requires End(s.wire) == Closed && n <= |s.buffer + Pending(s.wire)|
    ensures Read(s, n).Return? && Read(s, n).value == (s.buffer + Pending(s.wire))[..n]
  {
    var r := Read(s, n);
    assert r.Return?;
    if |r.value| != n {
      assert r.after == Channel("", "");
      EmptyStream();
    }
    TakePrefix(r.value, r.after.buffer, Pending(r.after.wire), s.buffer + Pending(s.wire), n);
  }

  /** `read(n)` on a run of written frames returns the first `n` characters of buffer plus texts. */
  lemma ReadExactFrames(ms: seq<TaggedText>, buf: string, n: nat)
    requires n <= |buf + Texts(ms)|
    ensures Read(Channel(EncodeAll(ms), buf), n).Return?
    ensures Read(Channel(EncodeAll(ms), buf), n).value == (buf + Texts(ms))[..n]
  {
    var w := EncodeAll(ms);
    assert Pending(w) == Texts(ms) && End(w) == Closed by {
      PendingOfFrames(ms, "");
      assert w + "" == w;
      EmptyStream();
      assert Texts(ms) + "" == Texts(ms);
    }
    ReadAvailable(Channel(w, buf), n);
  }

  /** `read_prompt` moves past a frame that is not a prompt, keeping its text in the buffer. */
  lemma ReadPromptSkips(w: string, m: TaggedText, rest: string, buf: string)
    requires ReadFrame(w) == Got(Frame(m, CodeOf(m)), rest) && !m.isPrompt
    ensures ReadPrompt(Channel(w, buf)) == ReadPrompt(Channel(rest, buf + m.text))
  {
  }

  /** Buffer `buf`, then a carried run without prompts: `read_prompt` passes all of it. */
  lemma {:induction false} ReadPromptSkipsAll(w: string, ms: seq<TaggedText>, rest: string, buf: string)
    requires Carries(w, ms, rest) && NoPrompt(ms)
    decreases |ms|
    ensures ReadPrompt(Channel(w, buf)) == ReadPrompt(Channel(rest, buf + Texts(ms)))
  {
    if |ms| == 0 {
      assert w == rest;
      assert Texts(ms) == "";
      assert buf + "" == buf;
    } else {
      var w1 := ReadFrame(w).rest;
      assert ReadFrame(w) == Got(Frame(ms[0], CodeOf(ms[0])), w1);
      assert !ms[0].isPrompt;
      ReadPromptSkips(w, ms[0], w1, buf);
      ReadPromptSkipsAll(w1, ms[1..], rest, buf + ms[0].text);
      TextsCons(ms);
      Assoc(buf, ms[0].text, Texts(ms[1..]));
    }
  }

  /** The same, for the bytes of a run of writes. */
  lemma ReadPromptSkipsFrames(ms: seq<TaggedText>, rest: string, buf: string)
    requires NoPrompt(ms)
    ensures ReadPrompt(Channel(EncodeAll(ms) + rest, buf)) == ReadPrompt(Channel(rest, buf + Texts(ms)))
  {
    EncodeCarries(ms, rest);
    ReadPromptSkipsAll(EncodeAll(ms) + rest, ms, rest, buf);
  }

  /**
    `read_prompt` stops at the first prompt-tagged frame: it returns the old
    buffer, every earlier text and the prompt, reports not closed, and
    leaves whatever follows the prompt unread.
   */
  lemma ReadPromptStopsAtPrompt(ms: seq<TaggedText>, p: TaggedText, tail: string, buf: string)
    requires NoPrompt(ms) && p.isPrompt
    ensures ReadPrompt(Channel(EncodeAll(ms) + (FormatMsg(p.text, PROMPT) + tail), buf)) ==
              Return((buf + Texts(ms) + p.text, false), Channel(tail, ""))
  {
    ReadPromptSkipsFrames(ms, FormatMsg(p.text, PROMPT) + tail, buf);
    FrameStep(p, tail);
  }

  /** Without a prompt, `read_prompt` takes everything up to the end of the stream and reports closed. */
  lemma ReadPromptUntilClosed(ms: seq<TaggedText>, buf: string)
    requires NoPrompt(ms)
    ensures ReadPrompt(Channel(EncodeAll(ms), buf)) == Return((buf + Texts(ms), true), Channel("", ""))
  {
    ReadPromptSkipsFrames(ms, "", buf);
    assert EncodeAll(ms) + "" == EncodeAll(ms);
    ReadPromptAtEnd(buf + Texts(ms));
  }

  /** On a finished stream `read_prompt` returns the buffer and reports closed. */
  lemma ReadPromptAtEnd(buf: string)
    ensures ReadPrompt(Channel("", buf)) == Return((buf, true), Channel("", ""))
  {
    assert ReadFrame("") == Got(Frame(Plain(""), CLOSED), "");
    assert buf + "" == buf;
  }

  /**
    A frame cut short by the end of the stream still ends `read_prompt`
    as closed, and its partial text is kept in the result.
   */
  lemma ReadPromptShortPayload(ms: seq<TaggedText>, size: nat, code: nat, partial: string, buf: string)
    requires NoPrompt(ms) && |partial| < size && code != EOFERROR
    ensures ReadPrompt(Channel(EncodeAll(ms) + (Header(size, code) + partial), buf)) ==
              Return((buf + Texts(ms) + partial, true), Channel("", ""))
  {
    ReadPromptSkipsFrames(ms, Header(size, code) + partial, buf);
    ShortPayload(size, code, partial);
  }

  /**
    The peer's end-of-input signal makes `read_prompt` raise EOFError: the
    texts before it are left in the buffer and what follows it stays unread.
   */
  lemma ReadPromptRaisesAtEof(ms: seq<TaggedText>, tail: string, buf: string)
    requires NoPrompt(ms)
    ensures ReadPrompt(Channel(EncodeAll(ms) + (SendEof(true).1 + tail), buf)) ==
              Throw(EofError, Channel(tail, buf + Texts(ms)))
  {
    ReadPromptSkipsFrames(ms, SendEof(true).1 + tail, buf);
    assert SendEof(true).1 == Header(0, EOFERROR);
    EofHeaderRaises(0, tail);
  }

  /** A prefix that ends at its own first separator, or is everything, is the first line of the whole. */
  lemma FirstLine(v: string, rest: string, total: string, sep: string)
    requires v + rest == total
    requires EndsAtFirst(v, sep) || rest == ""
    requires Find(v, sep).Some? ==> EndsAtFirst(v, sep)
    ensures Find(total, sep).Some? ==> v == total[..Find(total, sep).value + |sep|]
    ensures Find(total, sep).None? ==> v == total
  {
    assert total[..|v|] == v;
    FindInPrefix(total, sep, |v|);
  }

  /** What `readline()` promises, read off an answer whose details are forgotten. */
  lemma LineOfAnswer(r: Answer<string>, b: string, p: string, total: string, sep: string)
    requires r.Return? ==> (r.value + b) + p == total && (EndsAtFirst(r.value, sep) || (b == "" && p == ""))
    requires r.Return? ==> (Find(r.value, sep).Some? ==> EndsAtFirst(r.value, sep))
    requires r.Throw? ==> Find(total, sep).None?
    ensures Find(total, sep).Some? ==> r.Return? && r.value == total[..Find(total, sep).value + |sep|]
    ensures Find(total, sep).None? && r.Return? ==> r.value == total
  {
    if r.Return? {
      Assoc(r.value, b, p);
      FirstLine(r.value, b + p, total, sep);
    }
  }

  /**
    `readline()` with no size limit returns exactly the available text up
    to and including its first separator.
   */
  lemma ReadLineIsFirstLine(s: Channel, sep: string)
    requires Find(s.buffer + Pending(s.wire), sep).Some?
    ensures ReadLine(s, -1, sep).Return?
    ensures ReadLine(s, -1, sep).value ==
              (s.buffer + Pending(s.wire))[..Find(s.buffer + Pending(s.wire), sep).value + |sep|]
  {
    var r := ReadLine(s, -1, sep);
    if r.Return? && !EndsAtFirst(r.value, sep) {
      assert r.after == Channel("", "");
      EmptyStream();
    }
    LineOfAnswer(r, r.after.buffer, Pending(r.after.wire), s.buffer + Pending(s.wire), sep);
  }

  /** Without a separator, `readline()` returns everything once the stream has closed. */
  lemma ReadLineAtClose(s: Channel, sep: string)
    requires Find(s.buffer + Pending(s.wire), sep).None? && End(s.wire) == Closed
    ensures ReadLine(s, -1, sep) == Return(s.buffer + Pending(s.wire), Channel("", ""))
  {
    var r := ReadLine(s, -1, sep);
    if r.Return? && !EndsAtFirst(r.value, sep) {
      assert r.after == Channel("", "");
      EmptyStream();
    }
    LineOfAnswer(r, r.after.buffer, Pending(r.after.wire), s.buffer + Pending(s.wire), sep);
    assert r.Return? && !EndsAtFirst(r.value, sep);
  }
}
