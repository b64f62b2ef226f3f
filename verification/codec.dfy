/**
  The wire format of one message, `<len>|<code>|<text>`, and the receiver's
  `_read`, which turns the front of the incoming byte stream into one
  (tagged text, return code) pair, or raises.
 */
module Codec {
  import opened Wrappers
  import opened Decimal

  /** Return code of a read that met the end of the stream. */
  const CLOSED: int := -1
  /** Header codes. */
  const TEXT: nat := 0
  const PROMPT: nat := 1
  const EOFERROR: nat := 2

  /** A string carrying the one-bit "this is the prompt" tag (`PdbStr`). */
  datatype TaggedText = TaggedText(text: string, isPrompt: bool)

  /** A plain `str` written or received without the tag. */
  function Plain(s: string): TaggedText {
    TaggedText(s, false)
  }

  /** The header code `write` chooses for a message. */
  function CodeOf(m: TaggedText): nat {
    if m.isPrompt then PROMPT else TEXT
  }

  /** What one `_read` returns: the received text and the return code. */
  datatype Frame = Frame(msg: TaggedText, code: int)

  /** The exceptions `_read` raises: EOFError for code 2, ValueError for a non-numeric field. */
  datatype Error = EofError | ValueError

  /** Outcome of `_read` together with the part of the stream it left unread. */
  datatype Decoded = Got(frame: Frame, rest: string) | Raised(error: Error, rest: string)

  predicate IsSuffix(a: string, b: string) {
    |a| <= |b| && b[|b| - |a|..] == a
  }

  function Header(size: nat, code: nat): string {
    NatToDecimal(size) + "|" + NatToDecimal(code) + "|"
  }

  /** `_format_msg`: the bytes that carry `msg` with header code `code`. */
  function FormatMsg(msg: string, code: nat): string {
    Header(|msg|, code) + msg
  }

  /** The header loop's view of the stream: everything up to the first `|`, and what follows it. */
  function SplitAtBar(w: string): Option<(string, string)> {
    if |w| == 0 then None
    else if w[0] == '|' then Some(("", w[1..]))
    else match SplitAtBar(w[1..])
      case None => None
      case Some(p) => Some(([w[0]] + p.0, p.1))
  }

  /** The split is at the first `|`, and there is none only when the stream holds none. */
  lemma {:induction false} SplitAtBarFacts(w: string)
    ensures SplitAtBar(w).None? ==> '|' !in w
    ensures SplitAtBar(w).Some? ==>
              '|' !in SplitAtBar(w).value.0 && w == SplitAtBar(w).value.0 + "|" + SplitAtBar(w).value.1
  {
    if |w| > 0 && w[0] != '|' {
      SplitAtBarFacts(w[1..]);
      assert w == [w[0]] + w[1..];
      if SplitAtBar(w[1..]).None? {
        assert forall c :: c in w ==> c == w[0] || c in w[1..];
      }
    }
  }

  /**
    The header loop of `_read`: the two fields before the first two `|` and
    the stream after them, or None when the stream ends before two `|`.
   */
  function ScanHeader(w: string): Option<(string, string, string)> {
    match SplitAtBar(w)
    case None => None
    case Some(p1) =>
      match SplitAtBar(p1.1)
      case None => None
      case Some(p2) => Some((p1.0, p2.0, p2.1))
  }

  /** The header loop stops only after two `|`, and the fields it returns hold none. */
  lemma ScanHeaderFacts(w: string)
    ensures ScanHeader(w).None? ==> multiset(w)['|'] < 2
    ensures ScanHeader(w).Some? ==>
              var h := ScanHeader(w).value;
              '|' !in h.0 && '|' !in h.1 && w == h.0 + "|" + (h.1 + "|" + h.2)
  {
    SplitAtBarFacts(w);
    if SplitAtBar(w).Some? {
      var p1 := SplitAtBar(w).value;
      SplitAtBarFacts(p1.1);
      assert multiset(w) == multiset(p1.0) + multiset("|") + multiset(p1.1);
      if SplitAtBar(p1.1).Some? {
        var p2 := SplitAtBar(p1.1).value;
        assert w == p1.0 + "|" + (p2.0 + "|" + p2.1);
      }
    } else {
      assert multiset(w)['|'] == 0;
    }
  }

  /** The part of `_read` after the header: parse both fields, then take the payload. */
  function DecodeFrame(sizeField: string, codeField: string, rest: string): (r: Decoded)
    ensures r.Got? ==> |r.frame.msg.text| + |r.rest| <= |rest|
    ensures r.Got? && r.frame.code == CLOSED ==> r.rest == ""
    ensures r.Got? && r.frame.code != CLOSED ==>
              |sizeField| > 0 && |codeField| > 0 && r.frame.code >= 0 && r.frame.code != EOFERROR
    ensures r.Got? && r.frame.msg.isPrompt ==> r.frame.code == PROMPT || r.frame.code == CLOSED
    ensures r.Raised? ==> r.rest == rest
    ensures r.Raised? && r.error == EofError ==> |sizeField| > 0 && |codeField| > 0
    ensures (ParseDecimal(sizeField).None? || ParseDecimal(codeField).None?) <==> r == Raised(ValueError, rest)
    ensures ParseDecimal(sizeField).Some? && ParseDecimal(codeField) == Some(EOFERROR) ==> r == Raised(EofError, rest)
    ensures r.Got? ==> (r.frame.code == CLOSED <==> ParseDecimal(sizeField).value > |rest|)
    ensures r.Got? ==> (r.frame.msg.isPrompt <==> ParseDecimal(codeField) == Some(PROMPT))
  {
    match (ParseDecimal(sizeField), ParseDecimal(codeField))
    case (Some(size), Some(code)) =>
      if code == EOFERROR then Raised(EofError, rest)
      else
        var n := if size <= |rest| then size else |rest|;
        Got(Frame(TaggedText(rest[..n], code == PROMPT), if n == size then code else CLOSED), rest[n..])
    case _ => Raised(ValueError, rest)
  }

  /** The payload is taken from the front of what follows the header. */
  lemma DecodeConsumesPrefix(sizeField: string, codeField: string, rest: string)
    ensures DecodeFrame(sizeField, codeField, rest).Got? ==>
              DecodeFrame(sizeField, codeField, rest).frame.msg.text + DecodeFrame(sizeField, codeField, rest).rest == rest
  {
    var r := DecodeFrame(sizeField, codeField, rest);
    if r.Got? {
      var n := |r.frame.msg.text|;
      assert rest[..n] + rest[n..] == rest;
    }
  }

  lemma SuffixOfTail(x: string, a: string, rest: string)
    requires IsSuffix(x, rest)
    ensures IsSuffix(x, a + rest)
  {
    assert (a + rest)[|a + rest| - |x|..] == rest[|rest| - |x|..];
  }

  /**
    `_read`. The header is read one character at a time until two `|` have
    been seen; if the stream ends first, every remaining character has been
    consumed and the result is empty untagged text with code CLOSED. Code 2
    raises before any payload is read. Otherwise up to `size` payload
    characters are taken; fewer than `size` turns the code into CLOSED while
    the partial text, and its prompt tag, are still returned.
   */
  function ReadFrame(w: string): (r: Decoded)
    ensures r.Got? && r.frame.code == CLOSED ==> r.rest == ""
    ensures r.Got? && r.frame.code != CLOSED ==>
              r.frame.code >= 0 && r.frame.code != EOFERROR && |r.frame.msg.text| + |r.rest| + 4 <= |w|
    ensures r.Got? && r.frame.msg.isPrompt ==> r.frame.code == PROMPT || r.frame.code == CLOSED
    ensures r.Raised? ==> |r.rest| + 2 <= |w|
    ensures r.Raised? && r.error == EofError ==> |r.rest| + 4 <= |w|
  {
    match ScanHeader(w)
    case None => Got(Frame(Plain(""), CLOSED), "")
    case Some(h) =>
      ScanHeaderFacts(w);
      HeaderLength(w, h.0, h.1, h.2);
      DecodeFrame(h.0, h.1, h.2)
  }

  lemma HeaderLength(w: string, a: string, b: string, rest: string)
    requires w == a + "|" + (b + "|" + rest)
    ensures |w| == |a| + |b| + 2 + |rest|
  {
  }

  lemma BarCount(w: string, a: string, b: string, rest: string)
    requires w == a + "|" + (b + "|" + rest)
    ensures multiset(w)['|'] >= 2
  {
    assert multiset(w) == multiset(a) + multiset("|") + multiset(b) + multiset("|") + multiset(rest);
  }

  /** The stream ending before two `|` have been read yields empty untagged text and CLOSED. */
  lemma HeaderCutShort(w: string)
    requires multiset(w)['|'] < 2
    ensures ReadFrame(w) == Got(Frame(Plain(""), CLOSED), "")
  {
    ScanHeaderFacts(w);
    if ScanHeader(w).Some? {
      var h := ScanHeader(w).value;
      BarCount(w, h.0, h.1, h.2);
    }
  }

  lemma SuffixAfterHeader(w: string, a: string, b: string, rest: string, x: string)
    requires w == a + "|" + (b + "|" + rest) && IsSuffix(x, rest)
    ensures IsSuffix(x, w)
  {
    assert w == (a + "|" + b + "|") + rest;
    SuffixOfTail(x, a + "|" + b + "|", rest);
  }

  /** `_read` consumes the stream from the front: the text it returns and what it leaves are a suffix. */
  lemma ReadFrameConsumesPrefix(w: string)
    ensures ReadFrame(w).Got? ==> IsSuffix(ReadFrame(w).frame.msg.text + ReadFrame(w).rest, w)
    ensures ReadFrame(w).Raised? ==> IsSuffix(ReadFrame(w).rest, w)
  {
    ScanHeaderFacts(w);
    match ScanHeader(w)
    case None =>
      assert ReadFrame(w).frame.msg.text + ReadFrame(w).rest == "";
      assert w[|w| - 0..] == "";
    case Some(h) =>
      var r := DecodeFrame(h.0, h.1, h.2);
      assert ReadFrame(w) == r;
      DecodeConsumesPrefix(h.0, h.1, h.2);
      assert IsSuffix(h.2, h.2) by { assert h.2[|h.2| - |h.2|..] == h.2; }
      if r.Got? {
        SuffixAfterHeader(w, h.0, h.1, h.2, r.frame.msg.text + r.rest);
      } else {
        SuffixAfterHeader(w, h.0, h.1, h.2, r.rest);
      }
  }

  lemma {:induction false} SplitAtFirstBar(a: string, b: string)
    requires '|' !in a
    ensures SplitAtBar(a + "|" + b) == Some((a, b))
  {
    if |a| > 0 {
      assert (a + "|" + b)[1..] == a[1..] + "|" + b;
      SplitAtFirstBar(a[1..], b);
      assert [a[0]] + a[1..] == a;
    }
  }

  /** Two bar-free fields, each followed by `|`, are exactly what the header loop reads. */
  lemma ScanTwoFields(a: string, b: string, after: string, w: string)
    requires '|' !in a && '|' !in b && w == a + "|" + b + "|" + after
    ensures ScanHeader(w) == Some((a, b, after))
  {
    var t := b + "|" + after;
    assert w == a + "|" + t;
    SplitAtFirstBar(a, t);
    SplitAtFirstBar(b, after);
  }

  lemma ScanFormattedHeader(size: nat, code: nat, after: string)
    ensures ReadFrame(Header(size, code) + after) == DecodeFrame(NatToDecimal(size), NatToDecimal(code), after)
  {
    ScanTwoFields(NatToDecimal(size), NatToDecimal(code), after, Header(size, code) + after);
  }

  /** Reading a header from the front of the stream, whatever follows it. */
  lemma ReadHeader(size: nat, code: nat, after: string)
    ensures ReadFrame(Header(size, code) + after) ==
              if code == EOFERROR then Raised(EofError, after)
              else if size <= |after| then Got(Frame(TaggedText(after[..size], code == PROMPT), code), after[size..])
              else Got(Frame(TaggedText(after, code == PROMPT), CLOSED), "")
  {
    ScanFormattedHeader(size, code, after);
    DecimalRoundTrip(size);
    DecimalRoundTrip(code);
    if size > |after| {
      assert after[..|after|] == after;
    }
  }

  /**
    Round trip: the receiver decodes a formatted message, followed by
    anything, as the same text with its code, the prompt tag set exactly for
    code 1, and leaves what follows unread; code 2 raises EOFError and leaves
    the payload unread.
   */
  lemma FrameRoundTrip(msg: string, code: nat, tail: string)
    ensures ReadFrame(FormatMsg(msg, code) + tail) ==
              if code == EOFERROR then Raised(EofError, msg + tail)
              else Got(Frame(TaggedText(msg, code == PROMPT), code), tail)
  {
    assert FormatMsg(msg, code) + tail == Header(|msg|, code) + (msg + tail);
    ReadHeader(|msg|, code, msg + tail);
    assert (msg + tail)[..|msg|] == msg;
    assert (msg + tail)[|msg|..] == tail;
  }

  /** A text written with tag `m.isPrompt` is read back with the same text and tag. */
  lemma TaggedRoundTrip(m: TaggedText, tail: string)
    ensures ReadFrame(FormatMsg(m.text, CodeOf(m)) + tail) == Got(Frame(m, CodeOf(m)), tail)
  {
    FrameRoundTrip(m.text, CodeOf(m), tail);
  }

  /**
    Short payload: when the stream ends before `size` payload characters,
    the partial text is returned with code CLOSED, still tagged by the header code.
   */
  lemma ShortPayload(size: nat, code: nat, partial: string)
    requires |partial| < size && code != EOFERROR
    ensures ReadFrame(Header(size, code) + partial) == Got(Frame(TaggedText(partial, code == PROMPT), CLOSED), "")
  {
    ReadHeader(size, code, partial);
  }

  /** A code-2 header raises EOFError and no payload character is consumed. */
  lemma EofHeaderRaises(size: nat, after: string)
    ensures ReadFrame(Header(size, EOFERROR) + after) == Raised(EofError, after)
  {
    ReadHeader(size, EOFERROR, after);
  }
}
