/**
  The session logic around the transport: `listen` / `unlisten`, which swap
  the SIGUSR1 handler of the debugged process; the prompt tagging done when
  a `PdbServer` is built; and the two client commands `send_and_recv` and
  `raise_eoferror`.

  The signal table is one cell: the handler currently installed for SIGUSR1.
 */
module Session {
  import opened Codec
  import opened Transport
  import opened Streams

  /**
    What `signal.getsignal(SIGUSR1)` can return: the default action, the
    ignore action, some other callable (or None), or a `PdbServer`.
   */
  datatype Handler = Default | Ignored | Foreign(id: nat) | Server(server: PdbServer)

  /** The state of a `PdbServer` the model needs: the handler it replaced, its port and its prompt. */
  datatype PdbServer = PdbServer(oldHandler: Handler, port: nat, prompt: TaggedText)

  /**
    `PdbServer.__init__`: remember the handler being replaced, and turn the
    prompt inherited from `pdb.Pdb` into a prompt-tagged string.
   */
  function NewServer(previous: Handler, port: nat, basePrompt: string): (srv: PdbServer)
    ensures srv.oldHandler == previous && srv.port == port
    ensures srv.prompt.text == basePrompt && srv.prompt.isPrompt
  {
    PdbServer(previous, port, TaggedText(basePrompt, true))
  }

  /** The exceptions `listen` and `unlisten` can end with. */
  datatype Failure = BindError | AttributeError | NameError

  /** The handler cell after a call, and whether the call raised. */
  datatype Outcome = Done(handler: Handler) | Failed(error: Failure, handler: Handler)

  /**
    `listen(port)`: build a server that remembers the current handler and
    install it. When binding the port fails, the constructor raises and the
    handler is left as it was.
   */
  function Listen(h: Handler, port: nat, basePrompt: string, bindOk: bool): (r: Outcome)
    ensures r.Done? <==> bindOk
    ensures r.Done? ==> r.handler.Server? && r.handler.server.oldHandler == h && r.handler.server.port == port
    ensures r.Done? ==> r.handler.server.prompt == TaggedText(basePrompt, true)
    ensures r.Failed? ==> r.error == BindError && r.handler == h
  {
    if bindOk then Done(Server(NewServer(h, port, basePrompt))) else Failed(BindError, h)
  }

  /**
    `listen(port)` as the package writes it: the constructor call passes
    `args` and `kwargs`, which are not defined in that function, so the call
    raises NameError before any server is built and the handler stays.
   */
  function ListenAsWritten(h: Handler, port: nat, basePrompt: string, bindOk: bool): (r: Outcome)
    ensures r.Failed? && r.handler == h
  {
    Failed(NameError, h)
  }

  /** The package's `listen` never installs a server, where the intended one does. */
  lemma ListenAsWrittenInstallsNothing(h: Handler, port: nat, basePrompt: string)
    ensures ListenAsWritten(h, port, basePrompt, true).error == NameError
    ensures ListenAsWritten(h, port, basePrompt, true).handler != Listen(h, port, basePrompt, true).handler
  {
    StackDiscipline(h, port, basePrompt);
  }

  /**
    `unlisten()` with the evidently intended behaviour: when the current
    handler is a server, put back the handler it replaced; otherwise do
    nothing.
   */
  function Unlisten(h: Handler): (r: Handler)
    ensures h.Server? ==> r == h.server.oldHandler
    ensures !h.Server? ==> r == h
  {
    match h
    case Server(srv) => srv.oldHandler
    case _ => h
  }

  /**
    `unlisten()` as written: it calls `close()` on the server before
    restoring the old handler, and a `PdbServer` has no `close` method, so
    the call raises AttributeError and the server stays installed.
   */
  function UnlistenAsWritten(h: Handler): (r: Outcome)
    ensures h.Server? ==> r == Failed(AttributeError, h)
    ensures !h.Server? ==> r == Done(h)
  {
    match h
    case Server(_) => Failed(AttributeError, h)
    case _ => Done(h)
  }

  /** After `listen` then `unlisten`, the installed handler is exactly the one found before `listen`. */
  lemma ListenThenUnlisten(h: Handler, port: nat, basePrompt: string)
    ensures Listen(h, port, basePrompt, true).Done?
    ensures Unlisten(Listen(h, port, basePrompt, true).handler) == h
  {
  }

  /** `unlisten` without a server installed, for instance a second `unlisten`, changes nothing. */
  lemma UnlistenIdle(h: Handler)
    requires !h.Server?
    ensures Unlisten(h) == h && UnlistenAsWritten(h) == Done(h)
  {
  }

  /** The handler below every stacked server: the one in place before the first `listen`. */
  function Bottom(h: Handler): (r: Handler)
    ensures !r.Server?
    ensures !h.Server? ==> r == h
  {
    match h
    case Server(srv) => Bottom(srv.oldHandler)
    case _ => h
  }

  /** How many servers are stacked on top of each other. */
  function Depth(h: Handler): nat {
    match h
    case Server(srv) => 1 + Depth(srv.oldHandler)
    case _ => 0
  }

  /** `listen` stacks one server and `unlisten` removes one; neither loses the handler underneath. */
  lemma StackDiscipline(h: Handler, port: nat, basePrompt: string)
    ensures Bottom(Listen(h, port, basePrompt, true).handler) == Bottom(h)
    ensures Depth(Listen(h, port, basePrompt, true).handler) == Depth(h) + 1
    ensures Bottom(Unlisten(h)) == Bottom(h)
    ensures Depth(Unlisten(h)) == if Depth(h) == 0 then 0 else Depth(h) - 1
  {
  }

  /** `unlisten` called `k` times. */
  function UnlistenTimes(h: Handler, k: nat): Handler {
    if k == 0 then h else UnlistenTimes(Unlisten(h), k - 1)
  }

  /** As many `unlisten` calls as there were `listen` calls restore the original handler. */
  lemma {:induction false} UnlistenAll(h: Handler)
    ensures UnlistenTimes(h, Depth(h)) == Bottom(h)
    decreases Depth(h)
  {
    if h.Server? {
      UnlistenAll(h.server.oldHandler);
    }
  }

  /** Two `listen` calls undone by two `unlisten` calls restore the original handler. */
  lemma NestedListen(h: Handler, port1: nat, port2: nat, basePrompt: string)
    ensures var h1 := Listen(h, port1, basePrompt, true).handler;
            var h2 := Listen(h1, port2, basePrompt, true).handler;
            Unlisten(h2) == h1 && Unlisten(Unlisten(h2)) == h
  {
  }

  /**
    The `unlisten` as written never restores anything: right after a
    successful `listen` it raises AttributeError and the server, not the
    old handler, is still installed.
   */
  lemma UnlistenAsWrittenKeepsServer(h: Handler, port: nat, basePrompt: string)
    ensures var installed := Listen(h, port, basePrompt, true).handler;
            UnlistenAsWritten(installed) == Failed(AttributeError, installed) && installed != h
  {
    StackDiscipline(h, port, basePrompt);
  }

  /** The server's prompt goes on the wire as a code-1 frame and is read back as a prompt. */
  lemma ServerPromptFrame(srv: PdbServer)
    requires srv.prompt.isPrompt
    ensures Write(srv.prompt, true).bytes == FormatMsg(srv.prompt.text, PROMPT)
    ensures ReadFrame(Write(srv.prompt, true).bytes) == Got(Frame(srv.prompt, PROMPT), "")
  {
  }

  /**
    After any number of plain outputs, the server's prompt ends the
    client's `read_prompt`: the client gets its buffer, the outputs and the
    prompt, is told the connection is open, and whatever the server sends
    later stays unread.
   */
  lemma ServerPromptReachesClient(srv: PdbServer, outputs: seq<TaggedText>, later: string, buf: string)
    requires srv.prompt.isPrompt && NoPrompt(outputs)
    ensures ReadPrompt(Channel(EncodeAll(outputs) + (Write(srv.prompt, true).bytes + later), buf)) ==
              Return((buf + Texts(outputs) + srv.prompt.text, false), Channel(later, ""))
  {
    ServerPromptFrame(srv);
    ReadPromptStopsAtPrompt(outputs, srv.prompt, later, buf);
  }

  /** `cmd.endswith(sep)`. */
  predicate EndsWith(cmd: string, sep: string) {
    IsSuffix(sep, cmd)
  }

  /** The command line `send_and_recv` sends: `cmd`, with `sep` appended unless already there. */
  function Normalise(cmd: string, sep: string): (line: string)
    ensures EndsWith(line, sep)
    ensures |line| >= |cmd| && line[..|cmd|] == cmd
    ensures EndsWith(cmd, sep) <==> line == cmd
    ensures !EndsWith(cmd, sep) ==> |line| == |cmd| + |sep|
  {
    if EndsWith(cmd, sep) then cmd
    else
      assert (cmd + sep)[|cmd + sep| - |sep|..] == sep;
      cmd + sep
  }

  /** Normalising twice is normalising once. */
  lemma NormaliseIdempotent(cmd: string, sep: string)
    ensures Normalise(Normalise(cmd, sep), sep) == Normalise(cmd, sep)
  {
  }

  /** What a client command puts on the wire, and what it reads back. */
  datatype Exchange = Exchange(sent: string, reply: Answer<(string, bool)>)

  /**
    `PdbClient.send_and_recv(cmd)`: send the normalised line as an untagged
    text frame, then return what `read_prompt` returns. The result of the
    write is ignored, so a failed send still waits for the prompt.
   */
  function SendAndRecv(io: Channel, cmd: string, sep: string, sendOk: bool): (r: Exchange)
    ensures sendOk ==> ReadFrame(r.sent) == Got(Frame(Plain(Normalise(cmd, sep)), TEXT), "")
    ensures !sendOk ==> r.sent == ""
    ensures r.reply.Return? ==> r.reply.after.buffer == ""
    ensures r.reply.Return? ==> r.reply.value.0 + Pending(r.reply.after.wire) == io.buffer + Pending(io.wire)
    ensures r.reply.Throw? ==> End(io.wire) == Raise(r.reply.error, r.reply.after.wire)
    ensures r.reply.Throw? ==> r.reply.after.buffer == io.buffer + Pending(io.wire)
    ensures r.reply.Return? ==> End(r.reply.after.wire) == End(io.wire)
    ensures r.reply.Return? ==> (r.reply.value.1 <==> !PromptAhead(io.wire))
    ensures PromptAhead(io.wire) ==> r.reply.Return?
  {
    ReadPromptFlag(io);
    Exchange(Write(Plain(Normalise(cmd, sep)), sendOk).bytes, ReadPrompt(io))
  }

  /**
    `PdbClient.raise_eoferror()`: send the end-of-input frame; if that
    fails report an empty, closed reply without reading, otherwise return
    what `read_prompt` returns.
   */
  function ClientRaiseEof(io: Channel, sendOk: bool): (r: Exchange)
    ensures !sendOk ==> r == Exchange("", Return(("", true), io))
    ensures sendOk ==> r.sent == "0|2|" && ReadFrame(r.sent) == Raised(EofError, "")
    ensures sendOk && r.reply.Return? ==>
              (r.reply.after.buffer == "" && r.reply.value.0 + Pending(r.reply.after.wire) == io.buffer + Pending(io.wire))
    ensures sendOk && r.reply.Return? ==> (r.reply.value.1 <==> !PromptAhead(io.wire))
    ensures sendOk && PromptAhead(io.wire) ==> r.reply.Return?
    ensures sendOk && r.reply.Return? ==> End(r.reply.after.wire) == End(io.wire)
    ensures sendOk && r.reply.Throw? ==>
              (End(io.wire) == Raise(r.reply.error, r.reply.after.wire) && r.reply.after.buffer == io.buffer + Pending(io.wire))
  {
    ReadPromptFlag(io);
    var (ok, bytes) := SendEof(sendOk);
    if !ok then Exchange(bytes, Return(("", true), io))
    else Exchange(bytes, ReadPrompt(io))
  }

  /**
    The server's `readline()` on the bytes of a command sent by
    `send_and_recv` gets back exactly the normalised line, provided the
    line holds its first separator at its end; the rest stays unread.
   */
  lemma CommandReachesServer(cmd: string, sep: string, later: string)
    requires EndsAtFirst(Normalise(cmd, sep), sep)
    ensures var s := Channel(SendAndRecv(Channel("", ""), cmd, sep, true).sent + later, "");
            ReadLine(s, -1, sep).Return? && ReadLine(s, -1, sep).value == Normalise(cmd, sep)
  {
    var line := Normalise(cmd, sep);
    var w := SendAndRecv(Channel("", ""), cmd, sep, true).sent + later;
    var total := "" + Pending(w);
    assert w == FormatMsg(line, TEXT) + later;
    assert Pending(w) == line + Pending(later) by {
      FrameStep(Plain(line), later);
      PendingAfterFrame(w, Plain(line), later);
    }
    assert total == line + Pending(later);
    assert total[..|line|] == line;
    FindInPrefix(total, sep, |line|);
    ReadLineIsFirstLine(Channel(w, ""), sep);
  }
}
