// Whole runs of one RedisProtocol: transaction_mode_, the bytes sent, and framing.
module History {
  import opened Wire
  import opened Os
  import opened Resp
  import opened Request
  import opened ReplyTheory
  import opened RoundTrip
  import opened Streaming
  import opened Links
  import opened Pipeline

  // What can happen to a protocol object; exec_command and exec_pipeline are made of these.
  datatype Op =
    | OWrite(c: Cmd, w: Written)         // write_command
    | ORead(info: CommandInfo)           // read_reply
    | OClose
    | OFail                              // close, with an error of the client's own
    | OConnect(stream: Option<Bytes>)    // None: the attempt failed

  function Step(l: Link, op: Op): Link {
    match op
    case OWrite(c, w) => WriteSpec(l, c, w).link
    case ORead(info) => ReadSpec(l, info, NoOutput).link
    case OClose => Link(false, [], [], false, l.error)
    case OFail => CLOSED_LINK
    case OConnect(s) => if s.None? then CLOSED_LINK else Link(true, s.value, [], l.tx, l.error)
  }

  function Run(l: Link, ops: seq<Op>): Link
    decreases |ops|
  {
    if ops == [] then l else Run(Step(l, ops[0]), ops[1..])
  }

  /** exec_command is a run of these operations. */
  lemma ExecIsRun(l: Link, c: Cmd, out: Output, w: Written)
    ensures ExecSpec(l, c, out, w).link
         == Run(l, if WriteSpec(l, c, w).ok then [OWrite(c, w), ORead(c.info)] else [OWrite(c, w)])
  {
    hide ReadReply, WriteSpec;
    var m := Step(l, OWrite(c, w));
    var ops := [OWrite(c, w), ORead(c.info)];
    assert ops[1..] == [ORead(c.info)];
    assert Run(m, [ORead(c.info)]) == Run(Step(m, ORead(c.info)), []);
    assert Run(l, [OWrite(c, w)]) == Run(m, []);
  }

  lemma {:induction false} RunConcat(l: Link, a: seq<Op>, b: seq<Op>)
    ensures Run(l, a + b) == Run(Run(l, a), b)
    decreases |a|
  {
    hide Step;
    if a == [] {
      assert a + b == b;
    } else {
      assert (a + b)[1..] == a[1..] + b;
      RunConcat(Step(l, a[0]), a[1..], b);
    }
  }

  /** The operations of the writing half of a pipeline. */
  function WriteOps(l: Link, cmds: seq<Cmd>, ws: seq<Written>, alive: seq<bool>): seq<Op>
    requires |ws| == |alive| == |cmds|
    decreases |cmds|
  {
    if cmds == [] then []
    else
      var r := WriteSpec(l, cmds[0], ws[0]);
      [OWrite(cmds[0], ws[0])] +
      if !r.ok then [] else if !(r.link.open && alive[0]) then [OFail]
      else WriteOps(r.link, cmds[1..], ws[1..], alive[1..])
  }

  /** The operations of the reading half. */
  function ReadOps(l: Link, cmds: seq<Cmd>, alive: seq<bool>): seq<Op>
    requires |alive| == |cmds|
    decreases |cmds|
  {
    if cmds == [] then []
    else
      var r := ReadSpec(l, cmds[0].info, NoOutput);
      [ORead(cmds[0].info)] +
      if !r.ok then [] else if !(r.link.open && alive[0]) then [OFail]
      else ReadOps(r.link, cmds[1..], alive[1..])
  }

  lemma RunOne(l: Link, op: Op, ops: seq<Op>)
    ensures Run(l, [op] + ops) == Run(Step(l, op), ops)
  {
    assert ([op] + ops)[1..] == ops;
  }

  lemma RunFail(l: Link)
    ensures Run(l, []) == l && Run(l, [OFail]) == CLOSED_LINK
  {
    assert Run(l, [OFail]) == Run(Step(l, OFail), []);
  }

  lemma {:induction false} WritesAreRun(l: Link, cmds: seq<Cmd>, outs: seq<Output>, ws: seq<Written>, alive: seq<bool>)
    requires |outs| == |ws| == |alive| == |cmds|
    ensures WritesSpec(l, cmds, outs, ws, alive).link == Run(l, WriteOps(l, cmds, ws, alive))
    decreases |cmds|
  {
    hide WriteSpec, Run;
    RunFail(l);
    if cmds != [] {
      var m := Step(l, OWrite(cmds[0], ws[0]));
      RunFail(m);
      RunOne(l, OWrite(cmds[0], ws[0]), WriteOps(l, cmds, ws, alive)[1..]);
      WritesAreRun(m, cmds[1..], outs[1..], ws[1..], alive[1..]);
    }
  }

  lemma {:induction false} ReadsAreRun(l: Link, cmds: seq<Cmd>, outs: seq<Output>, alive: seq<bool>)
    requires |outs| == |alive| == |cmds|
    ensures ReadsSpec(l, cmds, outs, alive).link == Run(l, ReadOps(l, cmds, alive))
    decreases |cmds|
  {
    hide ReadReply, Run;
    RunFail(l);
    if cmds != [] {
      var m := Step(l, ORead(cmds[0].info));
      RunFail(m);
      RunOne(l, ORead(cmds[0].info), ReadOps(l, cmds, alive)[1..]);
      ReadsAreRun(m, cmds[1..], outs[1..], alive[1..]);
    }
  }

  /** exec_pipeline is a run of them as well. */
  lemma PipelineIsRun(l: Link, p: Pipe)
    ensures var n, w := |p.cmds|, PipeWrites(l, p);
      PipeSpec(l, p).link == Run(l, WriteOps(l, p.cmds, p.ws, p.alive[..n])
                                    + if w.ok then ReadOps(w.link, p.cmds, p.alive[n..]) else [])
  {
    hide WritesSpec, ReadsSpec, WriteOps, ReadOps, Run;
    var n, w := |p.cmds|, PipeWrites(l, p);
    WritesAreRun(l, p.cmds, p.outs, p.ws, p.alive[..n]);
    var ops := WriteOps(l, p.cmds, p.ws, p.alive[..n]);
    if w.ok {
      ReadsAreRun(w.link, p.cmds, w.outs, p.alive[n..]);
      RunConcat(l, ops, ReadOps(w.link, p.cmds, p.alive[n..]));
    } else {
      assert ops + [] == ops;
    }
  }

  // ---------- transaction_mode_ ----------

  datatype Event = MultiOk | DiscardOk | ExecArray | ProtocolClosed

  /** The event an operation amounts to, if any, told from the reply alone. */
  function EventOf(l: Link, op: Op): Option<Event> {
    match op
    case OWrite(c, w) => if c.CountOk() && w == Lost(true) then Some(ProtocolClosed) else None
    case OClose => Some(ProtocolClosed)
    case OFail => Some(ProtocolClosed)
    case OConnect(s) => if s.None? then Some(ProtocolClosed) else None
    case ORead(info) =>
      var p := ReadReply(info, true, true, l.tx, l.unread);
      if p.Closed? then Some(ProtocolClosed)
      else if p.Done? && p.out.Status? && info.verb.Multi? then Some(MultiOk)
      else if p.Done? && p.out.Status? && info.verb.Discard? then Some(DiscardOk)
      else if p.Done? && (p.out.SMBulk? || p.out.NilSMBulk?) && info.verb.Exec? then Some(ExecArray)
      else None
  }

  /** The latest event of a run, or 'last' when it has none. */
  function Latest(l: Link, ops: seq<Op>, last: Option<Event>): Option<Event>
    decreases |ops|
  {
    if ops == [] then last
    else
      var e := EventOf(l, ops[0]);
      Latest(Step(l, ops[0]), ops[1..], if e.Some? then e else last)
  }

  predicate TableOps(ops: seq<Op>) {
    forall k | 0 <= k < |ops| :: ops[k].ORead? ==> InTable(ops[k].info)
  }

  lemma StepMode(l: Link, op: Op)
    requires op.ORead? ==> InTable(op.info)
    ensures var e := EventOf(l, op); Step(l, op).tx == if e.Some? then e == Some(MultiOk) else l.tx
  {
    hide ReadReply;
    if op.ORead? {
      ModeAfterReply(op.info, l.tx, l.unread);
    }
  }

  /** On every run, transaction_mode_ is true exactly when the latest event is '+' to MULTI. */
  lemma {:induction false} ModeIsHistory(l: Link, ops: seq<Op>, last: Option<Event>)
    requires TableOps(ops) && l.tx == (last == Some(MultiOk))
    ensures Run(l, ops).tx == (Latest(l, ops, last) == Some(MultiOk))
    decreases |ops|
  {
    hide Step, EventOf;
    if ops != [] {
      StepMode(l, ops[0]);
      var e := EventOf(l, ops[0]);
      ModeIsHistory(Step(l, ops[0]), ops[1..], if e.Some? then e else last);
    }
  }

  /**
   * A reconnection that does not go through close keeps the mode of the lost connection: the
   * first bulk reply on the new one is then refused and the connection closed.
   */
  lemma StaleModeAfterReconnect(l: Link, info: CommandInfo, b: Bytes, rest: Bytes)
    requires l.tx && InTable(info) && info.verb.Common? && info.kind == KBulk
    requires 0 < |b| <= INT64_MAX
    ensures Run(l, [OConnect(Some(Print(RBulk(b)) + rest)), ORead(info)]) == CLOSED_LINK
    ensures Run(l.(tx := false), [OConnect(Some(Print(RBulk(b)) + rest)), ORead(info)])
         == Link(true, rest, [], false, l.error)
  {
    hide ReadReply, Print;
    var s := Print(RBulk(b)) + rest;
    var ops := [OConnect(Some(s)), ORead(info)];
    assert ops[1..] == [ORead(info)];
    var m, n := Step(l, ops[0]), Step(l.(tx := false), ops[0]);
    assert Run(m, [ORead(info)]) == Run(Step(m, ORead(info)), []);
    assert Run(n, [ORead(info)]) == Run(Step(n, ORead(info)), []);
    ParsePrint(info, true, true, true, RBulk(b), rest);
    ParsePrint(info, true, true, false, RBulk(b), rest);
  }

  // ---------- the bytes sent ----------

  // A request as the caller gave it.
  datatype Issued = Issued(name: Bytes, args: seq<Bytes>)

  function Spelled(log: seq<Issued>): (requests: seq<seq<Bytes>>)
    ensures |requests| == |log|
    ensures forall k | 0 <= k < |log| :: requests[k] == [log[k].name] + log[k].args
  {
    if log == [] then [] else [[log[0].name] + log[0].args] + Spelled(log[1..])
  }

  /** The requests written on the connection of the moment, after those of 'log'. */
  function Requests(ops: seq<Op>, log: seq<Issued>): seq<Issued>
    decreases |ops|
  {
    if ops == [] then log
    else
      var o := ops[0];
      Requests(ops[1..],
               if o.OWrite? && o.c.CountOk() && o.w.AllSent? then log + [Issued(o.c.info.name, o.c.args)]
               else if o.OConnect? then [] else log)
  }

  /** Every request that is sent is below the length at which it would be cut. */
  predicate ShortRequests(ops: seq<Op>) {
    forall k | 0 <= k < |ops| :: ops[k].OWrite? && ops[k].w.AllSent? ==>
                                        |Encode(ops[k].c.Words())| < 0x8000_0000
  }

  /**
   * On every run, what has been sent on an open connection is exactly its complete requests, and
   * decodes to their names and arguments.
   */
  lemma {:induction false} SentIsRequests(l: Link, ops: seq<Op>, log: seq<Issued>)
    requires ShortRequests(ops) && (l.open ==> l.sent == EncodeAll(Spelled(log)))
    ensures var m, requests := Run(l, ops), Spelled(Requests(ops, log));
      && (m.open ==> m.sent == EncodeAll(requests))
      && (m.open && AllFitting(requests) ==> DecodeAll(m.sent) == Some(requests))
    decreases |ops|
  {
    hide Encode, EncodeAll, ReadReply, DecodeAll, AllFitting, Spelled;
    if ops == [] {
      if AllFitting(Spelled(log)) {
        RequestsRoundTrip(Spelled(log));
      }
    } else {
      var o := ops[0];
      var m := Step(l, o);
      if o.OWrite? && o.c.CountOk() && o.w.AllSent? {
        Int32Exact(|Encode(o.c.Words())|);
        WholeWhenShort(Encode(o.c.Words()));
        var log' := log + [Issued(o.c.info.name, o.c.args)];
        EncodeAllSnoc(Spelled(log), o.c.Words());
        assert Spelled(log') == Spelled(log) + [o.c.Words()];
        SentIsRequests(m, ops[1..], log');
      } else if o.OConnect? {
        assert Spelled([]) == [];
        assert EncodeAll([]) == [] by { EncodeNothing(); }
        SentIsRequests(m, ops[1..], []);
      } else {
        SentIsRequests(m, ops[1..], log);
      }
    }
  }

  lemma EncodeNothing()
    ensures EncodeAll([]) == []
  {
  }

  // ---------- framing ----------

  // A connection and the replies that the server has for the requests still to come on it.
  datatype Talk = Talk(link: Link, replies: seq<Reply>)

  datatype Act =
    | DoExec(c: Cmd, w: Written)
    | DoPipe(pipe: Pipe)
    | DoClose
    | DoConnect(stream: Option<Bytes>, replies: seq<Reply>)

  /** The replies behind the first k, as far as the server has that many. */
  function After(rs: seq<Reply>, k: nat): seq<Reply> {
    if k <= |rs| then rs[k..] else []
  }

  predicate Answered(t: Talk, a: Act) {
    a.DoExec? && a.c.CountOk() && a.w.AllSent? && t.replies != []
  }

  function StepTalk(t: Talk, a: Act): Talk {
    match a
    case DoExec(c, w) =>
      Talk(ExecSpec(t.link, c, NoOutput, w).link, if Answered(t, a) then t.replies[1..] else t.replies)
    case DoPipe(p) => Talk(PipeSpec(t.link, p).link, After(t.replies, Passed(p.cmds, p.ws, p.alive[..|p.cmds|])))
    case DoClose => t.(link := Step(t.link, OClose))
    case DoConnect(s, rs) => Talk(Step(t.link, OConnect(s)), rs)
  }

  function RunTalk(t: Talk, acts: seq<Act>): Talk
    decreases |acts|
  {
    if acts == [] then t else RunTalk(StepTalk(t, acts[0]), acts[1..])
  }

  /** Closed, or no reply outstanding: what comes next is the reply to the next request, as far as it arrives. */
  predicate InStep(t: Talk) {
    && AllSendable(t.replies)
    && (if t.link.open then t.link.unread <= PrintAll(t.replies) else t.link.unread == [])
  }

  /** The server keeps to the protocol, and the reply is not one that loses framing. */
  predicate ActOk(t: Talk, a: Act) {
    match a
    case DoExec(c, w) =>
      InTable(c.info) && (Answered(t, a) && t.link.open ==> !Desyncs(c.info, t.link.tx, t.replies[0]))
    case DoPipe(p) => TableCmds(p.cmds) && (t.link.open ==> !PipeLosesPlace(t.link.tx, p, t.replies))
    case DoClose => true
    case DoConnect(s, rs) => AllSendable(rs) && (s.Some? ==> s.value <= PrintAll(rs))
  }

  predicate TalkOk(t: Talk, acts: seq<Act>)
    decreases |acts|
  {
    acts == [] || (ActOk(t, acts[0]) && TalkOk(StepTalk(t, acts[0]), acts[1..]))
  }

  /** One reply: accepted, refused with the connection left open, or the connection is closed. */
  lemma ReadFirst(l: Link, info: CommandInfo, out: Output, rs: seq<Reply>)
    requires l.open && rs != [] && AllSendable(rs) && l.unread <= PrintAll(rs)
    requires InTable(info) && !Desyncs(info, l.tx, rs[0])
    ensures var e := ReadSpec(l, info, out);
      && (e.link.open ==> e.link.unread <= PrintAll(rs[1..])) && (!e.link.open ==> e.link == CLOSED_LINK && !e.ok)
      && (e.ok ==> Acceptable(info, l.tx, rs[0]) && e.link.tx == ModeAfter(info.verb, l.tx))
      && (!e.ok && e.link.open ==> !Acceptable(info, l.tx, rs[0]) && RefusedBy(info, l.tx, rs[0]))
  {
    hide ReadReply, Print, Sendable, InTable, Desyncs, Acceptable, RefusedBy, ModeAfter, ReplyOf;
    var first, more := Print(rs[0]), PrintAll(rs[1..]);
    assert PrintAll(rs) == first + more;
    if |l.unread| < |first| {
      assert l.unread < first;
      CutReplyCloses(info, l.tx, rs[0], l.unread);
    } else {
      var rest := l.unread[|first|..];
      assert l.unread == first + rest;
      assert rest <= more;
      hide ReadSpec;
      ReadInFront(l, info, out, rs[0], rest);
      ClosedByRead(l, info, out);
    }
  }

  lemma ReadKeepsStep(l: Link, info: CommandInfo, rs: seq<Reply>)
    requires l.open && rs != [] && AllSendable(rs) && l.unread <= PrintAll(rs)
    requires InTable(info) && !Desyncs(info, l.tx, rs[0])
    ensures InStep(Talk(ReadSpec(l, info, NoOutput).link, rs[1..]))
  {
    hide ReadSpec, PrintAll, Sendable, InTable, Desyncs, Acceptable, RefusedBy, ModeAfter;
    ReadFirst(l, info, NoOutput, rs);
  }

  lemma ExecKeepsStep(t: Talk, c: Cmd, w: Written)
    requires InStep(t) && ActOk(t, DoExec(c, w))
    ensures InStep(StepTalk(t, DoExec(c, w)))
  {
    hide ReadReply, Sendable, Print, PrintAll, Desyncs, InTable, Cmd.OnWire;
    if c.CountOk() && w.Lost? {
      LostEndsClosed(t.link, c, NoOutput, w);
    } else if c.CountOk() {
      var m := WriteSpec(t.link, c, w).link;
      NothingToRead(c.info, m.tx);
      if t.link.open && t.replies != [] {
        ReadKeepsStep(m, c.info, t.replies);
      } else {
        NoRepliesPrinted();
      }
    }
  }

  /** A reply that loses framing is refused. */
  lemma DesyncsIsRefused(info: CommandInfo, tx: bool, r: Reply)
    requires InTable(info)
    ensures Desyncs(info, tx, r) ==> !Acceptable(info, tx, r) && RefusedBy(info, tx, r)
  {
    hide Interpret, Acceptable, Desyncs, RefusedBy;
    InterpretTop(info, tx, r);
    TopRefusal(info, tx, r);
  }

  lemma {:induction false} ReadsKeepStep(l: Link, cmds: seq<Cmd>, outs: seq<Output>, alive: seq<bool>, rs: seq<Reply>)
    requires |outs| == |alive| == |cmds| && TableCmds(cmds)
    requires l.open && AllSendable(rs) && l.unread <= PrintAll(rs) && !LosesPlace(cmds, l.tx, rs, alive)
    ensures InStep(Talk(ReadsSpec(l, cmds, outs, alive).link, After(rs, |cmds|)))
    decreases |cmds|
  {
    hide ReadSpec, Print, PrintAll, Sendable, InTable, Desyncs, Acceptable, RefusedBy, ModeAfter;
    NoRepliesPrinted();
    TailSendable(rs, |cmds|);
    if cmds == [] {
      assert rs[0..] == rs;
    } else if rs == [] {
      ReadNothing(l, cmds[0].info, outs[0]);
    } else {
      var info := cmds[0].info;
      DesyncsIsRefused(info, l.tx, rs[0]);
      ReadFirst(l, info, outs[0], rs);
      var r := ReadSpec(l, info, outs[0]);
      if r.ok && alive[0] {
        ReadsKeepStep(r.link, cmds[1..], outs[1..], alive[1..], rs[1..]);
      }
      assert |cmds| <= |rs| ==> rs[1..][|cmds| - 1..] == rs[|cmds|..];
    }
  }

  lemma ReadNothing(l: Link, info: CommandInfo, out: Output)
    ensures l.unread == [] ==> ReadSpec(l, info, out) == ExecResult(CLOSED_LINK, false, Error(Local))
  {
    hide ReadReply;
    NothingToRead(info, l.tx);
  }

  lemma PipeKeepsStep(t: Talk, p: Pipe)
    requires InStep(t) && ActOk(t, DoPipe(p))
    ensures InStep(StepTalk(t, DoPipe(p)))
  {
    hide WritesSpec, ReadsSpec, LosesPlace, PrintAll, Sendable, TableCmds, Passes;
    var n := |p.cmds|;
    var k := Passed(p.cmds, p.ws, p.alive[..n]);
    TailSendable(t.replies, k);
    if p.cmds == [] {
      NoWrites(t.link);
      NoReads(t.link);
    } else if !t.link.open {
      ClosedWrites(t.link, p.cmds, p.outs, p.ws, p.alive[..n]);
    } else {
      OpenWrites(t.link, p.cmds, p.outs, p.ws, p.alive[..n]);
      var w := PipeWrites(t.link, p);
      if k == n {
        ReadsKeepStep(w.link, p.cmds, w.outs, p.alive[n..], t.replies);
      }
    }
  }

  lemma NoReads(l: Link)
    ensures ReadsSpec(l, [], [], []) == PipeEnd(l, true, [])
  {
  }

  lemma {:induction false} TailSendable(rs: seq<Reply>, k: nat)
    requires AllSendable(rs)
    ensures AllSendable(After(rs, k)) && After(rs, 0) == rs
    decreases k
  {
    hide Sendable;
    if 0 < k <= |rs| {
      TailSendable(rs[1..], k - 1);
      assert rs[1..][k - 1..] == rs[k..];
    }
  }

  lemma StepKeepsStep(t: Talk, a: Act)
    requires InStep(t) && ActOk(t, a)
    ensures InStep(StepTalk(t, a))
  {
    match a
    case DoExec(c, w) => ExecKeepsStep(t, c, w);
    case DoPipe(p) => PipeKeepsStep(t, p);
    case _ =>
  }

  lemma NoRepliesPrinted()
    ensures PrintAll([]) == []
  {
  }

  /**
   * Every run of exec_command, whether its count is wrong, its write lost, its reply accepted,
   * refused, mistyped or cut off, of exec_pipeline, and of close and reconnection, ends closed or
   * with no reply outstanding, as long as no command meets a reply that loses framing for it in
   * its mode and no pipeline loses its place.
   */
  lemma {:induction false} FramingRun(t: Talk, acts: seq<Act>)
    requires InStep(t) && TalkOk(t, acts)
    ensures InStep(RunTalk(t, acts))
    decreases |acts|
  {
    hide InStep, StepTalk, ActOk;
    if acts != [] {
      StepKeepsStep(t, acts[0]);
      FramingRun(StepTalk(t, acts[0]), acts[1..]);
    }
  }
}
