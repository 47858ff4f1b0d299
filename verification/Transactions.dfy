// Whole transactions of a Redis2: what the server's answers make of the pending list.
module Transactions {
  import opened Wire
  import opened Os
  import opened Decimal
  import opened Resp
  import opened Request
  import opened ReplyTheory
  import opened RoundTrip
  import opened Links
  import opened SessionSpec

  // ---------- what a command of a transaction is handed ----------

  /** The output that holds a tree when every array is kept as a special multi-bulk. */
  function Special(r: Reply): Output
    decreases r, 1
  {
    match r
    case RStatus(t) => Status(t)
    case RError(t) => Error(Server(t))
    case RInteger(i) => Integer(i)
    case RBulk(b) => Bulk(b)
    case RNilBulk => NilBulk
    case RArray(es) => SMBulk(SpecialAll(es))
    case RNilArray => NilSMBulk
  }

  function SpecialAll(rs: seq<Reply>): (outs: seq<Output>)
    ensures |outs| == |rs|
    ensures forall k | 0 <= k < |rs| :: outs[k] == Special(rs[k])
    decreases rs, 0
  {
    if rs == [] then [] else [Special(rs[0])] + SpecialAll(rs[1..])
  }

  /** The output a command finds after EXEC: arrays of bulks as mbulks, everything else special. */
  function HandedOut(r: Reply): Output {
    if r.RArray? && PlainBulks(r.elems) then MBulk(BulkItems(r.elems)) else Special(r)
  }

  lemma {:induction false} InterpretSpecial(info: CommandInfo, tx: bool, r: Reply)
    requires info.kind != KMultiBulk
    ensures var v := Interpret(info, false, false, tx, r); v.Accept? ==> v.out == Special(r)
    decreases r, 1
  {
    hide InterpretAll, SpecialAll;
    if r.RArray? {
      InterpretSpecialAll(info, tx, r.elems);
    }
  }

  lemma {:induction false} InterpretSpecialAll(info: CommandInfo, tx: bool, rs: seq<Reply>)
    requires info.kind != KMultiBulk
    ensures var v := InterpretAll(info, tx, rs); v.AcceptAll? ==> v.outs == SpecialAll(rs)
    decreases rs, 0
  {
    hide Interpret, Special, PrintAll;
    if rs != [] {
      InterpretSpecial(info, tx, rs[0]);
      var v := Interpret(info, false, false, tx, rs[0]);
      if v.Accept? {
        InterpretSpecialAll(info, v.tx, rs[1..]);
      }
    }
  }

  lemma NormalizeSpecial(r: Reply)
    requires Plain(r)
    ensures Normalize(Special(r)) == HandedOut(r)
  {
    if r.RArray? {
      PlainElements(r.elems);
      var outs := SpecialAll(r.elems);
      assert AllBulks(outs) <==> PlainBulks(r.elems) by {
        assert forall k | 0 <= k < |outs| :: outs[k] == Special(r.elems[k]);
      }
      if PlainBulks(r.elems) {
        var items := ItemsOf(outs);
        forall k | 0 <= k < |items|
          ensures items[k] == BulkItems(r.elems)[k]
        {
          assert FromBulk(items[k]) == Special(r.elems[k]);
        }
        assert items == BulkItems(r.elems);
      }
    }
  }

  lemma {:induction false} PlainElements(rs: seq<Reply>)
    ensures AllPlain(rs) <==> forall k | 0 <= k < |rs| :: Plain(rs[k])
  {
    hide Plain;
    if rs != [] {
      PlainElements(rs[1..]);
    }
  }

  lemma ExecReply(tx: bool, rs: seq<Reply>, rest: Bytes)
    requires Sendable(RArray(rs)) && AllPlain(rs)
    ensures ReadReply(EXEC_INFO, true, true, tx, Print(RArray(rs)) + rest) == Done(SMBulk(SpecialAll(rs)), rest, false)
  {
    hide ReadReply, Print, Sendable, AllPlain, InterpretAll, SpecialAll;
    ParsePrint(EXEC_INFO, true, true, tx, RArray(rs), rest);
    InterpretNestedAll(EXEC_INFO, tx, rs);
    InterpretSpecialAll(EXEC_INFO, tx, rs);
  }

  /**
   * A common command gets the same output inside a transaction as outside, except that a nil
   * array does not come back as nil mbulks, and that commands without a fixed reply type get
   * arrays of bulks in the other form.
   */
  lemma TransactionTransparent(info: CommandInfo, r: Reply, rest: Bytes)
    requires InTable(info) && info.verb.Common? && Sendable(r) && Acceptable(info, false, r)
    ensures var p := ReadReply(info, true, true, false, Print(r) + rest);
      && p.Done?
      && (p.out == HandedOut(r) <==>
          if info.kind == KMultiBulk then !r.RNilArray? else !(r.RArray? && PlainBulks(r.elems)))
  {
    hide ReadReply, Print, Sendable, InterpretAll, AllPlain, SpecialAll, BulkItems;
    ParsePrint(info, true, true, false, r, rest);
    if r.RArray? && info.kind != KMultiBulk {
      InterpretNestedAll(info, false, r.elems);
      InterpretSpecialAll(info, false, r.elems);
    }
  }

  // ---------- whole transactions ----------

  // One add of a run: the command and the form used.
  datatype Add = Add(c: Cmd, formatted: bool)

  const ALIVE: Probe := Probe(true, None)

  function RunAdds(s: Sess, adds: seq<Add>): Sess
    decreases |adds|
  {
    if adds == [] then s else RunAdds(AddSpec(s, adds[0].c, adds[0].formatted, ALIVE, AllSent).s, adds[1..])
  }

  /** The adds that reach the server: those with a right argument count. */
  function Sendables(adds: seq<Add>): nat {
    if adds == [] then 0 else (if adds[0].c.CountOk() then 1 else 0) + Sendables(adds[1..])
  }

  /** The commands that the server answers by a status, in order. */
  function Queued(adds: seq<Add>, answers: seq<Reply>): seq<Cmd>
    requires |answers| == Sendables(adds)
    decreases |adds|
  {
    if adds == [] then []
    else if !adds[0].c.CountOk() then Queued(adds[1..], answers)
    else (if answers[0].RStatus? then [adds[0].c] else []) + Queued(adds[1..], answers[1..])
  }

  /** To a command inside MULTI the server answers a status or an error. */
  predicate QueueAnswers(answers: seq<Reply>) {
    forall k | 0 <= k < |answers| :: Sendable(answers[k]) && (answers[k].RStatus? || answers[k].RError?)
  }

  predicate CommonAdds(adds: seq<Add>) {
    forall k | 0 <= k < |adds| :: InTable(adds[k].c.info) && adds[k].c.info.verb.Common?
  }

  /**
   * In a transaction one add consumes one answer, and is appended exactly when that is a status.
   * The form without a format string reports failure even then.
   */
  lemma OneAdd(s: Sess, a: Add, r: Reply, rest: Bytes)
    requires s.link.open && s.link.tx && a.c.CountOk() && InTable(a.c.info) && a.c.info.verb.Common?
    requires Sendable(r) && (r.RStatus? || r.RError?) && s.link.unread == Print(r) + rest
    ensures var o := AddSpec(s, a.c, a.formatted, ALIVE, AllSent);
      && o.s.link.open && o.s.link.tx && o.s.link.unread == rest
      && o.s.pending == (if r.RStatus? then s.pending + [a.c] else s.pending)
      && (o.ok <==> a.formatted && r.RStatus?)
  {
    hide ReadSpec, Print;
    var m := WriteSpec(s.link, a.c, AllSent).link;
    if r.RStatus? {
      StatusReply(m, a.c.info, NoOutput, r.text, rest);
    } else {
      ErrorReplyIsKept(m, a.c.info, NoOutput, r.text, rest);
    }
  }

  /**
   * After any adds in a transaction the pending list has grown by exactly the commands answered by
   * a status, in order.
   */
  lemma {:induction false} AddsQueueAnswered(s: Sess, adds: seq<Add>, answers: seq<Reply>, rest: Bytes)
    requires s.link.open && s.link.tx && CommonAdds(adds)
    requires |answers| == Sendables(adds) && QueueAnswers(answers)
    requires s.link.unread == PrintAll(answers) + rest
    ensures var t := RunAdds(s, adds);
      && t.link.open && t.link.tx && t.link.unread == rest
      && t.pending == s.pending + Queued(adds, answers)
    decreases |adds|
  {
    hide Print, PrintAll, InTable, Sendable, AddSpec, Cmd.CountOk, QueueAnswers, CommonAdds;
    PrintedHead(answers, rest);
    if adds != [] {
      HeadsAndTails(adds, answers);
      var a := adds[0];
      var t := AddSpec(s, a.c, a.formatted, ALIVE, AllSent).s;
      if !a.c.CountOk() {
        BadCountAdds(s, a);
        AddsQueueAnswered(t, adds[1..], answers, rest);
      } else {
        OneAdd(s, a, answers[0], PrintAll(answers[1..]) + rest);
        AddsQueueAnswered(t, adds[1..], answers[1..], rest);
        var more := Queued(adds[1..], answers[1..]);
        assert s.pending + [a.c] + more == s.pending + ([a.c] + more);
      }
    }
  }

  lemma HeadsAndTails(adds: seq<Add>, answers: seq<Reply>)
    requires adds != [] && CommonAdds(adds) && QueueAnswers(answers)
    ensures CommonAdds(adds[1..]) && InTable(adds[0].c.info) && adds[0].c.info.verb.Common?
    ensures answers != [] ==>
              QueueAnswers(answers[1..]) && Sendable(answers[0]) && (answers[0].RStatus? || answers[0].RError?)
  {
    hide InTable, Sendable;
  }

  lemma BadCountAdds(s: Sess, a: Add)
    requires s.link.open && !a.c.CountOk()
    ensures AddSpec(s, a.c, a.formatted, ALIVE, AllSent).s == s.(link := s.link.(error := Local))
  {
  }

  /** multi on an open connection with nothing to select: one +OK is consumed and the mode entered. */
  lemma MultiOpens(s: Sess, rest: Bytes, w: Written)
    requires s.link.open && !MustSelect(s) && s.link.unread == Print(RStatus(OK)) + rest
    ensures var m := MultiSpec(s, ALIVE, ALIVE, w, AllSent);
      && m.ok && m.s == s.(link := m.s.link) && m.s.link.open && m.s.link.tx && m.s.link.unread == rest
  {
    hide ReadSpec, Print, Cmd.OnWire;
    StatusReply(WriteSpec(s.link, MULTI_CMD, AllSent).link, MULTI_INFO, NoOutput, OK, rest);
  }

  /** MULTI refused changes nothing but the last error; another status fails as well, yet enters the mode. */
  lemma MultiRefused(s: Sess, text: Bytes, rest: Bytes, w: Written)
    requires s.link.open && !MustSelect(s) && NoCrlf(text)
    ensures var m := MultiSpec(s, ALIVE, ALIVE, w, AllSent);
      && (s.link.unread == Print(RError(text)) + rest ==>
            && !m.ok && m.s == s.(link := m.s.link)
            && m.s.link.open && m.s.link.tx == s.link.tx && m.s.link.unread == rest
            && m.s.link.error == Server(text))
      && (s.link.unread == Print(RStatus(text)) + rest && text != OK ==>
            !m.ok && m.s == s.(link := m.s.link) && m.s.link.open && m.s.link.tx && m.s.link.unread == rest)
  {
    hide ReadSpec, Print, Cmd.OnWire;
    var m := WriteSpec(s.link, MULTI_CMD, AllSent).link;
    if s.link.unread == Print(RError(text)) + rest {
      ErrorReplyIsKept(m, MULTI_INFO, NoOutput, text, rest);
    }
    if s.link.unread == Print(RStatus(text)) + rest && text != OK {
      StatusReply(m, MULTI_INFO, NoOutput, text, rest);
    }
  }

  /** Without a connection add, exec and discard fail and change nothing but the last error. */
  lemma NotConnected(s: Sess, c: Cmd, formatted: bool, p: Probe, w: Written)
    requires !StillOpen(s.link, p)
    ensures var t := s.(link := s.link.(error := Local));
      && AddSpec(s, c, formatted, p, w) == Outcome(t, false)
      && ExecTxSpec(s, p, w) == TxOutcome(t, false, [])
      && DiscardSpec(s, p, w) == Outcome(t, false)
  {
  }

  /** MULTI, EXEC and DISCARD as they are sent. */
  lemma TransactionRequests()
    ensures MULTI_CMD.OnWire() == [42, 49, 13, 10, 36, 53, 13, 10, 77, 85, 76, 84, 73, 13, 10]
    ensures EXEC_CMD.OnWire() == [42, 49, 13, 10, 36, 52, 13, 10, 69, 88, 69, 67, 13, 10]
    ensures DISCARD_CMD.OnWire() == [42, 49, 13, 10, 36, 55, 13, 10, 68, 73, 83, 67, 65, 82, 68, 13, 10]
  {
    hide Encode, Cut, PrintInt;
    OneWord(MULTI_INFO.name);
    OneWord(EXEC_INFO.name);
    OneWord(DISCARD_INFO.name);
    assert [MULTI_INFO.name] + [] == [MULTI_INFO.name];
    assert [EXEC_INFO.name] + [] == [EXEC_INFO.name];
    assert [DISCARD_INFO.name] + [] == [DISCARD_INFO.name];
  }

  lemma OneWord(name: Bytes)
    requires 0 < |name| < 10
    ensures Cut(Encode([name])) == [42, 49, 13, 10, 36, 48 + |name|, 13, 10] + name + [13, 10]
  {
    assert PrintInt(1) == [49] && PrintInt(|name|) == [48 + |name|];
    hide PrintInt;
    RequestInBytes(name, []);
    assert [name] + [] == [name];
    var line := Encode([name]);
    Int32Exact(|line|);
    WholeWhenShort(line);
  }

  /** In a transaction every common command with a fixed reply type takes exactly a status. */
  lemma OnlyStatusInTransaction(info: CommandInfo, r: Reply)
    requires InTable(info) && info.verb.Common? && info.kind != KDepends
    ensures Acceptable(info, true, r) <==> r.RStatus?
  {
  }

  /** EXEC answered by an array: accepted exactly when all its elements are plain. */
  lemma ExecAnswer(l: Link, rs: seq<Reply>, rest: Bytes)
    requires l.unread == Print(RArray(rs)) + rest && Sendable(RArray(rs))
    ensures var r := ReadSpec(l, EXEC_INFO, NoOutput);
      && (r.ok <==> AllPlain(rs))
      && (r.ok ==> r.out == SMBulk(SpecialAll(rs)) && r.link == l.(unread := rest, tx := false))
  {
    hide ReadReply, Print, Sendable, AllPlain, SpecialAll, Desyncs;
    ReplyRoundTrip(EXEC_INFO, l.tx, RArray(rs), rest);
    if AllPlain(rs) {
      ExecReply(l.tx, rs, rest);
    }
  }

  /** Command i has reply i. */
  predicate Paired(results: seq<Finished>, cmds: seq<Cmd>, rs: seq<Reply>) {
    |results| == |cmds| == |rs| && forall k | 0 <= k < |rs| :: results[k] == Finished(cmds[k], HandedOut(rs[k]))
  }

  lemma ExecPairs(t: Sess, rs: seq<Reply>, rest: Bytes)
    requires t.link.open && t.link.unread == Print(RArray(rs)) + rest && Sendable(RArray(rs))
    ensures var e := ExecTxSpec(t, ALIVE, AllSent);
      && (e.ok <==> AllPlain(rs) && |rs| == |t.pending|)
      && (e.ok ==> e.s.pending == [] && e.s.link.open && !e.s.link.tx && e.s.link.unread == rest)
      && (e.ok ==> Paired(e.results, t.pending, rs))
      && (!e.ok ==> e.s.pending == t.pending)
  {
    hide ReadSpec, Print, Sendable, Plain, AllPlain, Normalize, HandedOut, Special, Cmd.OnWire;
    ExecAnswer(WriteSpec(t.link, EXEC_CMD, AllSent).link, rs, rest);
    if AllPlain(rs) {
      PlainElements(rs);
      forall k | 0 <= k < |rs|
        ensures Normalize(SpecialAll(rs)[k]) == HandedOut(rs[k])
      {
        NormalizeSpecial(rs[k]);
      }
    }
  }

  /** The stream of a transaction: OK to MULTI, the answers to the adds, the array to EXEC. */
  function TransactionStream(answers: seq<Reply>, rs: seq<Reply>, rest: Bytes): Bytes {
    Print(RStatus(OK)) + (PrintAll(answers) + (Print(RArray(rs)) + rest))
  }

  /**
   * A whole transaction, told from the server's stream: EXEC succeeds exactly when the array is
   * plain and has one element for each command pending before and each add answered by a status.
   * Then command i gets element i, arrays of bulks as mbulks, the pending list ends empty and
   * the stream is at the next reply. Otherwise the list keeps all of them.
   */
  lemma TransactionPairing(s: Sess, adds: seq<Add>, answers: seq<Reply>, rs: seq<Reply>, rest: Bytes, w: Written)
    requires s.link.open && !MustSelect(s) && CommonAdds(adds)
    requires |answers| == Sendables(adds) && QueueAnswers(answers) && Sendable(RArray(rs))
    requires s.link.unread == TransactionStream(answers, rs, rest)
    ensures var m := MultiSpec(s, ALIVE, ALIVE, w, AllSent);
      var t := RunAdds(m.s, adds);
      var e := ExecTxSpec(t, ALIVE, AllSent);
      var all := s.pending + Queued(adds, answers);
      && m.ok && t.pending == all
      && (e.ok <==> AllPlain(rs) && |rs| == |all|)
      && (e.ok ==> e.s.pending == [] && e.s.link.open && !e.s.link.tx && e.s.link.unread == rest)
      && (e.ok ==> Paired(e.results, all, rs))
      && (!e.ok ==> e.s.pending == all)
  {
    hide MultiSpec, RunAdds, ExecTxSpec, Print, Sendable, AllPlain, HandedOut, Queued, Paired;
    var last := Print(RArray(rs)) + rest;
    MultiOpens(s, PrintAll(answers) + last, w);
    var m := MultiSpec(s, ALIVE, ALIVE, w, AllSent).s;
    AddsQueueAnswered(m, adds, answers, last);
    ExecPairs(RunAdds(m, adds), rs, rest);
  }

  /** With anything left over in the pending list, no later transaction that the server carries out succeeds. */
  lemma LeftoversPoison(s: Sess, adds: seq<Add>, answers: seq<Reply>, rs: seq<Reply>, rest: Bytes, w: Written)
    requires s.link.open && !MustSelect(s) && CommonAdds(adds) && s.pending != []
    requires |answers| == Sendables(adds) && QueueAnswers(answers) && Sendable(RArray(rs))
    requires s.link.unread == TransactionStream(answers, rs, rest)
    requires |rs| == |Queued(adds, answers)|
    ensures var e := ExecTxSpec(RunAdds(MultiSpec(s, ALIVE, ALIVE, w, AllSent).s, adds), ALIVE, AllSent);
      !e.ok && e.s.pending == s.pending + Queued(adds, answers)
  {
    hide MultiSpec, RunAdds, ExecTxSpec, Print, Sendable, AllPlain, HandedOut, Queued, Paired;
    TransactionPairing(s, adds, answers, rs, rest, w);
  }

  /** A nil EXEC keeps the pending list. */
  lemma NilExecKeepsPending(s: Sess, rest: Bytes, p: Probe)
    requires StillOpen(s.link, p) && s.link.unread == Print(RNilArray) + rest
    ensures var e := ExecTxSpec(s, p, AllSent);
      !e.ok && e.s == s.(link := e.s.link) && e.s.link.open && e.s.link.unread == rest
  {
    hide ReadReply, Print, Cmd.OnWire;
    ParsePrint(EXEC_INFO, true, true, s.link.tx, RNilArray, rest);
  }

  /**
   * An EXEC that the server aborts with an error keeps the pending list and the mode, although the
   * transaction is over: the next bulk reply to a common command then closes the connection.
   */
  lemma AbortedExecKeepsMode(s: Sess, info: CommandInfo, text: Bytes, b: Bytes, rest: Bytes, p: Probe)
    requires StillOpen(s.link, p) && s.link.tx && NoCrlf(text)
    requires InTable(info) && info.verb.Common? && info.kind == KBulk && 0 < |b| <= INT64_MAX
    requires s.link.unread == Print(RError(text)) + (Print(RBulk(b)) + rest)
    ensures var e := ExecTxSpec(s, p, AllSent);
      && !e.ok && e.s == s.(link := e.s.link) && e.s.link.open && e.s.link.tx
      && ReadSpec(e.s.link, info, NoOutput) == ExecResult(CLOSED_LINK, false, Error(Local))
      && ReadSpec(e.s.link.(tx := false), info, NoOutput).out == Bulk(b)
  {
    hide ReadReply, Print, Cmd.OnWire;
    ErrorReplyIsKept(WriteSpec(s.link, EXEC_CMD, AllSent).link, EXEC_INFO, NoOutput, text, Print(RBulk(b)) + rest);
    ParsePrint(info, true, true, true, RBulk(b), rest);
    ParsePrint(info, true, true, false, RBulk(b), rest);
  }

  /** DISCARD answered +OK empties the pending list and ends the transaction; refused, it changes neither. */
  lemma DiscardEnds(s: Sess, text: Bytes, rest: Bytes, p: Probe)
    requires StillOpen(s.link, p) && NoCrlf(text)
    ensures var d := DiscardSpec(s, p, AllSent);
      && (s.link.unread == Print(RStatus(OK)) + rest ==>
            d.ok && d.s.pending == [] && !d.s.link.tx && d.s.link.unread == rest && d.s.link.open)
      && (s.link.unread == Print(RError(text)) + rest ==>
            !d.ok && d.s.pending == s.pending && d.s.link.tx == s.link.tx && d.s.link.unread == rest && d.s.link.open)
  {
    hide ReadSpec, Print, Cmd.OnWire;
    var m := WriteSpec(s.link, DISCARD_CMD, AllSent).link;
    if s.link.unread == Print(RStatus(OK)) + rest {
      StatusReply(m, DISCARD_INFO, NoOutput, OK, rest);
    }
    if s.link.unread == Print(RError(text)) + rest {
      ErrorReplyIsKept(m, DISCARD_INFO, NoOutput, text, rest);
    }
  }
}
