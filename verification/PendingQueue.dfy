// transaction_cmds_ over whole runs: when it is what the server has queued on this connection.
module PendingQueue {
  import opened Wire
  import opened Resp
  import opened ReplyTheory
  import opened RoundTrip
  import opened Links
  import opened SessionSpec
  import opened Transactions

  // The server's side of a connection, told from its answers: whether MULTI is in force, and the
  // commands queued since.
  datatype Queue = Queue(multi: bool, cmds: seq<Cmd>)

  const NO_QUEUE: Queue := Queue(false, [])

  /** Inside MULTI a command answered by a status has been queued, whoever sent it. */
  function Enqueue(q: Queue, c: Cmd, r: ExecResult): Queue {
    if q.multi && r.ok && r.out.Status? then q.(cmds := q.cmds + [c]) else q
  }

  /** A new connection starts with nothing queued. */
  function QueueOn(s: Sess, q: Queue, p: Probe): Queue {
    if StillOpen(s.link, p) then q else NO_QUEUE
  }

  function SelectQueue(s: Sess, q: Queue, index: DbIndex, p: Probe, w: Written): Queue {
    Enqueue(QueueOn(s, q, p), SelectCmd(index), SelectAnswer(s, index, p, w))
  }

  function AssureQueue(s: Sess, q: Queue, p: Probe, p': Probe, w: Written): Queue {
    var d := Restored(s, p);
    if d.link.open && MustSelect(d) then SelectQueue(d, QueueOn(s, q, p), d.db, p', w) else QueueOn(s, q, p)
  }

  /** What a call makes of the server's queue. Every answer to EXEC ends the transaction. */
  function StepQueue(s: Sess, q: Queue, c: Call): Queue {
    match c
    case CData(cmd, p, p', w, w') =>
      var a := AssureSpec(s, p, p', w);
      var q' := AssureQueue(s, q, p, p', w);
      if a.ok then Enqueue(q', cmd, ExecSpec(a.s.link, cmd, NoOutput, w')) else q'
    case CMulti(p, p', w, w') =>
      if MultiSpec(s, p, p', w, w').ok then Queue(true, []) else AssureQueue(s, q, p, p', w)
    case CAdd(cmd, _, p, w) =>
      if StillOpen(s.link, p) then Enqueue(q, cmd, ExecSpec(s.link, cmd, NoOutput, w)) else q
    case CExec(p, _) => if StillOpen(s.link, p) then NO_QUEUE else q
    case CDiscard(p, w) => if DiscardSpec(s, p, w).ok then NO_QUEUE else q
    case CSelect(index, p, w) => SelectQueue(s, q, index, p, w)
    case CClose => NO_QUEUE
  }

  /** The pending list is the server's queue. */
  predicate Matched(s: Sess, q: Queue) {
    s.link.open ==> s.pending == q.cmds
  }

  // ---------- the calls that break it ----------

  /** A select that the server queues, or that reconnects by itself with commands pending. */
  predicate SelectBreaks(s: Sess, q: Queue, index: DbIndex, p: Probe, w: Written) {
    && SelectSpec(s, index, p, w).s.link.open
    && var r := SelectAnswer(s, index, p, w);
       if StillOpen(s.link, p) then q.multi && r.ok && r.out.Status? else s.pending != []
  }

  /** The same select, sent by assure_connect. */
  predicate AssureBreaks(s: Sess, q: Queue, p: Probe, p': Probe, w: Written) {
    var d := Restored(s, p);
    d.link.open && MustSelect(d) && SelectBreaks(d, QueueOn(s, q, p), d.db, p', w)
  }

  /**
   * A data command that the server queues; MULTI answered OK with commands pending; a command
   * added outside MULTI; an EXEC that fails with commands pending; or one of the selects above.
   * Nothing matters on a connection that ends closed.
   */
  predicate Breaks(s: Sess, q: Queue, c: Call) {
    && StepCall(s, c).link.open
    && match c
       case CData(cmd, p, p', w, w') =>
         var a := AssureSpec(s, p, p', w);
         var r := ExecSpec(a.s.link, cmd, NoOutput, w');
         || AssureBreaks(s, q, p, p', w)
         || (a.ok && AssureQueue(s, q, p, p', w).multi && r.ok && r.out.Status?)
       case CMulti(p, p', w, w') =>
         if MultiSpec(s, p, p', w, w').ok then AssureSpec(s, p, p', w).s.pending != [] else AssureBreaks(s, q, p, p', w)
       case CAdd(cmd, _, p, w) =>
         var r := ExecSpec(s.link, cmd, NoOutput, w);
         StillOpen(s.link, p) && r.ok && !(q.multi && r.out.Status?)
       case CExec(p, w) => StillOpen(s.link, p) && !ExecTxSpec(s, p, w).ok && s.pending != []
       case CDiscard(_, _) => false
       case CSelect(index, p, w) => SelectBreaks(s, q, index, p, w)
       case CClose => false
  }

  lemma SelectMatch(s: Sess, q: Queue, index: DbIndex, p: Probe, w: Written)
    requires Matched(s, q)
    ensures var t, q' := SelectSpec(s, index, p, w).s, SelectQueue(s, q, index, p, w);
      && (Matched(t, q') <==> !SelectBreaks(s, q, index, p, w))
      && (q'.multi && t.link.open ==> |t.pending| <= |q'.cmds|)
  {
    hide ExecSpec, SelectCmd;
  }

  lemma AssureMatch(s: Sess, q: Queue, p: Probe, p': Probe, w: Written)
    requires Matched(s, q)
    ensures var a, q' := AssureSpec(s, p, p', w), AssureQueue(s, q, p, p', w);
      && (Matched(a.s, q') <==> !AssureBreaks(s, q, p, p', w))
      && (q'.multi && a.s.link.open ==> |a.s.pending| <= |q'.cmds|)
  {
    hide SelectSpec, SelectQueue, SelectBreaks;
    var d := Restored(s, p);
    assert Matched(d, QueueOn(s, q, p));
    SelectMatch(d, QueueOn(s, q, p), d.db, p', w);
  }

  /** A call keeps the pending list equal to the server's queue exactly unless it is one of those. */
  lemma StepMatch(s: Sess, q: Queue, c: Call)
    requires Matched(s, q)
    ensures Matched(StepCall(s, c), StepQueue(s, q, c)) <==> !Breaks(s, q, c)
  {
    hide ExecSpec, AssureSpec, AssureQueue, AssureBreaks, SelectSpec, SelectQueue, SelectBreaks, Normalize, Pair;
    match c
    case CData(cmd, p, p', w, w') =>
      AssureMatch(s, q, p, p', w);
      ExecKeepsClosed(AssureSpec(s, p, p', w).s.link, cmd, w');
    case CMulti(p, p', w, w') =>
      AssureMatch(s, q, p, p', w);
      ExecKeepsClosed(AssureSpec(s, p, p', w).s.link, MULTI_CMD, w');
    case CSelect(index, p, w) => SelectMatch(s, q, index, p, w);
    case CAdd(cmd, _, _, w) => ExecKeepsClosed(s.link, cmd, w);
    case CExec(_, w) => ExecKeepsClosed(s.link, EXEC_CMD, w);
    case CDiscard(_, w) => ExecKeepsClosed(s.link, DISCARD_CMD, w);
    case CClose =>
  }

  predicate AlwaysMatched(s: Sess, q: Queue, calls: seq<Call>)
    decreases |calls|
  {
    && Matched(s, q)
    && (calls == [] || AlwaysMatched(StepCall(s, calls[0]), StepQueue(s, q, calls[0]), calls[1..]))
  }

  predicate NeverBreaks(s: Sess, q: Queue, calls: seq<Call>)
    decreases |calls|
  {
    calls == [] ||
    (!Breaks(s, q, calls[0]) && NeverBreaks(StepCall(s, calls[0]), StepQueue(s, q, calls[0]), calls[1..]))
  }

  /**
   * Over every run of the client's calls: the pending list is all along exactly what the server
   * has queued on this connection since MULTI, exactly when no call of the run breaks it.
   */
  lemma {:induction false} PendingIsQueue(s: Sess, q: Queue, calls: seq<Call>)
    requires Matched(s, q)
    ensures AlwaysMatched(s, q, calls) <==> NeverBreaks(s, q, calls)
    decreases |calls|
  {
    hide Matched, StepCall, StepQueue, Breaks;
    if calls != [] {
      var s', q' := StepCall(s, calls[0]), StepQueue(s, q, calls[0]);
      StepMatch(s, q, calls[0]);
      if Matched(s', q') {
        PendingIsQueue(s', q', calls[1..]);
      }
    }
  }

  // ---------- what it is worth ----------

  /**
   * EXEC answered by one element for each queued command succeeds exactly when all are plain and
   * as many commands are pending; each command then gets its own reply exactly when the pending
   * list is the queue.
   */
  lemma QueueDecidesExec(s: Sess, q: Queue, rs: seq<Reply>, rest: Bytes)
    requires s.link.open && s.link.unread == Print(RArray(rs)) + rest && Sendable(RArray(rs)) && |rs| == |q.cmds|
    ensures var e := ExecTxSpec(s, ALIVE, AllSent);
      && (e.ok <==> AllPlain(rs) && |s.pending| == |q.cmds|)
      && (e.ok ==> (Paired(e.results, q.cmds, rs) <==> Matched(s, q)))
  {
    hide ExecTxSpec, Print, Sendable, AllPlain, HandedOut;
    ExecPairs(s, rs, rest);
    var e := ExecTxSpec(s, ALIVE, AllSent);
    if e.ok && Paired(e.results, q.cmds, rs) {
      assert forall k | 0 <= k < |rs| :: e.results[k].cmd == s.pending[k] == q.cmds[k];
      assert s.pending == q.cmds;
    }
  }

  /** A data command inside MULTI, answered by a status, succeeds and is queued by the server only. */
  lemma DataIsQueued(s: Sess, q: Queue, c: Cmd, text: Bytes, rest: Bytes)
    requires s.link.open && s.link.tx && !MustSelect(s) && q.multi && NoCrlf(text)
    requires c.CountOk() && InTable(c.info) && c.info.verb.Common? && s.link.unread == Print(RStatus(text)) + rest
    ensures var call := CData(c, ALIVE, ALIVE, AllSent, AllSent);
      var t := StepCall(s, call);
      && t == s.(link := t.link) && t.link.open && t.link.unread == rest
      && StepQueue(s, q, call) == q.(cmds := q.cmds + [c])
  {
    hide ReadSpec, Print, Cmd.OnWire, Cmd.CountOk, InTable;
    StatusReply(WriteSpec(s.link, c, AllSent).link, c.info, NoOutput, text, rest);
  }

  /**
   * Leftovers can also be paired wrongly, unnoticed: an EXEC answered by nil leaves command a
   * pending; in the next transaction the server queues data command b; EXEC then succeeds and
   * hands the reply of b to a.
   */
  lemma WrongPairing(s: Sess, a: Cmd, b: Cmd, text: Bytes, x: Reply, rest: Bytes)
    requires s.link.open && s.link.tx && !MustSelect(s) && s.pending == [a]
    requires b.CountOk() && InTable(b.info) && b.info.verb.Common? && NoCrlf(text) && Sendable(x) && Plain(x)
    requires s.link.unread
          == Print(RNilArray) + (Print(RStatus(OK)) + (Print(RStatus(text)) + (Print(RArray([x])) + rest)))
    ensures var q := Queue(true, [a]);
      var exec, multi, data := CExec(ALIVE, AllSent), CMulti(ALIVE, ALIVE, AllSent, AllSent),
                               CData(b, ALIVE, ALIVE, AllSent, AllSent);
      var s1, q1 := StepCall(s, exec), StepQueue(s, q, exec);
      var s2, q2 := StepCall(s1, multi), StepQueue(s1, q1, multi);
      var s3, q3 := StepCall(s2, data), StepQueue(s2, q2, data);
      var e := ExecTxSpec(s3, ALIVE, AllSent);
      Matched(s, q) && q3.cmds == [b] && e.ok && e.results == [Finished(a, HandedOut(x))]
  {
    hide StepCall, StepQueue, ExecTxSpec, MultiSpec, Print, Sendable, Plain, AllPlain, HandedOut, InTable, Cmd.CountOk;
    var last := Print(RArray([x])) + rest;
    var third := Print(RStatus(text)) + last;
    var q := Queue(true, [a]);
    var exec, multi, data := CExec(ALIVE, AllSent), CMulti(ALIVE, ALIVE, AllSent, AllSent),
                             CData(b, ALIVE, ALIVE, AllSent, AllSent);
    NilExecKeepsPending(s, Print(RStatus(OK)) + third, ALIVE);
    CallsOf(s, q);
    var s1, q1 := StepCall(s, exec), StepQueue(s, q, exec);
    MultiOpens(s1, third, AllSent);
    CallsOf(s1, q1);
    var s2, q2 := StepCall(s1, multi), StepQueue(s1, q1, multi);
    DataIsQueued(s2, q2, b, text, last);
    var s3 := StepCall(s2, data);
    OnePlain(x);
    ExecPairs(s3, [x], rest);
  }

  lemma CallsOf(s: Sess, q: Queue)
    requires s.link.open
    ensures StepCall(s, CExec(ALIVE, AllSent)) == ExecTxSpec(s, ALIVE, AllSent).s
    ensures StepQueue(s, q, CExec(ALIVE, AllSent)) == NO_QUEUE
    ensures var m := MultiSpec(s, ALIVE, ALIVE, AllSent, AllSent);
      && StepCall(s, CMulti(ALIVE, ALIVE, AllSent, AllSent)) == m.s
      && (m.ok ==> StepQueue(s, q, CMulti(ALIVE, ALIVE, AllSent, AllSent)) == Queue(true, []))
  {
    hide ExecTxSpec, MultiSpec, AssureQueue;
  }

  lemma OnePlain(x: Reply)
    requires Plain(x) && Sendable(x)
    ensures AllPlain([x]) && Sendable(RArray([x]))
  {
    assert [x][1..] == [];
  }
}
