// exec_pipeline: all requests written, then all replies read from one stream.
module Pipeline {
  import opened Wire
  import opened Resp
  import opened Request
  import opened ReplyTheory
  import opened RoundTrip
  import opened Links

  // Where a half of a pipeline ends: the connection, success, and the outputs of its commands.
  datatype PipeEnd = PipeEnd(link: Link, ok: bool, outs: seq<Output>)

  function Behind(done: seq<Output>, e: PipeEnd): PipeEnd {
    e.(outs := done + e.outs)
  }

  /** The writing half, with the is_open check after every write. */
  function WritesSpec(l: Link, cmds: seq<Cmd>, outs: seq<Output>, ws: seq<Written>, alive: seq<bool>): (e: PipeEnd)
    requires |outs| == |ws| == |alive| == |cmds|
    ensures |e.outs| == |cmds|
    decreases |cmds|
  {
    if cmds == [] then PipeEnd(l, true, [])
    else
      var r := WriteSpec(l, cmds[0], ws[0]);
      if !r.ok then PipeEnd(r.link, false, [Error(Local)] + outs[1..])
      else if !(r.link.open && alive[0]) then PipeEnd(CLOSED_LINK, false, outs)
      else Behind([outs[0]], WritesSpec(r.link, cmds[1..], outs[1..], ws[1..], alive[1..]))
  }

  /** The reading half: it stops at the first reply that is not accepted and at the first failed check. */
  function ReadsSpec(l: Link, cmds: seq<Cmd>, outs: seq<Output>, alive: seq<bool>): (e: PipeEnd)
    requires |outs| == |alive| == |cmds|
    ensures |e.outs| == |cmds|
    decreases |cmds|
  {
    if cmds == [] then PipeEnd(l, true, [])
    else
      var r := ReadSpec(l, cmds[0].info, outs[0]);
      if !r.ok then PipeEnd(r.link, false, [r.out] + outs[1..])
      else if !(r.link.open && alive[0]) then PipeEnd(CLOSED_LINK, false, [r.out] + outs[1..])
      else Behind([r.out], ReadsSpec(r.link, cmds[1..], outs[1..], alive[1..]))
  }

  // A pipeline: its commands with their outputs before it, the fates of the writes, and the
  // findings of the is_open checks, first those of the writing half.
  datatype PipeCall = PipeCall(cmds: seq<Cmd>, outs: seq<Output>, ws: seq<Written>, alive: seq<bool>)

  type Pipe = p: PipeCall | |p.outs| == |p.ws| == |p.cmds| && |p.alive| == 2 * |p.cmds|
    witness PipeCall([], [], [], [])

  function PipeWrites(l: Link, p: Pipe): PipeEnd {
    WritesSpec(l, p.cmds, p.outs, p.ws, p.alive[..|p.cmds|])
  }

  /** exec_pipeline. */
  function PipeSpec(l: Link, p: Pipe): PipeEnd {
    var w := PipeWrites(l, p);
    if !w.ok then w else ReadsSpec(w.link, p.cmds, w.outs, p.alive[|p.cmds|..])
  }

  // ---------- the writing half ----------

  /** The requests of a list of commands, one after the other. */
  function AllOnWire(cmds: seq<Cmd>): Bytes {
    if cmds == [] then [] else cmds[0].OnWire() + AllOnWire(cmds[1..])
  }

  /** The count is right, the kernel takes the request and the check after it finds the connection open. */
  predicate Passes(c: Cmd, w: Written, alive: bool) {
    c.CountOk() && w.AllSent? && alive
  }

  /** The number of commands before the first that does not pass. */
  function Passed(cmds: seq<Cmd>, ws: seq<Written>, alive: seq<bool>): (k: nat)
    requires |ws| == |alive| == |cmds|
    ensures k <= |cmds|
    ensures forall j | 0 <= j < k :: Passes(cmds[j], ws[j], alive[j])
    ensures k < |cmds| ==> !Passes(cmds[k], ws[k], alive[k])
  {
    if cmds == [] || !Passes(cmds[0], ws[0], alive[0]) then 0
    else 1 + Passed(cmds[1..], ws[1..], alive[1..])
  }

  /** The connection is open, every count is right, and every write and check succeeds. */
  predicate WritesPass(open: bool, cmds: seq<Cmd>, ws: seq<Written>, alive: seq<bool>)
    requires |ws| == |alive| == |cmds|
  {
    (cmds == [] || open) && forall k | 0 <= k < |cmds| :: Passes(cmds[k], ws[k], alive[k])
  }

  /** The first command that does not pass has a wrong argument count. */
  predicate StopsHalfway(open: bool, cmds: seq<Cmd>, ws: seq<Written>, alive: seq<bool>)
    requires |ws| == |alive| == |cmds|
  {
    var k := Passed(cmds, ws, alive);
    open && k < |cmds| && !cmds[k].CountOk()
  }

  lemma ClosedWrites(l: Link, cmds: seq<Cmd>, outs: seq<Output>, ws: seq<Written>, alive: seq<bool>)
    requires |outs| == |ws| == |alive| == |cmds| && !l.open && cmds != []
    ensures var e := WritesSpec(l, cmds, outs, ws, alive);
      !e.ok && (e.link == CLOSED_LINK || e.link == l.(error := Local))
  {
    hide Cmd.OnWire, Cmd.CountOk;
  }

  /** The first k requests are on the connection. */
  function WithRequests(l: Link, cmds: seq<Cmd>, k: nat): Link
    requires k <= |cmds|
  {
    l.(sent := l.sent + AllOnWire(cmds[..k]))
  }

  lemma OneMoreRequest(l: Link, cmds: seq<Cmd>, k: nat)
    requires k < |cmds|
    ensures WithRequests(l.(sent := l.sent + cmds[0].OnWire()), cmds[1..], k) == WithRequests(l, cmds, k + 1)
  {
    hide Cmd.OnWire;
    assert cmds[..k + 1][1..] == cmds[1..][..k];
    assert l.sent + cmds[0].OnWire() + AllOnWire(cmds[1..][..k]) == l.sent + AllOnWire(cmds[..k + 1]);
  }

  lemma NoRequest(l: Link, cmds: seq<Cmd>)
    ensures WithRequests(l, cmds, 0) == l
  {
    assert l.sent + AllOnWire(cmds[..0]) == l.sent;
  }

  /** On an open connection the first command that does not pass decides how the writing half ends. */
  lemma {:induction false} OpenWrites(l: Link, cmds: seq<Cmd>, outs: seq<Output>, ws: seq<Written>, alive: seq<bool>)
    requires |outs| == |ws| == |alive| == |cmds| && l.open
    ensures var e, k := WritesSpec(l, cmds, outs, ws, alive), Passed(cmds, ws, alive);
      && (e.ok <==> k == |cmds|)
      && (e.ok ==> e.outs == outs && e.link == WithRequests(l, cmds, k))
      && (!e.ok && cmds[k].CountOk() ==> e.link == CLOSED_LINK)
      && (!e.ok && !cmds[k].CountOk() ==>
            e.outs == outs[k := Error(Local)] && e.link == WithRequests(l, cmds, k).(error := Local))
    decreases |cmds|
  {
    hide Cmd.OnWire, Cmd.CountOk, WithRequests;
    NoRequest(l, cmds);
    if cmds != [] && Passes(cmds[0], ws[0], alive[0]) {
      var m := WriteSpec(l, cmds[0], ws[0]).link;
      OpenWrites(m, cmds[1..], outs[1..], ws[1..], alive[1..]);
      OneMoreRequest(l, cmds, Passed(cmds[1..], ws[1..], alive[1..]));
    }
  }

  /** The writing half succeeds exactly when every part of it does, and then all requests are on the connection. */
  lemma PipeWritesExact(l: Link, cmds: seq<Cmd>, outs: seq<Output>, ws: seq<Written>, alive: seq<bool>)
    requires |outs| == |ws| == |alive| == |cmds|
    ensures var e := WritesSpec(l, cmds, outs, ws, alive);
      && (e.ok <==> WritesPass(l.open, cmds, ws, alive))
      && (e.ok ==> e.outs == outs && e.link == WithRequests(l, cmds, |cmds|))
  {
    hide WritesSpec, Passes;
    if l.open {
      OpenWrites(l, cmds, outs, ws, alive);
    } else if cmds != [] {
      ClosedWrites(l, cmds, outs, ws, alive);
    } else {
      NoWrites(l);
      NoRequest(l, cmds);
    }
  }

  lemma NoWrites(l: Link)
    ensures WritesSpec(l, [], [], [], []) == PipeEnd(l, true, [])
  {
  }

  /**
   * It fails on an open connection exactly when the first command that does not pass has a wrong
   * argument count. Then the commands before it have been written, with their replies to come.
   */
  lemma PipeWritesStopped(l: Link, cmds: seq<Cmd>, outs: seq<Output>, ws: seq<Written>, alive: seq<bool>)
    requires |outs| == |ws| == |alive| == |cmds|
    ensures var e, k := WritesSpec(l, cmds, outs, ws, alive), Passed(cmds, ws, alive);
      && (!e.ok && e.link.open <==> StopsHalfway(l.open, cmds, ws, alive))
      && (!e.ok && e.link.open ==>
            e.outs == outs[k := Error(Local)] && e.link == WithRequests(l, cmds, k).(error := Local))
  {
    hide WritesSpec, Passes;
    if l.open {
      OpenWrites(l, cmds, outs, ws, alive);
    } else if cmds != [] {
      ClosedWrites(l, cmds, outs, ws, alive);
    } else {
      NoWrites(l);
    }
  }

  // ---------- the reading half ----------

  predicate AllTrue(bs: seq<bool>) {
    forall k | 0 <= k < |bs| :: bs[k]
  }

  predicate TableCmds(cmds: seq<Cmd>) {
    forall k | 0 <= k < |cmds| :: InTable(cmds[k].info)
  }

  /** Everything about one reply at the front of the stream. */
  lemma ReadInFront(l: Link, info: CommandInfo, out: Output, r: Reply, rest: Bytes)
    requires l.unread == Print(r) + rest && Sendable(r) && InTable(info)
    ensures var e := ReadSpec(l, info, out);
      && (e.ok <==> Acceptable(info, l.tx, r))
      && (e.ok ==> e.link == l.(unread := rest, tx := ModeAfter(info.verb, l.tx)) && ReplyOf(e.out) == r)
      && (!e.ok ==> (e.link.open <==> l.open && RefusedBy(info, l.tx, r)))
      && (e.link.open ==> |e.link.unread| >= |rest| && (e.link.unread == rest <==> !Desyncs(info, l.tx, r)))
      && (r.RError? ==> !e.ok && e.out == Error(Server(r.text))
                        && e.link == l.(unread := rest, error := Server(r.text)))
      && (!e.ok && !r.RError? ==>
            e.out == if r.RArray? && SpecialArrays(info, l.tx) then out else Error(Local))
  {
    hide ReadReply, Interpret, Acceptable, RefusedBy, Desyncs, Print, Sendable, InTable, ReplyOf;
    ParsePrint(info, true, true, l.tx, r, rest);
    InterpretTop(info, l.tx, r);
    TopRefusal(info, l.tx, r);
    var v := Interpret(info, true, true, l.tx, r);
    if v.Refuse? {
      assert |v.residue + rest| == |v.residue| + |rest|;
      if v.residue == [] {
        assert v.residue + rest == rest;
      }
    }
    if r.RError? {
      ErrorIsRefused(info, l.tx, r);
    } else {
      NestedFailure(info, l.tx, r);
    }
  }

  /** A failure inside a special multi-bulk, and only that, is one that leaves the caller's output alone. */
  lemma NestedFailure(info: CommandInfo, tx: bool, r: Reply)
    requires InTable(info) && !r.RError?
    ensures var v := Interpret(info, true, true, tx, r);
      && (!v.Accept? ==> v.nested == (r.RArray? && SpecialArrays(info, tx)))
      && (v.Refuse? ==> v.nested)
  {
    hide InterpretAll;
  }

  lemma ErrorIsRefused(info: CommandInfo, tx: bool, r: Reply)
    requires r.RError?
    ensures Interpret(info, true, true, tx, r) == Refuse(r.text, [], tx, false)
  {
  }

  /** The mode after the first k replies are accepted. */
  function ModeAt(cmds: seq<Cmd>, tx: bool, k: nat): bool
    requires k <= |cmds|
    decreases k
  {
    if k == 0 then tx else ModeAt(cmds[1..], ModeAfter(cmds[0].info.verb, tx), k - 1)
  }

  /** The number of replies accepted, with a passed check after each, before the first that is not. */
  function Accepted(cmds: seq<Cmd>, tx: bool, rs: seq<Reply>, alive: seq<bool>): (k: nat)
    requires |rs| == |alive| == |cmds|
    ensures k <= |cmds|
  {
    if cmds == [] || !Acceptable(cmds[0].info, tx, rs[0]) || !alive[0] then 0
    else 1 + Accepted(cmds[1..], ModeAfter(cmds[0].info.verb, tx), rs[1..], alive[1..])
  }

  /** Up to k the outputs are the replies, after k they are as before. */
  predicate FilledTo(k: nat, outs: seq<Output>, outs': seq<Output>, rs: seq<Reply>) {
    && |outs| == |outs'| == |rs|
    && (forall j | 0 <= j < k && j < |rs| :: ReplyOf(outs'[j]) == rs[j])
    && (forall j | k < j < |rs| :: outs'[j] == outs[j])
  }

  lemma FilledOneMore(k: nat, outs: seq<Output>, out: Output, more: seq<Output>, rs: seq<Reply>)
    requires |outs| == |rs| > 0 && ReplyOf(out) == rs[0] && FilledTo(k, outs[1..], more, rs[1..])
    ensures FilledTo(k + 1, outs, [out] + more, rs)
  {
    hide ReplyOf;
    var all := [out] + more;
    assert forall j | 0 < j < |rs| :: all[j] == more[j - 1] && rs[j] == rs[1..][j - 1] && outs[j] == outs[1..][j - 1];
  }

  /** The end of the reading half when k replies are accepted, told from the replies. */
  predicate EndsAt(l: Link, cmds: seq<Cmd>, outs: seq<Output>, rs: seq<Reply>, rest: Bytes, k: nat, e: PipeEnd) {
    && |rs| == |outs| == |e.outs| == |cmds| && k <= |cmds|
    && (e.ok <==> k == |cmds|)
    && FilledTo(k, outs, e.outs, rs)
    && var tx := ModeAt(cmds, l.tx, k);
       if k == |cmds| then e.link == l.(unread := rest, tx := tx)
       else if rs[k].RError? then
         && e.outs[k] == Error(Server(rs[k].text))
         && e.link == l.(unread := PrintAll(rs[k + 1..]) + rest, tx := tx, error := Server(rs[k].text))
       else RefusedBy(cmds[k].info, tx, rs[k]) || e.link == CLOSED_LINK
  }

  lemma EndsOneLater(l: Link, r: ExecResult, cmds: seq<Cmd>, outs: seq<Output>, rs: seq<Reply>, rest: Bytes,
                     k: nat, e: PipeEnd)
    requires |rs| == |outs| == |cmds| > 0 && ReplyOf(r.out) == rs[0]
    requires r.link == l.(unread := r.link.unread, tx := ModeAfter(cmds[0].info.verb, l.tx))
    requires EndsAt(r.link, cmds[1..], outs[1..], rs[1..], rest, k, e)
    ensures EndsAt(l, cmds, outs, rs, rest, k + 1, Behind([r.out], e))
  {
    hide RefusedBy, ReplyOf, PrintAll, ModeAfter, FilledTo;
    FilledOneMore(k, outs, r.out, e.outs, rs);
    if k < |cmds[1..]| {
      assert rs[1..][k + 1..] == rs[k + 2..];
    }
  }

  /**
   * What the replies make of a pipeline: it succeeds exactly when all are accepted and all checks
   * passed. The commands before the first that fails hold their replies, those after it are
   * untouched; when it fails on an error line, that line is its output and exactly the replies
   * after it stay unread on the open connection.
   */
  lemma {:induction false} PipelineRefusal(l: Link, cmds: seq<Cmd>, outs: seq<Output>, alive: seq<bool>,
                                           rs: seq<Reply>, rest: Bytes)
    requires |outs| == |alive| == |rs| == |cmds| && TableCmds(cmds) && AllSendable(rs)
    requires l.open && l.unread == PrintAll(rs) + rest
    ensures EndsAt(l, cmds, outs, rs, rest, Accepted(cmds, l.tx, rs, alive), ReadsSpec(l, cmds, outs, alive))
    decreases |cmds|
  {
    hide ReadSpec, Acceptable, RefusedBy, ReplyOf, Print, PrintAll, Sendable, InTable, Desyncs, ModeAfter;
    PrintedHead(rs, rest);
    if cmds != [] {
      ReadInFront(l, cmds[0].info, outs[0], rs[0], PrintAll(rs[1..]) + rest);
      ClosedByRead(l, cmds[0].info, outs[0]);
      var r := ReadSpec(l, cmds[0].info, outs[0]);
      if r.ok && alive[0] {
        hide EndsAt;
        PipelineRefusal(r.link, cmds[1..], outs[1..], alive[1..], rs[1..], rest);
        EndsOneLater(l, r, cmds, outs, rs, rest, Accepted(cmds[1..], r.link.tx, rs[1..], alive[1..]),
                     ReadsSpec(r.link, cmds[1..], outs[1..], alive[1..]));
      }
    }
  }

  lemma ClosedByRead(l: Link, info: CommandInfo, out: Output)
    ensures var e := ReadSpec(l, info, out); l.open && !e.link.open ==> e.link == CLOSED_LINK
  {
    hide ReadReply;
  }

  /**
   * A pipeline whose replies lose its place: the first reply that is not accepted is refused
   * without closing, and more is still to come, of later replies or of the same one.
   */
  predicate LosesPlace(cmds: seq<Cmd>, tx: bool, rs: seq<Reply>, alive: seq<bool>)
    requires |alive| == |cmds|
    decreases |cmds|
  {
    && cmds != [] && rs != []
    && var info := cmds[0].info;
       if Acceptable(info, tx, rs[0]) then
         alive[0] && LosesPlace(cmds[1..], ModeAfter(info.verb, tx), rs[1..], alive[1..])
       else RefusedBy(info, tx, rs[0]) && ((|cmds| > 1 && |rs| > 1) || Desyncs(info, tx, rs[0]))
  }

  /** The reading half ends closed or with all replies read, exactly unless they lose its place. */
  lemma {:induction false} PipelineReads(l: Link, cmds: seq<Cmd>, outs: seq<Output>, alive: seq<bool>,
                                         rs: seq<Reply>, rest: Bytes)
    requires |outs| == |alive| == |rs| == |cmds| && TableCmds(cmds) && AllSendable(rs)
    requires l.open && l.unread == PrintAll(rs) + rest
    ensures var m := ReadsSpec(l, cmds, outs, alive).link;
      (!m.open || m.unread == rest) <==> !LosesPlace(cmds, l.tx, rs, alive)
    decreases |cmds|
  {
    hide ReadSpec, Acceptable, RefusedBy, ReplyOf, Print, PrintAll, Sendable, InTable, Desyncs, ModeAfter;
    PrintedHead(rs, rest);
    if cmds != [] {
      var tail := PrintAll(rs[1..]) + rest;
      ReadInFront(l, cmds[0].info, outs[0], rs[0], tail);
      var r := ReadSpec(l, cmds[0].info, outs[0]);
      if r.ok && alive[0] {
        PipelineReads(r.link, cmds[1..], outs[1..], alive[1..], rs[1..], rest);
      } else if |rs| > 1 {
        assert |tail| > |rest|;
      } else {
        PrintedHead(rs[1..], rest);
      }
    }
  }

  // ---------- both halves ----------

  /**
   * When exec_pipeline leaves replies of its own unread on an open connection: a wrong argument
   * count after the first command, or replies that lose its place.
   */
  predicate PipeLosesPlace(tx: bool, p: Pipe, rs: seq<Reply>) {
    var n := |p.cmds|;
    var k := Passed(p.cmds, p.ws, p.alive[..n]);
    if k < n then k > 0 && !p.cmds[k].CountOk() else LosesPlace(p.cmds, tx, rs, p.alive[n..])
  }

  /**
   * With one reply of the server for each command, a pipeline on an open connection ends closed
   * or with no reply outstanding to any request that it wrote, exactly unless it loses its place.
   */
  lemma PipelineFraming(l: Link, p: Pipe, rs: seq<Reply>, rest: Bytes)
    requires |rs| == |p.cmds| && TableCmds(p.cmds) && AllSendable(rs)
    requires l.open && l.unread == PrintAll(rs) + rest
    ensures var m, k := PipeSpec(l, p).link, Passed(p.cmds, p.ws, p.alive[..|p.cmds|]);
      (!m.open || m.unread == PrintAll(rs[k..]) + rest) <==> !PipeLosesPlace(l.tx, p, rs)
  {
    hide WritesSpec, ReadsSpec, LosesPlace, PrintAll, AllSendable, TableCmds, Passes;
    var n := |p.cmds|;
    var k := Passed(p.cmds, p.ws, p.alive[..n]);
    OpenWrites(l, p.cmds, p.outs, p.ws, p.alive[..n]);
    if k == n {
      var w := PipeWrites(l, p);
      PipelineReads(w.link, p.cmds, w.outs, p.alive[n..], rs, rest);
      PrintedHead(rs[n..], rest);
    } else if k == 0 {
      assert rs[0..] == rs;
    } else {
      ShorterTail(rs, k);
    }
  }

  /** The three ways to lose it, each at its smallest: an error, a wrong count, and an error inside the last reply. */
  lemma PipelinesThatLosePlace(a: Cmd, b: Cmd, exec: Cmd, text: Bytes, r: Reply, tx: bool)
    requires a.CountOk() && exec.CountOk() && InTable(exec.info) && exec.info.verb.Exec?
    ensures b.CountOk() ==> PipeLosesPlace(tx, TwoSent(a, b), [RError(text), r])
    ensures !b.CountOk() ==> PipeLosesPlace(tx, TwoSent(a, b), [r, r])
    ensures PipeLosesPlace(tx, PipeCall([exec], [NoOutput], [AllSent], [true, true]), [RArray([RError(text), r])])
  {
    hide Cmd.CountOk;
    ErrorThenMore(exec.info, tx, text, r);
  }

  lemma ErrorThenMore(info: CommandInfo, tx: bool, text: Bytes, r: Reply)
    requires InTable(info) && info.verb.Exec?
    ensures var x := RArray([RError(text), r]);
      !Acceptable(info, tx, x) && RefusedBy(info, tx, x) && Desyncs(info, tx, x)
  {
    var es := [RError(text), r];
    assert Leaves(RArray(es)) == LeavesAll(es) == Leaves(es[0]) + LeavesAll(es[1..]);
    assert FirstStop(Leaves(RArray(es))) == 0;
    assert !AllPlain(es) by {
      assert !Plain(es[0]);
    }
  }

  function TwoSent(a: Cmd, b: Cmd): Pipe {
    PipeCall([a, b], [NoOutput, NoOutput], [AllSent, AllSent], [true, true, true, true])
  }

  lemma {:induction false} ShorterTail(rs: seq<Reply>, k: nat)
    requires 0 < k <= |rs|
    ensures |PrintAll(rs[k..])| < |PrintAll(rs)|
    decreases k
  {
    hide Print;
    if k > 1 {
      ShorterTail(rs[1..], k - 1);
      assert rs[1..][k - 1..] == rs[k..];
    }
  }

  // ---------- servers ----------

  // A deterministic server that answers in order: the answer is a function of the requests so far.
  type Server = seq<seq<Bytes>> -> Reply

  ghost predicate Honest(server: Server) {
    forall h: seq<seq<Bytes>> :: Sendable(server(h))
  }

  function Serve(server: Server, history: seq<seq<Bytes>>, cmds: seq<Cmd>): (rs: seq<Reply>)
    ensures |rs| == |cmds|
    decreases |cmds|
  {
    if cmds == [] then []
    else
      var h := history + [cmds[0].Words()];
      [server(h)] + Serve(server, h, cmds[1..])
  }

  datatype SeqResult = SeqDone(outs: seq<Output>, tx: bool) | SeqFailed

  /** Running the commands one by one, each finding exactly its own reply on the stream. */
  function OneByOne(cmds: seq<Cmd>, server: Server, history: seq<seq<Bytes>>, tx: bool): SeqResult
    decreases |cmds|
  {
    if cmds == [] then SeqDone([], tx)
    else
      var h := history + [cmds[0].Words()];
      match ReadReply(cmds[0].info, true, true, tx, Print(server(h)))
      case Closed(_) => SeqFailed
      case Refused(_, _, _, _) => SeqFailed
      case Done(out, _, tx') =>
        match OneByOne(cmds[1..], server, h, tx')
        case SeqFailed => SeqFailed
        case SeqDone(outs, tx'') => SeqDone([out] + outs, tx'')
  }

  /** A reply at the front of a longer stream is read as it is alone, and exactly it is consumed. */
  lemma ReadAlone(l: Link, info: CommandInfo, out: Output, r: Reply, rest: Bytes)
    requires Sendable(r) && l.unread == Print(r) + rest
    ensures var e, q := ReadSpec(l, info, out), ReadReply(info, true, true, l.tx, Print(r));
      && (e.ok <==> q.Done?)
      && (e.ok ==> e.out == q.out && e.link == l.(unread := rest, tx := q.tx))
  {
    hide ReadReply, Interpret, Print, Sendable;
    ParsePrint(info, true, true, l.tx, r, rest);
    ParsePrint(info, true, true, l.tx, r, []);
    assert Print(r) + [] == Print(r);
  }

  /**
   * Against every deterministic in-order server, a pipeline whose checks pass succeeds exactly
   * when running the commands one by one does; then every output and the final mode agree and no
   * reply is left.
   */
  lemma {:induction false} PipelineMeaning(l: Link, cmds: seq<Cmd>, outs: seq<Output>, alive: seq<bool>,
                                           server: Server, history: seq<seq<Bytes>>)
    requires |outs| == |alive| == |cmds| && Honest(server)
    requires l.open && l.unread == PrintAll(Serve(server, history, cmds))
    ensures var e, q := ReadsSpec(l, cmds, outs, alive), OneByOne(cmds, server, history, l.tx);
      && (e.ok <==> AllTrue(alive) && q.SeqDone?)
      && (e.ok ==> e.outs == q.outs && e.link == l.(unread := [], tx := q.tx))
    decreases |cmds|
  {
    hide ReadReply, ReadSpec, Print;
    if cmds != [] {
      var h := history + [cmds[0].Words()];
      var tail := Serve(server, h, cmds[1..]);
      assert Serve(server, history, cmds)[1..] == tail;
      ReadAlone(l, cmds[0].info, outs[0], server(h), PrintAll(tail));
      var r := ReadSpec(l, cmds[0].info, outs[0]);
      assert AllTrue(alive) <==> alive[0] && AllTrue(alive[1..]);
      if r.ok {
        PipelineMeaning(r.link, cmds[1..], outs[1..], alive[1..], server, h);
      }
    }
  }

  /** Both halves against such a server. */
  lemma PipelineOutcome(l: Link, p: Pipe, server: Server, history: seq<seq<Bytes>>)
    requires Honest(server) && l.open && l.unread == PrintAll(Serve(server, history, p.cmds))
    ensures var e, q, n := PipeSpec(l, p), OneByOne(p.cmds, server, history, l.tx), |p.cmds|;
      && (e.ok <==> WritesPass(true, p.cmds, p.ws, p.alive[..n]) && AllTrue(p.alive[n..]) && q.SeqDone?)
      && (e.ok ==> e.outs == q.outs && e.link == WithRequests(l, p.cmds, n).(unread := [], tx := q.tx))
  {
    hide WritesSpec, ReadsSpec, OneByOne, Serve, PrintAll, WritesPass, AllTrue;
    var n := |p.cmds|;
    PipeWritesExact(l, p.cmds, p.outs, p.ws, p.alive[..n]);
    var w := PipeWrites(l, p);
    if w.ok {
      PipelineMeaning(w.link, p.cmds, w.outs, p.alive[n..], server, history);
    }
  }

  lemma {:induction false} ServedSendable(server: Server, history: seq<seq<Bytes>>, cmds: seq<Cmd>)
    requires Honest(server)
    ensures AllSendable(Serve(server, history, cmds))
    decreases |cmds|
  {
    hide Sendable;
    if cmds != [] {
      var h := history + [cmds[0].Words()];
      ServedSendable(server, h, cmds[1..]);
      assert Serve(server, history, cmds)[1..] == Serve(server, h, cmds[1..]);
    }
  }
}
