// Redis2 as functions: reconnection, database selection and transactions.
module SessionSpec {
  import opened Wire
  import opened Os
  import opened Decimal
  import opened Resp
  import opened Request
  import opened ReplyTheory
  import opened RoundTrip
  import opened Links

  type DbIndex = i: int | -0x8000_0000 <= i < 0x8000_0000

  const SELECT_INFO: CommandInfo := CommandInfo(Select, [83, 69, 76, 69, 67, 84], 1, KStatus)
  const MULTI_INFO: CommandInfo := CommandInfo(Multi, [77, 85, 76, 84, 73], 0, KStatus)
  const EXEC_INFO: CommandInfo := CommandInfo(Exec, [69, 88, 69, 67], 0, KSpecialMultiBulk)
  const DISCARD_INFO: CommandInfo := CommandInfo(Discard, [68, 73, 83, 67, 65, 82, 68], 0, KStatus)

  const MULTI_CMD: Cmd := Cmd(MULTI_INFO, [])
  const EXEC_CMD: Cmd := Cmd(EXEC_INFO, [])
  const DISCARD_CMD: Cmd := Cmd(DISCARD_INFO, [])

  function SelectCmd(index: DbIndex): Cmd {
    Cmd(SELECT_INFO, [PrintInt(index)])
  }

  /** The database that a server in database db serves once it has answered OK to these bytes. */
  function ServedDb(request: Bytes, db: int): int {
    match Decode(request)
    case None => db
    case Some(p) =>
      if |p.0| == 2 && p.0[0] == [83, 69, 76, 69, 67, 84] && Strtol(p.0[1]).Some? then Strtol(p.0[1]).value else db
  }

  // The client's fields, its connection, and the database that the server serves on that connection.
  datatype Sess = Sess(link: Link, serverDb: int, db: DbIndex, failure: bool, pending: seq<Cmd>)

  // What assure_connect finds: the answer of the is_open check, and the stream of a new connection, if one can be had.
  datatype Probe = Probe(alive: bool, stream: Option<Bytes>)

  datatype Outcome = Outcome(s: Sess, ok: bool)

  predicate StillOpen(l: Link, p: Probe) {
    l.open && p.alive
  }

  /** RedisProtocol::assure_connect. */
  function Relink(l: Link, p: Probe): Link {
    if StillOpen(l, p) then l
    else if p.stream.Some? then Link(true, p.stream.value, [], l.tx, l.error)
    else CLOSED_LINK
  }

  /** The connection that a command runs on; a new one starts in database 0. */
  function Connected(s: Sess, p: Probe): Sess {
    s.(link := Relink(s.link, p), serverDb := if StillOpen(s.link, p) then s.serverDb else 0)
  }

  function SelectAnswer(s: Sess, index: DbIndex, p: Probe, w: Written): ExecResult {
    ExecSpec(Relink(s.link, p), SelectCmd(index), NoOutput, w)
  }

  /** What the answer to SELECT does. The server switches, to what the request says, exactly when it answers +OK. */
  function AfterSelect(c: Sess, index: DbIndex, r: ExecResult): Outcome {
    if !r.ok then Outcome(c.(link := r.link), false)
    else if r.out == Status(OK) then
      Outcome(c.(link := r.link, serverDb := ServedDb(SelectCmd(index).OnWire(), c.serverDb), db := index,
                 failure := false), true)
    else Outcome(c.(link := r.link.(error := Local), db := index, failure := true), false)
  }

  /** Redis2::select. */
  function SelectSpec(s: Sess, index: DbIndex, p: Probe, w: Written): Outcome {
    var c := Connected(s, p);
    if !c.link.open then Outcome(c, false) else AfterSelect(c, index, SelectAnswer(s, index, p, w))
  }

  /** The client knows that it still has a database to select. */
  predicate MustSelect(s: Sess) {
    s.db != 0 && s.failure
  }

  /** The client on that connection: on_reset runs when it is a new one. */
  function Restored(s: Sess, p: Probe): Sess {
    var c := Connected(s, p);
    if StillOpen(s.link, p) || !c.link.open then c else c.(failure := c.db != 0 || c.failure, pending := [])
  }

  /** Redis2::assure_connect. */
  function AssureSpec(s: Sess, p: Probe, p': Probe, w: Written): Outcome {
    var d := Restored(s, p);
    if !d.link.open then Outcome(d, false)
    else if MustSelect(d) then SelectSpec(d, d.db, p', w)
    else Outcome(d, true)
  }

  /** A command that goes through assure_connect, up to the reply. */
  function CommandSpec(s: Sess, c: Cmd, out: Output, p: Probe, p': Probe, w: Written, w': Written): (Sess, ExecResult) {
    var a := AssureSpec(s, p, p', w);
    if !a.ok then (a.s, ExecResult(a.s.link, false, out))
    else
      var r := ExecSpec(a.s.link, c, out, w');
      (a.s.(link := r.link), r)
  }

  /** CHECK_STATUS_OK. */
  function StatusOk(s: Sess, r: ExecResult): Outcome {
    if r.ok && r.out != Status(OK) then Outcome(s.(link := r.link.(error := Local)), false)
    else Outcome(s.(link := r.link), r.ok)
  }

  /** Redis2::multi. */
  function MultiSpec(s: Sess, p: Probe, p': Probe, w: Written, w': Written): Outcome {
    var (s', r) := CommandSpec(s, MULTI_CMD, NoOutput, p, p', w, w');
    StatusOk(s', r)
  }

  /** add_command: a refused command is not appended. The form without a format string appends but returns false. */
  function AddSpec(s: Sess, c: Cmd, formatted: bool, p: Probe, w: Written): Outcome {
    if !StillOpen(s.link, p) then Outcome(s.(link := s.link.(error := Local)), false)
    else
      var r := ExecSpec(s.link, c, NoOutput, w);
      if !r.ok then Outcome(s.(link := r.link), false)
      else Outcome(s.(link := r.link, pending := s.pending + [c]), formatted)
  }

  /** convertible_2_mbulks. */
  predicate AllBulks(outs: seq<Output>) {
    forall k | 0 <= k < |outs| :: outs[k].Bulk? || outs[k].NilBulk?
  }

  /** convert: order and nils are kept. */
  function ItemsOf(outs: seq<Output>): (items: seq<Option<Bytes>>)
    requires AllBulks(outs)
    ensures |items| == |outs|
    ensures forall k | 0 <= k < |outs| :: FromBulk(items[k]) == outs[k]
  {
    if outs == [] then []
    else [if outs[0].Bulk? then Some(outs[0].bytes) else None] + ItemsOf(outs[1..])
  }

  /** An array of bulks only, inside an EXEC reply, is handed out as mbulks. */
  function Normalize(o: Output): Output {
    if o.SMBulk? && AllBulks(o.outs) then MBulk(ItemsOf(o.outs)) else o
  }

  datatype Finished = Finished(cmd: Cmd, out: Output)

  datatype TxOutcome = TxOutcome(s: Sess, ok: bool, results: seq<Finished>)

  function Pair(pending: seq<Cmd>, outs: seq<Output>): (results: seq<Finished>)
    requires |pending| == |outs|
    ensures |results| == |pending|
    ensures forall k | 0 <= k < |pending| :: results[k] == Finished(pending[k], Normalize(outs[k]))
  {
    seq(|pending|, k requires 0 <= k < |pending| => Finished(pending[k], Normalize(outs[k])))
  }

  /** Redis2::exec: an array of another size, or a nil one, keeps the pending list. */
  function ExecTxSpec(s: Sess, p: Probe, w: Written): TxOutcome {
    if !StillOpen(s.link, p) then TxOutcome(s.(link := s.link.(error := Local)), false, [])
    else
      var r := ExecSpec(s.link, EXEC_CMD, NoOutput, w);
      if !r.ok then TxOutcome(s.(link := r.link), false, [])
      else if r.out.SMBulk? && |r.out.outs| == |s.pending| then
        TxOutcome(s.(link := r.link, pending := []), true, Pair(s.pending, r.out.outs))
      else TxOutcome(s.(link := r.link.(error := Local)), false, [])
  }

  /** Redis2::discard. */
  function DiscardSpec(s: Sess, p: Probe, w: Written): Outcome {
    if !StillOpen(s.link, p) then Outcome(s.(link := s.link.(error := Local)), false)
    else
      var r := ExecSpec(s.link, DISCARD_CMD, NoOutput, w);
      if !r.ok then Outcome(s.(link := r.link), false)
      else if r.out == Status(OK) then Outcome(s.(link := r.link, pending := []), true)
      else Outcome(s.(link := r.link.(error := Local)), false)
  }

  // ---------- the selected database ----------

  /**
   * On an open connection the server is in database 0 when the client must select, and in the
   * client's database otherwise.
   */
  predicate InDb(s: Sess) {
    s.link.open ==> s.serverDb == if MustSelect(s) then 0 else s.db
  }

  lemma ShortIndex(index: DbIndex)
    ensures |PrintInt(index)| <= 11
  {
    var i: int := index;
    DigitsAtMost(if i < 0 then -i else i, 10);
  }

  /** The request that select sends is whole and names the index: a server that answers OK is in that database. */
  lemma SelectReaches(index: DbIndex, db: int)
    ensures ServedDb(SelectCmd(index).OnWire(), db) == index
  {
    hide Encode, Decode, PrintInt, Strtol;
    var words := SelectCmd(index).Words();
    assert words == [[83, 69, 76, 69, 67, 84], PrintInt(index)];
    ShortIndex(index);
    SelectIsShort(words);
    Int32Exact(|Encode(words)|);
    WholeWhenShort(Encode(words));
    RequestRoundTrip(words, []);
    assert Encode(words) + [] == Encode(words);
    ParsePrinted(0, index);
    assert ([0] + PrintInt(index))[1..] == PrintInt(index);
  }

  lemma SelectIsShort(words: seq<Bytes>)
    requires |words| == 2 && |words[0]| == 6 && |words[1]| <= 11
    ensures |Encode(words)| < 100
  {
    assert EncodeWords(words) == PrintBulk(words[0]) + (PrintBulk(words[1]) + EncodeWords(words[2..]));
    DigitsAtMost(2, 2);
    DigitsAtMost(6, 2);
    DigitsAtMost(|words[1]|, 2);
  }

  /** A select that finds the connection gone, reconnects by itself and is then refused. */
  predicate RefusedAfterReconnect(s: Sess, index: DbIndex, p: Probe, w: Written) {
    && !StillOpen(s.link, p)
    && p.stream.Some?
    && !SelectAnswer(s, index, p, w).ok
    && SelectAnswer(s, index, p, w).link.open
  }

  /** The server answers SELECT by +OK or by an error, never by another status. */
  predicate PlainSelect(s: Sess, index: DbIndex, p: Probe, w: Written) {
    SelectAnswer(s, index, p, w).ok ==> SelectAnswer(s, index, p, w).out == Status(OK)
  }

  /**
   * select keeps the invariant exactly unless it was refused after reconnecting by itself with a
   * selected database to restore.
   */
  lemma SelectKeepsDb(s: Sess, index: DbIndex, p: Probe, w: Written)
    requires InDb(s) && PlainSelect(s, index, p, w)
    ensures InDb(SelectSpec(s, index, p, w).s) <==>
            !(RefusedAfterReconnect(s, index, p, w) && s.db != 0 && !s.failure)
    ensures SelectSpec(s, index, p, w).ok ==>
              SelectSpec(s, index, p, w).s.serverDb == SelectSpec(s, index, p, w).s.db == index
  {
    hide ReadSpec, SelectCmd;
    SelectReaches(index, Connected(s, p).serverDb);
  }

  /**
   * The failing case: a client with any selected database that lost its connection and whose
   * select is refused on the new one. The next data command runs in database 0.
   */
  lemma RefusedSelectLosesDb(s: Sess, index: DbIndex, text: Bytes, rest: Bytes, cmd: Cmd)
    requires !s.link.open && s.db != 0 && !s.failure && NoCrlf(text) && cmd.CountOk()
    ensures var p := Probe(true, Some(Print(RError(text)) + rest));
      var t := SelectSpec(s, index, p, AllSent).s;
      && InDb(s) && PlainSelect(s, index, p, AllSent) && t.link.open && t.link.unread == rest && !InDb(t)
      && t.db == s.db && ExecutedIn(t, CData(cmd, p, p, AllSent, AllSent)) == Some(0)
  {
    hide ReadSpec, Print, Cmd.OnWire, SelectCmd;
    var p := Probe(true, Some(Print(RError(text)) + rest));
    SelectCount(index);
    ErrorReplyIsKept(WriteSpec(Relink(s.link, p), SelectCmd(index), AllSent).link, SELECT_INFO, NoOutput, text, rest);
  }

  lemma ExecOkIsOpen(l: Link, c: Cmd, out: Output, w: Written)
    ensures l.open && ExecSpec(l, c, out, w).ok ==> ExecSpec(l, c, out, w).link.open
  {
    hide ReadReply;
    if w.Lost? && c.CountOk() {
      LostEndsClosed(l, c, out, w);
    }
  }

  lemma AssureOkIsOpen(s: Sess, p: Probe, p': Probe, w: Written)
    ensures var a := AssureSpec(s, p, p', w); a.s.db == s.db && (a.ok ==> a.s.link.open)
  {
    hide ExecSpec;
    var c := Connected(s, p);
    ExecOkIsOpen(Relink(c.link, p'), SelectCmd(s.db), NoOutput, w);
  }

  /** After a successful assure_connect the connection is open, in the client's database, with nothing to select. */
  lemma AssureSelects(s: Sess, p: Probe, p': Probe, w: Written)
    requires InDb(s)
    ensures var a := AssureSpec(s, p, p', w);
      InDb(a.s) && a.s.db == s.db && (a.ok ==> a.s.link.open && a.s.serverDb == s.db && !MustSelect(a.s))
  {
    hide ExecSpec, SelectCmd, ServedDb;
    AssureOkIsOpen(s, p, p', w);
    SelectReaches(s.db, Connected(Restored(s, p), p').serverDb);
  }

  // What a run is made of.
  datatype Call =
    | CData(c: Cmd, p: Probe, p': Probe, w: Written, w': Written)
    | CMulti(p: Probe, p': Probe, w: Written, w': Written)
    | CAdd(c: Cmd, formatted: bool, p: Probe, w: Written)
    | CExec(p: Probe, w: Written)
    | CDiscard(p: Probe, w: Written)
    | CSelect(index: DbIndex, p: Probe, w: Written)
    | CClose

  function StepCall(s: Sess, c: Call): Sess {
    match c
    case CData(cmd, p, p', w, w') => CommandSpec(s, cmd, NoOutput, p, p', w, w').0
    case CMulti(p, p', w, w') => MultiSpec(s, p, p', w, w').s
    case CAdd(cmd, formatted, p, w) => AddSpec(s, cmd, formatted, p, w).s
    case CExec(p, w) => ExecTxSpec(s, p, w).s
    case CDiscard(p, w) => DiscardSpec(s, p, w).s
    case CSelect(index, p, w) => SelectSpec(s, index, p, w).s
    case CClose => s.(link := Link(false, [], [], false, s.link.error))
  }

  /**
   * The database in which the server executes, or queues for execution, the command of a call,
   * when the request reaches it.
   */
  function ExecutedIn(s: Sess, c: Call): Option<int> {
    match c
    case CData(cmd, p, p', w, w') =>
      var a := AssureSpec(s, p, p', w);
      if a.ok && cmd.CountOk() && w'.AllSent? then Some(a.s.serverDb) else None
    case CAdd(cmd, _, p, w) =>
      if StillOpen(s.link, p) && cmd.CountOk() && w.AllSent? then Some(s.serverDb) else None
    case _ => None
  }

  /**
   * Commands are not SELECT, which has its own call; the server answers SELECT plainly; no refusal
   * after a silent reconnection.
   */
  predicate CallOk(s: Sess, c: Call) {
    match c
    case CData(cmd, _, _, _, _) => !cmd.info.verb.Select?
    case CAdd(cmd, _, _, _) => !cmd.info.verb.Select?
    case CSelect(index, p, w) =>
      PlainSelect(s, index, p, w) && !(RefusedAfterReconnect(s, index, p, w) && s.db != 0 && !s.failure)
    case _ => true
  }

  predicate RunOk(s: Sess, calls: seq<Call>)
    decreases |calls|
  {
    calls == [] || (CallOk(s, calls[0]) && RunOk(StepCall(s, calls[0]), calls[1..]))
  }

  /** A data command runs in the client's database; an added one exactly when the client has nothing left to select. */
  predicate RanAsPromised(s: Sess, c: Call) {
    var e := ExecutedIn(s, c);
    e.Some? ==> if c.CAdd? then e.value == s.db <==> !MustSelect(s) else e.value == s.db
  }

  predicate AllAsPromised(s: Sess, calls: seq<Call>)
    decreases |calls|
  {
    calls == [] || (RanAsPromised(s, calls[0]) && AllAsPromised(StepCall(s, calls[0]), calls[1..]))
  }

  lemma StepKeepsDb(s: Sess, c: Call)
    requires InDb(s) && CallOk(s, c)
    ensures InDb(StepCall(s, c)) && RanAsPromised(s, c)
  {
    hide ExecSpec, AssureSpec, SelectSpec, PlainSelect, RefusedAfterReconnect, Normalize;
    match c
    case CData(cmd, p, p', w, w') =>
      AssureSelects(s, p, p', w);
      ExecKeepsClosed(AssureSpec(s, p, p', w).s.link, cmd, w');
    case CMulti(p, p', w, w') =>
      AssureSelects(s, p, p', w);
      ExecKeepsClosed(AssureSpec(s, p, p', w).s.link, MULTI_CMD, w');
    case CSelect(index, p, w) => SelectKeepsDb(s, index, p, w);
    case CAdd(cmd, _, _, w) => ExecKeepsClosed(s.link, cmd, w);
    case CExec(_, w) => ExecKeepsClosed(s.link, EXEC_CMD, w);
    case CDiscard(_, w) => ExecKeepsClosed(s.link, DISCARD_CMD, w);
    case CClose =>
  }

  lemma ExecKeepsClosed(l: Link, c: Cmd, w: Written)
    ensures ExecSpec(l, c, NoOutput, w).link.open ==> l.open
  {
    hide ReadReply;
  }

  /**
   * The selection invariant over every run of data commands, transactions, selects, closes and
   * connection losses: every executed data command runs in the client's database, and an added
   * command does exactly when db_index_ is 0 or db_index_select_failure_ is clear.
   */
  lemma {:induction false} CommandsRunInTheirDatabase(s: Sess, calls: seq<Call>)
    requires InDb(s) && RunOk(s, calls)
    ensures AllAsPromised(s, calls)
    decreases |calls|
  {
    hide StepCall, RanAsPromised, CallOk, InDb;
    if calls != [] {
      StepKeepsDb(s, calls[0]);
      CommandsRunInTheirDatabase(StepCall(s, calls[0]), calls[1..]);
    }
  }

  // ---------- added commands ----------

  /** No SELECT of this call was refused on a new connection that stayed open. */
  predicate Unrefused(s: Sess, c: Call) {
    match c
    case CData(_, p, p', w, _) => AssureSpec(s, p, p', w).ok || !AssureSpec(s, p, p', w).s.link.open
    case CMulti(p, p', w, _) => AssureSpec(s, p, p', w).ok || !AssureSpec(s, p, p', w).s.link.open
    case CSelect(index, p, w) =>
      StillOpen(s.link, p) || SelectSpec(s, index, p, w).ok || !SelectSpec(s, index, p, w).s.link.open
    case _ => true
  }

  predicate RunUnrefused(s: Sess, calls: seq<Call>)
    decreases |calls|
  {
    calls == [] || (Unrefused(s, calls[0]) && RunUnrefused(StepCall(s, calls[0]), calls[1..]))
  }

  /** Nothing left to select, on an open connection. */
  predicate Settled(s: Sess) {
    s.link.open ==> !MustSelect(s)
  }

  /** Every executed command of the run, added or not, runs in the client's database of that moment. */
  predicate AllInDb(s: Sess, calls: seq<Call>)
    decreases |calls|
  {
    calls == [] ||
    (var e := ExecutedIn(s, calls[0]);
     (e.Some? ==> e.value == s.db) && AllInDb(StepCall(s, calls[0]), calls[1..]))
  }

  /** A successful multi leaves nothing to select. */
  lemma MultiSettles(s: Sess, p: Probe, p': Probe, w: Written, w': Written)
    requires InDb(s) && MultiSpec(s, p, p', w, w').ok
    ensures Settled(MultiSpec(s, p, p', w, w').s) && InDb(MultiSpec(s, p, p', w, w').s)
  {
    hide ExecSpec, AssureSpec;
    AssureSelects(s, p, p', w);
  }

  lemma SelectKeepsSettled(s: Sess, index: DbIndex, p: Probe, w: Written)
    requires Settled(s) && PlainSelect(s, index, p, w)
    requires StillOpen(s.link, p) || SelectSpec(s, index, p, w).ok || !SelectSpec(s, index, p, w).s.link.open
    ensures Settled(SelectSpec(s, index, p, w).s)
  {
    hide ExecSpec;
  }

  lemma StepKeepsSettled(s: Sess, c: Call)
    requires InDb(s) && Settled(s) && CallOk(s, c) && Unrefused(s, c)
    ensures Settled(StepCall(s, c))
  {
    hide ExecSpec, AssureSpec, SelectSpec, PlainSelect, RefusedAfterReconnect, Normalize;
    match c
    case CData(cmd, p, p', w, w') =>
      AssureSelects(s, p, p', w);
      ExecKeepsClosed(AssureSpec(s, p, p', w).s.link, cmd, w');
    case CMulti(p, p', w, w') =>
      AssureSelects(s, p, p', w);
      ExecKeepsClosed(AssureSpec(s, p, p', w).s.link, MULTI_CMD, w');
    case CSelect(index, p, w) => SelectKeepsSettled(s, index, p, w);
    case CAdd(cmd, _, _, w) => ExecKeepsClosed(s.link, cmd, w);
    case CExec(_, w) => ExecKeepsClosed(s.link, EXEC_CMD, w);
    case CDiscard(_, w) => ExecKeepsClosed(s.link, DISCARD_CMD, w);
    case CClose =>
  }

  lemma {:induction false} SettledRun(s: Sess, calls: seq<Call>)
    requires InDb(s) && Settled(s) && RunOk(s, calls) && RunUnrefused(s, calls)
    ensures AllInDb(s, calls)
    decreases |calls|
  {
    hide StepCall, CallOk, Unrefused;
    if calls != [] {
      var c := calls[0];
      StepKeepsDb(s, c);
      StepKeepsSettled(s, c);
      AddedWhenSettled(s, c);
      SettledRun(StepCall(s, c), calls[1..]);
    }
  }

  lemma AddedWhenSettled(s: Sess, c: Call)
    requires InDb(s) && Settled(s) && RanAsPromised(s, c)
    ensures var e := ExecutedIn(s, c); e.Some? ==> e.value == s.db
  {
    hide AssureSpec;
  }

  /**
   * After a successful multi, with no select refused since, every command runs in the client's
   * database, added ones too.
   */
  lemma AddsAfterMulti(s: Sess, p: Probe, p': Probe, w: Written, w': Written, calls: seq<Call>)
    requires InDb(s) && MultiSpec(s, p, p', w, w').ok
    requires RunOk(MultiSpec(s, p, p', w, w').s, calls) && RunUnrefused(MultiSpec(s, p, p', w, w').s, calls)
    ensures AllInDb(MultiSpec(s, p, p', w, w').s, calls)
  {
    hide MultiSpec;
    MultiSettles(s, p, p', w, w');
    SettledRun(MultiSpec(s, p, p', w, w').s, calls);
  }

  const QUEUED: Bytes := [81, 85, 69, 85, 69, 68]

  /**
   * Without that, added commands can run elsewhere: a new client with any nonzero database whose
   * first data command fails because SELECT is refused, and which then adds a command.
   */
  lemma AddInWrongDatabase(db: DbIndex, cmd: Cmd, add: Cmd, text: Bytes, answer: Bytes, rest: Bytes)
    requires db != 0 && add.CountOk() && InTable(add.info) && add.info.verb.Common? && add.info.kind == KStatus
    requires NoCrlf(text) && NoCrlf(answer)
    ensures var s := Sess(CLOSED_LINK, 0, db, true, []);
      var p := Probe(true, Some(Print(RError(text)) + (Print(RStatus(answer)) + rest)));
      var t := StepCall(s, CData(cmd, p, p, AllSent, AllSent));
      && InDb(s) && InDb(t) && t.db == db && t.link.open
      && ExecutedIn(t, CAdd(add, true, p, AllSent)) == Some(0)
      && AddSpec(t, add, true, p, AllSent).ok
  {
    hide ReadReply, Print, Cmd.OnWire, SelectCmd;
    var s := Sess(CLOSED_LINK, 0, db, true, []);
    var more := Print(RStatus(answer)) + rest;
    var p := Probe(true, Some(Print(RError(text)) + more));
    assert SelectCmd(db).CountOk() && SelectCmd(db).info == SELECT_INFO by { SelectCount(db); }
    ErrorReplyIsKept(WriteSpec(Relink(s.link, p), SelectCmd(db), AllSent).link, SELECT_INFO, NoOutput, text, more);
    ParsePrint(add.info, true, true, false, RStatus(answer), rest);
  }

  lemma SelectCount(index: DbIndex)
    ensures SelectCmd(index).CountOk() && SelectCmd(index).info == SELECT_INFO
  {
  }

  /** An error reply is stored as the output and the last error, and the connection goes on at the next reply. */
  lemma ErrorReplyIsKept(l: Link, info: CommandInfo, out: Output, text: Bytes, rest: Bytes)
    requires l.unread == Print(RError(text)) + rest && NoCrlf(text)
    ensures ReadSpec(l, info, out) == ExecResult(l.(unread := rest, error := Server(text)), false, Error(Server(text)))
  {
    hide ReadReply, Print;
    ParsePrint(info, true, true, l.tx, RError(text), rest);
    assert [] + rest == rest;
  }

  /** A status reply, for commands that accept one. */
  lemma StatusReply(l: Link, info: CommandInfo, out: Output, text: Bytes, rest: Bytes)
    requires l.unread == Print(RStatus(text)) + rest && NoCrlf(text)
    requires InTable(info) && Acceptable(info, l.tx, RStatus(text))
    ensures ReadSpec(l, info, out)
         == ExecResult(l.(unread := rest, tx := StatusMode(info.verb, l.tx)), true, Status(text))
  {
    hide ReadReply, Print;
    ParsePrint(info, true, true, l.tx, RStatus(text), rest);
  }

  /** SELECT inside MULTI is queued, not answered by OK: the call fails but the client has moved to the new index. */
  lemma QueuedSelectMisleads(s: Sess, index: DbIndex, rest: Bytes, p: Probe)
    requires StillOpen(s.link, p) && s.link.unread == Print(RStatus(QUEUED)) + rest
    ensures var o := SelectSpec(s, index, p, AllSent);
      && !o.ok && o.s.db == index && o.s.failure && o.s.serverDb == s.serverDb && o.s.link.open
      && (InDb(o.s) <==> s.serverDb == 0)
  {
    hide ReadSpec, Print;
    SelectCount(index);
    StatusReply(WriteSpec(s.link, SelectCmd(index), AllSent).link, SELECT_INFO, NoOutput, QUEUED, rest);
  }

  /**
   * An explicit connect does not run on_reset: it keeps the invariant exactly for clients that
   * have nothing to restore or know it.
   */
  lemma ExplicitConnectLosesDb(s: Sess, stream: Bytes)
    ensures InDb(s.(link := Link(true, stream, [], s.link.tx, s.link.error), serverDb := 0)) <==> s.db == 0 || s.failure
  {
  }
}
