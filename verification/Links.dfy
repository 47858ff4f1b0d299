// A connection as the layers above it see it, and what each protocol operation does to it.
module Links {
  import opened Wire
  import opened Os
  import opened Resp
  import opened Request

  // What a connection looks like from above: its streams, not its chunks.
  datatype Link = Link(open: bool, unread: Bytes, sent: Bytes, tx: bool, error: Failure)

  const CLOSED_LINK: Link := Link(false, [], [], false, Local)

  // A command and its arguments, as a value.
  datatype Cmd = Cmd(info: CommandInfo, args: seq<Bytes>) {
    function Words(): seq<Bytes> {
      [info.name] + args
    }

    predicate CountOk() {
      ArgcOk(info.argc, |args|)
    }

    /** The bytes that a completed write of this command puts on the connection. */
    function OnWire(): Bytes {
      Cut(Encode(Words()))
    }
  }

  /**
   * A request holds the command's name and its arguments in order: the client's own readers give
   * them back, and refuse exactly the requests with an empty one.
   */
  lemma RequestHoldsCommand(c: Cmd, rest: Bytes)
    requires Fitting([c.info.name] + c.args)
    ensures Decode(Encode(c.Words()) + rest) ==
            if c.info.name != [] && NonEmpty(c.args) then Some(([c.info.name] + c.args, rest)) else None
  {
    hide Encode, Decode, Fitting;
    RequestRoundTrip([c.info.name] + c.args, rest);
    var words := [c.info.name] + c.args;
    assert NonEmpty(words) <==> c.info.name != [] && NonEmpty(c.args) by {
      assert words[0] == c.info.name && words[1..] == c.args;
      assert forall k | 0 < k < |words| :: words[k] == c.args[k - 1];
      assert forall k | 0 <= k < |c.args| :: c.args[k] == words[k + 1];
    }
  }

  function AfterParse(l: Link, p: Parse): Link {
    match p
    case Done(_, rest, tx) => l.(unread := rest, tx := tx)
    case Refused(text, rest, tx, _) => l.(unread := rest, tx := tx, error := Server(text))
    case Closed(_) => CLOSED_LINK
  }

  /** The caller's output after a reply; a failure inside an array leaves it as it was. */
  function OutAfter(out: Output, p: Parse): Output {
    match p
    case Done(o, _, _) => o
    case Refused(text, _, _, nested) => if nested then out else Error(Server(text))
    case Closed(nested) => if nested then out else Error(Local)
  }

  // What became of a write: all sent, or the connection lost, with or without an error code.
  datatype Written = AllSent | Lost(reported: bool)

  /** The fate of a command's write is decided by the connection and the kernel alone. */
  function WriteFate(open: bool, c: Cmd, env: WriteEnv): Written {
    var line := Encode(c.Words());
    if open && WriteCompletes(line, env.events) then AllSent else Lost(WriteCode(open, line, env) != 0)
  }

  /** A request below 4 GiB that is reported as sent has been sent whole. */
  lemma SentWhole(open: bool, c: Cmd, env: WriteEnv)
    requires WriteFate(open, c, env).AllSent? && |Encode(c.Words())| < TWO_32
    ensures c.OnWire() == Encode(c.Words())
  {
    var line := Encode(c.Words());
    Int32Exact(|line|);
    WholeWhenShort(line);
  }

  datatype WriteResult = WriteResult(link: Link, ok: bool)

  /** write_command. */
  function WriteSpec(l: Link, c: Cmd, w: Written): WriteResult {
    if !c.CountOk() then WriteResult(l.(error := Local), false)
    else
      match w
      case AllSent => WriteResult(l.(sent := l.sent + c.OnWire()), true)
      case Lost(true) => WriteResult(CLOSED_LINK, false)
      case Lost(false) => WriteResult(l.(open := false, unread := [], sent := []), true)
  }

  lemma WriteKeepsOpen(l: Link, c: Cmd, w: Written)
    ensures WriteSpec(l, c, w).link.open ==> l.open
  {
  }

  datatype ExecResult = ExecResult(link: Link, ok: bool, out: Output)

  /** read_reply. */
  function ReadSpec(l: Link, info: CommandInfo, out: Output): ExecResult {
    var p := ReadReply(info, true, true, l.tx, l.unread);
    ExecResult(AfterParse(l, p), p.Done?, OutAfter(out, p))
  }

  /** exec_command. */
  function ExecSpec(l: Link, c: Cmd, out: Output, w: Written): ExecResult {
    var r := WriteSpec(l, c, w);
    if !r.ok then ExecResult(r.link, false, Error(Local)) else ReadSpec(r.link, c.info, out)
  }

  lemma NothingToRead(info: CommandInfo, tx: bool)
    ensures ReadReply(info, true, true, tx, []) == Closed(false)
  {
    assert SplitLine([]).None?;
  }

  /** A command whose write is lost ends closed, with or without an error code. */
  lemma LostEndsClosed(l: Link, c: Cmd, out: Output, w: Written)
    requires c.CountOk() && w.Lost?
    ensures ExecSpec(l, c, out, w) == ExecResult(CLOSED_LINK, false, Error(Local))
  {
    hide ReadReply;
    NothingToRead(c.info, l.tx);
  }
}
