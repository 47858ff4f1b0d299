// The reply parser of RedisProtocol as a function of the unconsumed stream.
module Resp {
  import opened Wire
  import opened Decimal

  // kReplyType
  datatype Kind = KNone | KStatus | KError | KInteger | KBulk | KMultiBulk | KSpecialMultiBulk | KDepends

  // The commands that the protocol and session layers single out.
  datatype Verb = Multi | Discard | Exec | Select | Common

  datatype CommandInfo = CommandInfo(verb: Verb, name: Bytes, argc: int, kind: Kind)

  // error_: either the text of a '-' line or a message made by the client.
  datatype Failure = Server(text: Bytes) | Local

  // RedisOutput: the tagged union of a reply, nil bulks and nil arrays kept apart.
  datatype Output =
    | NoOutput
    | Status(text: Bytes)
    | Error(failure: Failure)
    | Integer(i: int)
    | Bulk(bytes: Bytes)
    | NilBulk
    | MBulk(items: seq<Option<Bytes>>)
    | NilMBulk
    | SMBulk(outs: seq<Output>)
    | NilSMBulk

  const OK: Bytes := [79, 75]

  /** What the command table says about the commands singled out. */
  predicate InTable(info: CommandInfo) {
    && (info.verb.Multi? || info.verb.Discard? || info.verb.Select? ==> info.kind == KStatus)
    && (info.verb.Exec? ==> info.kind == KSpecialMultiBulk)
  }

  // A reply that is read: complete, refused by an error line, or the connection is closed.
  // 'nested' says that the failure happened inside an array, where the outer output is not set.
  datatype Parse =
    | Done(out: Output, rest: Bytes, tx: bool)
    | Refused(text: Bytes, rest: Bytes, tx: bool, nested: bool)
    | Closed(nested: bool)

  datatype ParseSeq =
    | AllDone(outs: seq<Output>, rest: Bytes, tx: bool)
    | SeqRefused(text: Bytes, rest: Bytes, tx: bool)
    | SeqClosed

  predicate Checking(info: CommandInfo, check: bool) {
    check && info.kind != KDepends
  }

  /** The reply type a command expects; common commands in a transaction are answered by a status. */
  function Expected(info: CommandInfo, check: bool, tx: bool): Kind {
    if Checking(info, check) && tx && (info.verb.Select? || info.verb.Common?) then KStatus else info.kind
  }

  /** transaction_mode_ after a '+' line. */
  function StatusMode(verb: Verb, tx: bool): bool {
    if !tx && verb.Multi? then true else if tx && verb.Discard? then false else tx
  }

  /** transaction_mode_ after a complete special multi-bulk. */
  function ArrayMode(verb: Verb, top: bool, tx: bool): bool {
    if tx && verb.Exec? && top then false else tx
  }

  /** read_bulk_2: the body announced by a '$' header; None closes the connection. */
  function ReadBulk2(header: Bytes, s: Bytes): (r: Option<(Option<Bytes>, Bytes)>)
    requires header != []
    ensures r.Some? ==> |r.value.1| <= |s|
  {
    match ParseInteger(header)
    case None => None
    case Some(i) =>
      if i < -1 || i == 0 then None
      else if i == -1 then Some((None, s))
      else
        match TakeBlock(s, i)
        case None => None
        case Some(p) => Some((Some(p.0), p.1))
  }

  /** read_bulk: one element of a multi-bulk, which must be a bulk. */
  function ReadBulk(s: Bytes): (r: Option<(Option<Bytes>, Bytes)>)
    ensures r.Some? ==> |r.value.1| + 3 <= |s|
  {
    match SplitLine(s)
    case None => None
    case Some(p) => if p.0 == [] || p.0[0] != DOLLAR then None else ReadBulk2(p.0, p.1)
  }

  function ReadBulks(n: int, s: Bytes): (r: Option<(seq<Option<Bytes>>, Bytes)>)
    ensures r.Some? ==> |r.value.1| <= |s|
    decreases |s|
  {
    if n <= 0 then Some(([], s))
    else
      match ReadBulk(s)
      case None => None
      case Some(p) =>
        match ReadBulks(n - 1, p.1)
        case None => None
        case Some(q) => Some(([p.0] + q.0, q.1))
  }

  /** read_multi_bulk_2: the elements announced by a '*' header; the inner None is the nil array. */
  function ReadMultiBulk2(header: Bytes, s: Bytes): (r: Option<(Option<seq<Option<Bytes>>>, Bytes)>)
    requires header != []
    ensures r.Some? ==> |r.value.1| <= |s|
  {
    match ParseInteger(header)
    case None => None
    case Some(i) =>
      if i < -1 then None
      else if i == -1 then Some((None, s))
      else
        match ReadBulks(i, s)
        case None => None
        case Some(p) => Some((Some(p.0), p.1))
  }

  function FromBulk(b: Option<Bytes>): Output {
    match b case None => NilBulk case Some(x) => Bulk(x)
  }

  function FromBulks(b: Option<seq<Option<Bytes>>>): Output {
    match b case None => NilMBulk case Some(x) => MBulk(x)
  }

  function FromElements(verb: Verb, top: bool, p: ParseSeq): Parse {
    match p
    case AllDone(outs, rest, tx) => Done(SMBulk(outs), rest, ArrayMode(verb, top, tx))
    case SeqRefused(text, rest, tx) => Refused(text, rest, tx, true)
    case SeqClosed => Closed(true)
  }

  /** __read_reply. Every completed or refused reply consumes at least a nonempty line and its delimiter. */
  function ReadReply(info: CommandInfo, check: bool, top: bool, tx: bool, s: Bytes): (p: Parse)
    ensures !p.Closed? ==> |p.rest| + 3 <= |s|
    decreases |s|, 0
  {
    match SplitLine(s)
    case None => Closed(false)
    case Some(lr) => if lr.0 == [] then Closed(false) else ReadBody(info, check, top, tx, lr.0, lr.1)
  }

  /** The switch of __read_reply on the first byte of a nonempty line. */
  function ReadBody(info: CommandInfo, check: bool, top: bool, tx: bool, line: Bytes, rest: Bytes): (p: Parse)
    requires line != []
    ensures !p.Closed? ==> |p.rest| <= |rest|
    decreases |rest|, 2
  {
    var chk := Checking(info, check);
    var exp := Expected(info, check, tx);
    if line[0] == MINUS then Refused(line[1..], rest, tx, false)
    else if line[0] == PLUS then
      if chk && exp != KStatus then Closed(false)
      else Done(Status(line[1..]), rest, StatusMode(info.verb, tx))
    else if line[0] == COLON then
      if chk && exp != KInteger then Closed(false)
      else
        match ParseInteger(line)
        case None => Closed(false)
        case Some(i) => Done(Integer(i), rest, tx)
    else if line[0] == DOLLAR then
      if chk && exp != KBulk then Closed(false)
      else
        match ReadBulk2(line, rest)
        case None => Closed(false)
        case Some(b) => Done(FromBulk(b.0), b.1, tx)
    else if line[0] == STAR then
      if chk && exp != KMultiBulk && exp != KSpecialMultiBulk then Closed(false)
      else if exp == KMultiBulk then
        match ReadMultiBulk2(line, rest)
        case None => Closed(false)
        case Some(b) => Done(FromBulks(b.0), b.1, tx)
      else SpecialBody(info, top, tx, line, rest)
    else Closed(false)
  }

  /** The part of __read_reply that treats an array as a special multi-bulk. */
  function SpecialBody(info: CommandInfo, top: bool, tx: bool, line: Bytes, rest: Bytes): (p: Parse)
    requires line != []
    ensures !p.Closed? ==> |p.rest| <= |rest|
    decreases |rest|, 1, 1
  {
    match ParseInteger(line)
    case None => Closed(false)
    case Some(n) =>
      if n == -1 then Done(NilSMBulk, rest, ArrayMode(info.verb, top, tx))
      else FromElements(info.verb, top, ReadElements(info, n, tx, rest))
  }

  /** The loop over the children of a special multi-bulk; a count below 1 reads nothing. */
  function ReadElements(info: CommandInfo, n: int, tx: bool, s: Bytes): (p: ParseSeq)
    ensures !p.SeqClosed? ==> |p.rest| <= |s|
    decreases |s|, 1, 0
  {
    if n <= 0 then AllDone([], s, tx)
    else
      match ReadReply(info, false, false, tx, s)
      case Closed(_) => SeqClosed
      case Refused(text, rest, tx', _) => SeqRefused(text, rest, tx')
      case Done(out, rest, tx') => Prepend([out], ReadElements(info, n - 1, tx', rest))
  }

  function Prepend(outs: seq<Output>, p: ParseSeq): ParseSeq {
    match p
    case AllDone(more, rest, tx) => AllDone(outs + more, rest, tx)
    case SeqRefused(_, _, _) => p
    case SeqClosed => p
  }

  // ---------- transaction_mode_ and nesting ----------

  /** Elements inside an array never change transaction_mode_, however deep they nest. */
  lemma {:induction false} NestedKeepsMode(info: CommandInfo, tx: bool, s: Bytes)
    requires !info.verb.Multi? && !info.verb.Discard?
    ensures var p := ReadReply(info, false, false, tx, s); !p.Closed? ==> p.tx == tx
    decreases |s|, 0
  {
    hide SplitLine, SpecialBody, ReadBulk2, ReadMultiBulk2;
    var lr := SplitLine(s);
    if lr.Some? && lr.value.0 != [] {
      SpecialKeepsMode(info, false, tx, lr.value.0, lr.value.1);
    }
  }

  lemma {:induction false} SpecialKeepsMode(info: CommandInfo, top: bool, tx: bool, line: Bytes, rest: Bytes)
    requires !info.verb.Multi? && !info.verb.Discard? && line != []
    ensures var p := SpecialBody(info, top, tx, line, rest);
      && (p.Refused? ==> p.tx == tx)
      && (p.Done? ==> p.tx == ArrayMode(info.verb, top, tx) && (p.out.SMBulk? || p.out.NilSMBulk?))
    decreases |rest|, 1, 1
  {
    hide ReadElements, ParseInteger;
    var n := ParseInteger(line);
    if n.Some? {
      ElementsKeepMode(info, n.value, tx, rest);
    }
  }

  lemma {:induction false} ElementsKeepMode(info: CommandInfo, n: int, tx: bool, s: Bytes)
    requires !info.verb.Multi? && !info.verb.Discard?
    ensures var p := ReadElements(info, n, tx, s); !p.SeqClosed? ==> p.tx == tx
    decreases |s|, 1, 0
  {
    hide ReadReply;
    if n > 0 {
      NestedKeepsMode(info, tx, s);
      var p := ReadReply(info, false, false, tx, s);
      if p.Done? {
        ElementsKeepMode(info, n - 1, p.tx, p.rest);
      }
    }
  }

  /** What a top-level reply does to transaction_mode_, for every command of the table. */
  lemma ModeAfterReply(info: CommandInfo, tx: bool, s: Bytes)
    requires InTable(info)
    ensures var p := ReadReply(info, true, true, tx, s);
      && (p.Refused? ==> p.tx == tx)
      && (p.Done? && info.verb.Multi? ==> p.out.Status? && p.tx)
      && (p.Done? && info.verb.Discard? ==> p.out.Status? && !p.tx)
      && (p.Done? && info.verb.Exec? ==> (p.out.SMBulk? || p.out.NilSMBulk?) && !p.tx)
      && (p.Done? && (info.verb.Common? || info.verb.Select?) ==> p.tx == tx)
  {
    hide SplitLine, SpecialBody, ReadBulk2, ReadMultiBulk2;
    var lr := SplitLine(s);
    if lr.Some? && lr.value.0 != [] && !info.verb.Multi? && !info.verb.Discard? {
      SpecialKeepsMode(info, true, tx, lr.value.0, lr.value.1);
    }
  }
}
