// Consequences of reading trees: the reply round trip and framing safety.
module RoundTrip {
  import opened Wire
  import opened Decimal
  import opened Resp
  import opened ReplyTheory

  // ---------- the reply round trip ----------

  /** No error line and no empty bulk, at any depth. */
  predicate Plain(r: Reply)
    decreases r, 1
  {
    match r
    case RError(_) => false
    case RBulk(b) => b != []
    case RArray(es) => AllPlain(es)
    case _ => true
  }

  predicate AllPlain(rs: seq<Reply>)
    decreases rs, 0
  {
    rs == [] || (Plain(rs[0]) && AllPlain(rs[1..]))
  }

  /** The tree that an output stands for, whichever of the two array forms holds it. */
  function ReplyOf(o: Output): Reply
    decreases o, 1
  {
    match o
    case NoOutput => RNilBulk
    case Status(t) => RStatus(t)
    case Error(f) => RError(if f.Server? then f.text else [])
    case Integer(i) => RInteger(i)
    case Bulk(b) => RBulk(b)
    case NilBulk => RNilBulk
    case MBulk(items) => RArray(seq(|items|, k requires 0 <= k < |items| => ItemReply(items[k])))
    case NilMBulk => RNilArray
    case SMBulk(outs) => RArray(RepliesOf(outs))
    case NilSMBulk => RNilArray
  }

  function RepliesOf(outs: seq<Output>): seq<Reply>
    decreases outs, 0
  {
    if outs == [] then [] else [ReplyOf(outs[0])] + RepliesOf(outs[1..])
  }

  function ItemReply(item: Option<Bytes>): Reply {
    if item.None? then RNilBulk else RBulk(item.value)
  }

  /** In transaction mode the server only acknowledges a common command that has a fixed reply type. */
  predicate OnlyAcknowledged(info: CommandInfo, tx: bool) {
    tx && (info.verb.Common? || info.verb.Select?) && info.kind != KDepends
  }

  /** An array is read as a special multi-bulk, whose elements may be of any type. */
  predicate SpecialArrays(info: CommandInfo, tx: bool) {
    info.kind == KDepends || (info.kind == KSpecialMultiBulk && !OnlyAcknowledged(info, tx))
  }

  /** When a command accepts a reply, told from the tree and the command's entry in the table alone. */
  predicate Acceptable(info: CommandInfo, tx: bool, r: Reply) {
    if OnlyAcknowledged(info, tx) then r.RStatus?
    else
      match info.kind
      case KStatus => r.RStatus?
      case KInteger => r.RInteger?
      case KBulk => PlainBulk(r)
      case KMultiBulk => r.RNilArray? || (r.RArray? && PlainBulks(r.elems))
      case KSpecialMultiBulk => r.RNilArray? || (r.RArray? && AllPlain(r.elems))
      case KDepends => Plain(r)
      case KNone => false
      case KError => false
  }

  /** Arrays are held as mbulks exactly for commands whose reply type is a multi-bulk. */
  predicate Form(info: CommandInfo, o: Output) {
    && !o.NoOutput? && !o.Error?
    && (o.MBulk? || o.NilMBulk? ==> info.kind == KMultiBulk)
    && (o.SMBulk? || o.NilSMBulk? ==> info.kind != KMultiBulk)
  }

  /** transaction_mode_ after a reply is accepted. */
  function ModeAfter(verb: Verb, tx: bool): bool {
    match verb
    case Multi => true
    case Discard => false
    case Exec => false
    case _ => tx
  }

  lemma {:induction false} InterpretNested(info: CommandInfo, tx: bool, r: Reply)
    requires info.kind != KMultiBulk && !info.verb.Multi? && !info.verb.Discard?
    ensures var v := Interpret(info, false, false, tx, r);
      && (v.Accept? <==> Plain(r))
      && (v.Accept? ==> ReplyOf(v.out) == r && v.tx == tx)
    decreases r, 1
  {
    hide InterpretAll;
    if r.RArray? {
      InterpretNestedAll(info, tx, r.elems);
    }
  }

  lemma {:induction false} InterpretNestedAll(info: CommandInfo, tx: bool, rs: seq<Reply>)
    requires info.kind != KMultiBulk && !info.verb.Multi? && !info.verb.Discard?
    ensures var v := InterpretAll(info, tx, rs);
      && (v.AcceptAll? <==> AllPlain(rs))
      && (v.AcceptAll? ==> RepliesOf(v.outs) == rs && v.tx == tx)
    decreases rs, 0
  {
    hide Interpret, Print, PrintAll;
    if rs != [] {
      InterpretNested(info, tx, rs[0]);
      InterpretNestedAll(info, tx, rs[1..]);
      assert rs == [rs[0]] + rs[1..];
      var v := Interpret(info, false, false, tx, rs[0]);
      if v.Accept? {
        var w := InterpretAll(info, tx, rs[1..]);
        if w.AcceptAll? {
          assert ([v.out] + w.outs)[1..] == w.outs;
        }
      }
    }
  }

  lemma BulkItemsReplies(es: seq<Reply>)
    requires PlainBulks(es)
    ensures ReplyOf(MBulk(BulkItems(es))) == RArray(es)
  {
    var items := BulkItems(es);
    var back := seq(|items|, k requires 0 <= k < |items| => ItemReply(items[k]));
    assert back == es;
  }

  lemma InterpretTop(info: CommandInfo, tx: bool, r: Reply)
    requires InTable(info)
    ensures var v := Interpret(info, true, true, tx, r);
      && (v.Accept? <==> Acceptable(info, tx, r))
      && (v.Accept? ==> ReplyOf(v.out) == r && v.tx == ModeAfter(info.verb, tx))
      && (v.Accept? ==> Form(info, v.out))
  {
    hide InterpretAll, BulkItems;
    if r.RArray? && !info.verb.Multi? && !info.verb.Discard? {
      if info.kind == KMultiBulk {
        if PlainBulks(r.elems) {
          BulkItemsReplies(r.elems);
        }
      } else {
        InterpretNestedAll(info, tx, r.elems);
      }
    }
  }

  /**
   * For every command of the table and every tree a server can send, followed by any bytes:
   * the command accepts the encoding exactly when the tree is acceptable, and then it
   * returns that tree and leaves exactly the bytes that follow.
   */
  lemma ReplyRoundTrip(info: CommandInfo, tx: bool, r: Reply, rest: Bytes)
    requires InTable(info) && Sendable(r)
    ensures var p := ReadReply(info, true, true, tx, Print(r) + rest);
      && (p.Done? <==> Acceptable(info, tx, r))
      && (p.Done? ==> p.rest == rest && ReplyOf(p.out) == r && p.tx == ModeAfter(info.verb, tx))
      && (p.Done? ==> Form(info, p.out))
  {
    hide *;
    ParsePrint(info, true, true, tx, r, rest);
    InterpretTop(info, tx, r);
    LiftShape(Interpret(info, true, true, tx, r), rest);
  }

  lemma LiftShape(v: Seen, rest: Bytes)
    ensures var p := Lift(v, rest);
      && (p.Done? <==> v.Accept?)
      && (p.Closed? <==> v.Reject?)
      && (p.Done? ==> p.rest == rest && p.out == v.out && p.tx == v.tx)
      && (p.Refused? ==> p.rest == v.residue + rest && p.tx == v.tx && p.text == v.text)
  {
  }

  /** A zero-length bulk is refused for every command, closing the connection. */
  lemma EmptyBulkCloses(info: CommandInfo, tx: bool, rest: Bytes)
    ensures ReadReply(info, true, true, tx, Print(RBulk([])) + rest).Closed?
  {
    ParsePrint(info, true, true, tx, RBulk([]), rest);
  }

  /** A count below -1 closes, except that it reads as an empty special multi-bulk. */
  lemma NegativeCount(info: CommandInfo, tx: bool, n: int, rest: Bytes)
    requires InTable(info) && Int64(n) && n < -1
    ensures var p := ReadReply(info, true, true, tx, Line(STAR, PrintInt(n)) + rest);
      if SpecialArrays(info, tx) then p == Done(SMBulk([]), rest, tx && !info.verb.Exec?) else p == Closed(false)
  {
    hide SplitLine, ParseInteger, PrintInt;
    var header := [STAR] + PrintInt(n);
    HeaderHasNoCrlf(STAR, n);
    SplitLineAppend(header, rest);
    assert Line(STAR, PrintInt(n)) + rest == header + CRLF + rest;
    ParsePrinted(STAR, n);
    assert ReadElements(info, n, tx, rest) == AllDone([], rest, tx);
    assert SpecialBody(info, true, tx, header, rest) == Done(SMBulk([]), rest, tx && !info.verb.Exec?);
  }

  /**
   * A first line that the protocol does not know closes the connection, for every command: an
   * empty one, and one that starts with none of the five markers.
   */
  lemma UnknownLineCloses(info: CommandInfo, tx: bool, line: Bytes, rest: Bytes)
    requires NoCrlf(line) && (line == [] || line[0] !in {43, 45, 58, 36, 42})
    ensures ReadReply(info, true, true, tx, line + CRLF + rest) == Closed(false)
  {
    SplitLineAppend(line, rest);
  }

  /** A number that does not fit 64 bits closes it as well, and so does a negative length other than -1. */
  lemma BadNumberCloses(info: CommandInfo, tx: bool, marker: byte, n: int, rest: Bytes)
    requires marker in {58, 36, 42}
    requires !(-0x8000_0000_0000_0000 <= n <= 0x7fff_ffff_ffff_ffff) || (marker == 36 && n < -1)
    ensures ReadReply(info, true, true, tx, Line(marker, PrintInt(n)) + rest).Closed?
  {
    hide SplitLine, ParseInteger, PrintInt;
    var header := [marker] + PrintInt(n);
    HeaderHasNoCrlf(marker, n);
    SplitLineAppend(header, rest);
    assert Line(marker, PrintInt(n)) + rest == header + CRLF + rest;
    if Int64(n) {
      ParsePrinted(marker, n);
    } else {
      ParseOutOfRange(marker, n);
      assert marker == 42 ==> SpecialBody(info, true, tx, header, rest) == Closed(false);
    }
  }

  /** The two bytes after a bulk are dropped without being looked at. */
  lemma BulkDelimiterUnchecked(info: CommandInfo, b: Bytes, x: byte, y: byte, rest: Bytes)
    requires InTable(info) && info.kind == KBulk && info.verb.Common? && 0 < |b| <= INT64_MAX
    ensures ReadReply(info, true, true, false, Line(DOLLAR, PrintInt(|b|)) + (b + [x, y] + rest))
         == Done(Bulk(b), rest, false)
  {
    hide SplitLine, ParseInteger, PrintInt;
    var header, body := [DOLLAR] + PrintInt(|b|), b + [x, y] + rest;
    HeaderHasNoCrlf(DOLLAR, |b|);
    SplitLineAppend(header, body);
    assert Line(DOLLAR, PrintInt(|b|)) + body == header + CRLF + body;
    ParsePrinted(DOLLAR, |b|);
    assert body[..|b|] == b && body[|b| + 2..] == rest;
  }

  // ---------- framing ----------

  // The leaves of a tree in the order in which the parser meets them; an empty array is a leaf.
  function Leaves(r: Reply): (ls: seq<Reply>)
    ensures ls != []
    decreases r, 1
  {
    if r.RArray? && r.elems != [] then LeavesAll(r.elems) else [r]
  }

  function LeavesAll(rs: seq<Reply>): (ls: seq<Reply>)
    ensures rs != [] ==> ls != []
    decreases rs, 0
  {
    if rs == [] then [] else Leaves(rs[0]) + LeavesAll(rs[1..])
  }

  predicate Stops(r: Reply) {
    r.RError? || (r.RBulk? && r.bytes == [])
  }

  /** The position of the first leaf at which reading cannot go on. */
  function FirstStop(ls: seq<Reply>): (k: nat)
    ensures k <= |ls|
    ensures k < |ls| ==> Stops(ls[k])
    ensures forall j | 0 <= j < k :: !Stops(ls[j])
  {
    if ls == [] || Stops(ls[0]) then 0 else 1 + FirstStop(ls[1..])
  }

  lemma {:induction false} FirstStopConcat(a: seq<Reply>, b: seq<Reply>)
    ensures FirstStop(a + b) == if FirstStop(a) < |a| then FirstStop(a) else |a| + FirstStop(b)
  {
    if a == [] {
      assert a + b == b;
    } else {
      assert (a + b)[1..] == a[1..] + b;
      FirstStopConcat(a[1..], b);
    }
  }

  /** Reading stops at an error line with more leaves still to come. */
  predicate ErrorBeforeEnd(ls: seq<Reply>) {
    var k := FirstStop(ls);
    k < |ls| - 1 && ls[k].RError?
  }

  // What the leaves say about the outcome of reading them in order.
  predicate Agrees(ls: seq<Reply>, accepted: bool, refused: bool, residue: Bytes) {
    var k := FirstStop(ls);
    && (accepted <==> k == |ls|)
    && (refused <==> k < |ls| && ls[k].RError?)
    && (refused ==> (residue == [] <==> k == |ls| - 1))
  }

  predicate AgreesOne(ls: seq<Reply>, v: Seen) {
    Agrees(ls, v.Accept?, v.Refuse?, if v.Refuse? then v.residue else [])
  }

  predicate AgreesSeq(ls: seq<Reply>, v: SeenSeq) {
    Agrees(ls, v.AcceptAll?, v.RefuseSeq?, if v.RefuseSeq? then v.residue else [])
  }

  lemma {:induction false} InterpretLeaves(info: CommandInfo, tx: bool, r: Reply)
    requires info.kind != KMultiBulk
    ensures AgreesOne(Leaves(r), Interpret(info, false, false, tx, r))
    decreases r, 1
  {
    if r.RArray? {
      hide InterpretAll, LeavesAll, FirstStop;
      InterpretLeavesAll(info, tx, r.elems);
      if r.elems == [] {
        EmptyArrayLeaf(info, tx, r);
      }
    } else {
      assert Leaves(r) == [r];
      assert FirstStop([r]) == if Stops(r) then 0 else 1 + FirstStop([r][1..]);
    }
  }

  lemma EmptyArrayLeaf(info: CommandInfo, tx: bool, r: Reply)
    requires info.kind != KMultiBulk && r == RArray([])
    ensures AgreesOne(Leaves(r), Interpret(info, false, false, tx, r))
  {
    assert FirstStop([r]) == 1 + FirstStop([r][1..]);
    assert InterpretAll(info, tx, []).AcceptAll?;
  }

  lemma {:induction false} InterpretLeavesAll(info: CommandInfo, tx: bool, rs: seq<Reply>)
    requires info.kind != KMultiBulk
    ensures AgreesSeq(LeavesAll(rs), InterpretAll(info, tx, rs))
    decreases rs, 0
  {
    hide Interpret, Leaves, FirstStop;
    if rs != [] {
      var a, b := Leaves(rs[0]), LeavesAll(rs[1..]);
      InterpretLeaves(info, tx, rs[0]);
      FirstStopConcat(a, b);
      var v := Interpret(info, false, false, tx, rs[0]);
      if v.Accept? {
        InterpretLeavesAll(info, v.tx, rs[1..]);
      }
    }
  }

  /** A reply on which the parser loses its place: an error line inside a special multi-bulk, with more to come. */
  predicate Desyncs(info: CommandInfo, tx: bool, r: Reply) {
    && r.RArray?
    && SpecialArrays(info, tx)
    && ErrorBeforeEnd(Leaves(r))
  }

  /** Closed, or exactly the bytes after the reply are left. */
  predicate AtBoundary(p: Parse, rest: Bytes) {
    p.Closed? || p.rest == rest
  }

  /**
   * A reply that is refused with the connection left open: an error line, or a special multi-bulk
   * that stops at one.
   */
  predicate RefusedBy(info: CommandInfo, tx: bool, r: Reply) {
    || r.RError?
    || (&& r.RArray?
        && SpecialArrays(info, tx)
        && var ls := Leaves(r); FirstStop(ls) < |ls| && ls[FirstStop(ls)].RError?)
  }

  lemma TopRefusal(info: CommandInfo, tx: bool, r: Reply)
    requires InTable(info)
    ensures var v := Interpret(info, true, true, tx, r);
      && (v.Refuse? <==> RefusedBy(info, tx, r))
      && (v.Refuse? && v.residue != [] <==> Desyncs(info, tx, r))
  {
    hide InterpretAll, FirstStop, LeavesAll;
    if r.RArray? && SpecialArrays(info, tx) {
      InterpretLeavesAll(info, tx, r.elems);
      if r.elems == [] {
        EmptyArrayTop(info, tx, r);
      }
    }
  }

  lemma EmptyArrayTop(info: CommandInfo, tx: bool, r: Reply)
    requires r == RArray([])
    ensures FirstStop(Leaves(r)) == |Leaves(r)| && !Interpret(info, true, true, tx, r).Refuse?
  {
    assert InterpretAll(info, tx, []).AcceptAll?;
  }

  /**
   * Whatever the command, the mode and the reply, reading leaves the connection closed or at
   * the reply boundary, exactly unless an error line sits inside a special multi-bulk before
   * its last leaf.
   */
  lemma FramingSafety(info: CommandInfo, tx: bool, r: Reply, rest: Bytes)
    requires InTable(info) && Sendable(r)
    ensures AtBoundary(ReadReply(info, true, true, tx, Print(r) + rest), rest) <==> !Desyncs(info, tx, r)
  {
    hide ReadReply, Interpret, Desyncs, Print, Sendable;
    ParsePrint(info, true, true, tx, r, rest);
    TopRefusal(info, tx, r);
    var v := Interpret(info, true, true, tx, r);
    if v.Refuse? {
      assert |v.residue + rest| == |v.residue| + |rest|;
      if v.residue == [] {
        assert v.residue + rest == rest;
      }
    }
  }

  /** EXEC answered by an array that starts with an error: the error aborts and all other elements stay unread. */
  lemma NestedErrorLosesFraming(info: CommandInfo, text: Bytes, more: seq<Reply>, rest: Bytes)
    requires InTable(info) && info.verb.Exec?
    requires NoCrlf(text) && AllSendable(more) && |more| < INT64_MAX
    ensures ReadReply(info, true, true, true, Print(RArray([RError(text)] + more)) + rest)
         == Refused(text, PrintAll(more) + rest, true, true)
  {
    var es := [RError(text)] + more;
    assert es[1..] == more;
    hide Print, PrintAll, ReadReply;
    assert Sendable(es[0]);
    assert AllSendable(es);
    ParsePrint(info, true, true, true, RArray(es), rest);
    assert InterpretAll(info, true, es) == RefuseSeq(text, [] + PrintAll(more), true);
    assert [] + PrintAll(more) == PrintAll(more);
  }
}
