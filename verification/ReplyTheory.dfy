// Replies as trees, their RESP encoding, and what the parser does on every encoded tree.
module ReplyTheory {
  import opened Wire
  import opened Decimal
  import opened Resp

  datatype Reply =
    | RStatus(text: Bytes)
    | RError(text: Bytes)
    | RInteger(i: int)
    | RBulk(bytes: Bytes)
    | RNilBulk
    | RArray(elems: seq<Reply>)
    | RNilArray

  function Line(marker: byte, text: Bytes): Bytes {
    [marker] + text + CRLF
  }

  function PrintBulk(b: Bytes): Bytes {
    Line(DOLLAR, PrintInt(|b|)) + b + CRLF
  }

  function Print(r: Reply): (s: Bytes)
    ensures |s| >= 3
    decreases r, 1
  {
    match r
    case RStatus(t) => Line(PLUS, t)
    case RError(t) => Line(MINUS, t)
    case RInteger(i) => Line(COLON, PrintInt(i))
    case RBulk(b) => PrintBulk(b)
    case RNilBulk => Line(DOLLAR, PrintInt(-1))
    case RArray(es) => Line(STAR, PrintInt(|es|)) + PrintAll(es)
    case RNilArray => Line(STAR, PrintInt(-1))
  }

  function PrintAll(rs: seq<Reply>): (s: Bytes)
    ensures s == [] <==> rs == []
    decreases rs, 0
  {
    if rs == [] then [] else Print(rs[0]) + PrintAll(rs[1..])
  }

  /** The encoding, byte by byte: '+', '-', ':', '$' and '*', and carriage return and line feed. */
  lemma EncodingInBytes(t: Bytes, i: int, es: seq<Reply>)
    ensures Print(RStatus(t)) == [43] + t + [13, 10]
    ensures Print(RError(t)) == [45] + t + [13, 10]
    ensures Print(RInteger(i)) == [58] + PrintInt(i) + [13, 10]
    ensures Print(RBulk(t)) == [36] + PrintInt(|t|) + [13, 10] + t + [13, 10]
    ensures Print(RArray(es)) == [42] + PrintInt(|es|) + [13, 10] + PrintAll(es)
  {
    hide PrintAll, PrintInt;
  }

  /** The two nils and the status OK. */
  lemma FixedEncodings()
    ensures Print(RNilBulk) == [36, 45, 49, 13, 10]
    ensures Print(RNilArray) == [42, 45, 49, 13, 10]
    ensures Print(RStatus(OK)) == [43, 79, 75, 13, 10]
  {
    assert PrintInt(-1) == [45, 49] by {
      assert Digits(1) == [49];
    }
    hide PrintInt, PrintAll;
  }

  lemma {:induction false} PrintedHead(rs: seq<Reply>, rest: Bytes)
    ensures rs == [] ==> PrintAll(rs) + rest == rest
    ensures rs != [] ==> PrintAll(rs) == Print(rs[0]) + PrintAll(rs[1..])
    ensures rs != [] ==> PrintAll(rs) + rest == Print(rs[0]) + (PrintAll(rs[1..]) + rest)
  {
    hide Print;
    if rs != [] {
      var head, tail := Print(rs[0]), PrintAll(rs[1..]);
      assert head + tail + rest == head + (tail + rest);
    }
  }

  /** What a server can send: single-line texts, 64-bit numbers and counts. Empty bulks are allowed. */
  predicate Sendable(r: Reply)
    decreases r, 1
  {
    match r
    case RStatus(t) => NoCrlf(t)
    case RError(t) => NoCrlf(t)
    case RInteger(i) => Int64(i)
    case RBulk(b) => |b| <= INT64_MAX
    case RNilBulk => true
    case RArray(es) => |es| <= INT64_MAX && AllSendable(es)
    case RNilArray => true
  }

  predicate AllSendable(rs: seq<Reply>)
    decreases rs, 0
  {
    rs == [] || (Sendable(rs[0]) && AllSendable(rs[1..]))
  }

  // ---------- reading a tree ----------

  // 'residue' is the part of the tree's encoding that stays unread after a refusal.
  datatype Seen =
    | Accept(out: Output, tx: bool)
    | Refuse(text: Bytes, residue: Bytes, tx: bool, nested: bool)
    | Reject(nested: bool)

  datatype SeenSeq =
    | AcceptAll(outs: seq<Output>, tx: bool)
    | RefuseSeq(text: Bytes, residue: Bytes, tx: bool)
    | RejectSeq

  function BulkItem(r: Reply): Option<Bytes>
    requires r.RBulk? || r.RNilBulk?
  {
    if r.RBulk? then Some(r.bytes) else None
  }

  predicate PlainBulk(r: Reply) {
    r.RNilBulk? || (r.RBulk? && r.bytes != [])
  }

  predicate PlainBulks(rs: seq<Reply>) {
    forall k | 0 <= k < |rs| :: PlainBulk(rs[k])
  }

  function BulkItems(rs: seq<Reply>): (items: seq<Option<Bytes>>)
    requires PlainBulks(rs)
    ensures |items| == |rs|
    ensures forall k | 0 <= k < |rs| :: items[k] == BulkItem(rs[k])
  {
    if rs == [] then [] else [BulkItem(rs[0])] + BulkItems(rs[1..])
  }

  /** The reply types under which a tree is accepted by the type check. */
  predicate Fits(exp: Kind, r: Reply) {
    match r
    case RStatus(_) => exp == KStatus
    case RError(_) => true
    case RInteger(_) => exp == KInteger
    case RBulk(_) => exp == KBulk
    case RNilBulk => exp == KBulk
    case RArray(_) => exp == KMultiBulk || exp == KSpecialMultiBulk
    case RNilArray => exp == KMultiBulk || exp == KSpecialMultiBulk
  }

  /** Reading the tree itself, with no bytes in sight. */
  function Interpret(info: CommandInfo, check: bool, top: bool, tx: bool, r: Reply): (v: Seen)
    decreases r, 1
  {
    var exp := Expected(info, check, tx);
    if Checking(info, check) && !Fits(exp, r) then Reject(false)
    else
      match r
      case RError(t) => Refuse(t, [], tx, false)
      case RStatus(t) => Accept(Status(t), StatusMode(info.verb, tx))
      case RInteger(i) => Accept(Integer(i), tx)
      case RNilBulk => Accept(NilBulk, tx)
      case RBulk(b) => if b == [] then Reject(false) else Accept(Bulk(b), tx)
      case RNilArray =>
        if exp == KMultiBulk then Accept(NilMBulk, tx)
        else Accept(NilSMBulk, ArrayMode(info.verb, top, tx))
      case RArray(es) =>
        if exp == KMultiBulk then
          if PlainBulks(es) then Accept(MBulk(BulkItems(es)), tx) else Reject(false)
        else
          match InterpretAll(info, tx, es)
          case AcceptAll(outs, tx') => Accept(SMBulk(outs), ArrayMode(info.verb, top, tx'))
          case RefuseSeq(t, residue, tx') => Refuse(t, residue, tx', true)
          case RejectSeq => Reject(true)
  }

  function InterpretAll(info: CommandInfo, tx: bool, rs: seq<Reply>): (v: SeenSeq)
    decreases rs, 0
  {
    if rs == [] then AcceptAll([], tx)
    else
      match Interpret(info, false, false, tx, rs[0])
      case Reject(_) => RejectSeq
      case Refuse(t, residue, tx', _) => RefuseSeq(t, residue + PrintAll(rs[1..]), tx')
      case Accept(out, tx') =>
        match InterpretAll(info, tx', rs[1..])
        case AcceptAll(outs, tx'') => AcceptAll([out] + outs, tx'')
        case RefuseSeq(_, _, _) => InterpretAll(info, tx', rs[1..])
        case RejectSeq => RejectSeq
  }

  function Lift(v: Seen, rest: Bytes): Parse {
    match v
    case Accept(out, tx) => Done(out, rest, tx)
    case Refuse(text, residue, tx, nested) => Refused(text, residue + rest, tx, nested)
    case Reject(nested) => Closed(nested)
  }

  function LiftAll(v: SeenSeq, rest: Bytes): ParseSeq {
    match v
    case AcceptAll(outs, tx) => AllDone(outs, rest, tx)
    case RefuseSeq(text, residue, tx) => SeqRefused(text, residue + rest, tx)
    case RejectSeq => SeqClosed
  }

  // ---------- bytes and trees agree ----------

  // The first line of an encoding, without its delimiter, and what follows it.
  function Head(r: Reply): (line: Bytes)
    ensures line != []
  {
    match r
    case RStatus(t) => [PLUS] + t
    case RError(t) => [MINUS] + t
    case RInteger(i) => [COLON] + PrintInt(i)
    case RBulk(b) => [DOLLAR] + PrintInt(|b|)
    case RNilBulk => [DOLLAR] + PrintInt(-1)
    case RArray(es) => [STAR] + PrintInt(|es|)
    case RNilArray => [STAR] + PrintInt(-1)
  }

  function Body(r: Reply): Bytes {
    match r
    case RBulk(b) => b + CRLF
    case RArray(es) => PrintAll(es)
    case _ => []
  }

  lemma PrintIsHeadBody(r: Reply)
    ensures Print(r) == Head(r) + CRLF + Body(r)
  {
  }

  lemma HeadIsOneLine(r: Reply)
    requires Sendable(r)
    ensures NoCrlf(Head(r))
  {
    if r.RStatus? || r.RError? {
      forall k: nat | k < |Head(r)|
        ensures !CrlfAt(Head(r), k)
      {
        if k > 0 {
          assert CrlfAt(Head(r), k) == CrlfAt(r.text, k - 1);
        }
      }
    }
  }

  lemma SplitPrinted(r: Reply, rest: Bytes)
    requires Sendable(r)
    ensures SplitLine(Print(r) + rest) == Some((Head(r), Body(r) + rest))
  {
    hide Print, Head, Body, Sendable, NoCrlf;
    HeadIsOneLine(r);
    PrintIsHeadBody(r);
    assert Print(r) + rest == Head(r) + CRLF + (Body(r) + rest);
    SplitLineAppend(Head(r), Body(r) + rest);
  }

  lemma ReadPrintedBody(b: Bytes, rest: Bytes)
    requires |b| <= INT64_MAX
    ensures ReadBulk2(Head(RBulk(b)), b + CRLF + rest) == if b == [] then None else Some((Some(b), rest))
  {
    ParsePrinted(DOLLAR, |b|);
    TakeBlockAppend(b, rest);
  }

  /** A body read by read_bulk: plain bulks come back, anything else closes. */
  lemma ReadBulkPrinted(r: Reply, rest: Bytes)
    requires Sendable(r)
    ensures ReadBulk(Print(r) + rest) == if PlainBulk(r) then Some((BulkItem(r), rest)) else None
  {
    SplitPrinted(r, rest);
    if r.RBulk? {
      ReadPrintedBody(r.bytes, rest);
    } else if r.RNilBulk? {
      ParsePrinted(DOLLAR, -1);
      assert Body(r) + rest == rest;
    }
  }

  lemma {:induction false} ReadBulksPrinted(rs: seq<Reply>, rest: Bytes)
    requires AllSendable(rs)
    ensures ReadBulks(|rs|, PrintAll(rs) + rest) == if PlainBulks(rs) then Some((BulkItems(rs), rest)) else None
  {
    hide Print, ReadBulk, Sendable, PlainBulk;
    if rs == [] {
      assert PrintAll(rs) + rest == rest;
    } else {
      var tail := PrintAll(rs[1..]) + rest;
      assert PrintAll(rs) + rest == Print(rs[0]) + tail;
      ReadBulkPrinted(rs[0], tail);
      ReadBulksPrinted(rs[1..], rest);
      assert PlainBulks(rs) <==> PlainBulk(rs[0]) && PlainBulks(rs[1..]);
    }
  }

  lemma ReadLeafBody(info: CommandInfo, check: bool, top: bool, tx: bool, r: Reply, rest: Bytes)
    requires Sendable(r) && !r.RArray?
    ensures ReadBody(info, check, top, tx, Head(r), Body(r) + rest) == Lift(Interpret(info, check, top, tx, r), rest)
  {
    if r.RBulk? {
      ReadPrintedBody(r.bytes, rest);
    } else {
      assert Body(r) + rest == rest;
      assert [] + rest == rest;
      match r
      case RInteger(i) => ParsePrinted(COLON, i);
      case RNilBulk => ParsePrinted(DOLLAR, -1);
      case RNilArray => ParsePrinted(STAR, -1);
      case RStatus(t) => assert Head(r)[1..] == t;
      case RError(t) => assert Head(r)[1..] == t;
      case RBulk(_) =>
    }
  }

  lemma ReadArrayBody(info: CommandInfo, check: bool, top: bool, tx: bool, es: seq<Reply>, rest: Bytes)
    requires Sendable(RArray(es))
    ensures var r, body := RArray(es), PrintAll(es) + rest;
      ReadElements(info, |es|, tx, body) == LiftAll(InterpretAll(info, tx, es), rest) ==>
      ReadBody(info, check, top, tx, Head(r), body) == Lift(Interpret(info, check, top, tx, r), rest)
  {
    hide ReadElements, ReadBulks, InterpretAll, PrintAll, ParseInteger, PrintInt;
    ParsePrinted(STAR, |es|);
    ReadBulksPrinted(es, rest);
  }

  /** Parsing the encoding of any tree, followed by any bytes, is reading the tree. */
  lemma {:induction false} ParsePrint(info: CommandInfo, check: bool, top: bool, tx: bool, r: Reply, rest: Bytes)
    requires Sendable(r)
    ensures ReadReply(info, check, top, tx, Print(r) + rest) == Lift(Interpret(info, check, top, tx, r), rest)
    decreases r, 1
  {
    SplitPrinted(r, rest);
    if r.RArray? {
      ParsePrintAll(info, tx, r.elems, rest);
      ReadArrayBody(info, check, top, tx, r.elems, rest);
    } else {
      ReadLeafBody(info, check, top, tx, r, rest);
    }
  }

  lemma {:induction false} ParsePrintAll(info: CommandInfo, tx: bool, rs: seq<Reply>, rest: Bytes)
    requires AllSendable(rs)
    ensures ReadElements(info, |rs|, tx, PrintAll(rs) + rest) == LiftAll(InterpretAll(info, tx, rs), rest)
    decreases rs, 0
  {
    hide ReadReply, Interpret, Print, Sendable;
    if rs == [] {
      assert PrintAll(rs) + rest == rest;
    } else {
      var tail := PrintAll(rs[1..]) + rest;
      assert PrintAll(rs) + rest == Print(rs[0]) + tail;
      ParsePrint(info, false, false, tx, rs[0], tail);
      var v := Interpret(info, false, false, tx, rs[0]);
      if v.Accept? {
        ParsePrintAll(info, v.tx, rs[1..], rest);
      } else if v.Refuse? {
        assert v.residue + tail == v.residue + PrintAll(rs[1..]) + rest;
      }
    }
  }
}
