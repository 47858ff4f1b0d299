// The parser never looks past what it consumes: bytes that come later change nothing, and a
// reply that is cut off closes the connection.
module Streaming {
  import opened Wire
  import opened Decimal
  import opened Resp
  import opened ReplyTheory
  import opened RoundTrip

  /** The same outcome with more bytes behind it. */
  function Extend(p: Parse, x: Bytes): Parse {
    match p
    case Done(out, rest, tx) => Done(out, rest + x, tx)
    case Refused(text, rest, tx, nested) => Refused(text, rest + x, tx, nested)
    case Closed(_) => p
  }

  function ExtendSeq(p: ParseSeq, x: Bytes): ParseSeq {
    match p
    case AllDone(outs, rest, tx) => AllDone(outs, rest + x, tx)
    case SeqRefused(text, rest, tx) => SeqRefused(text, rest + x, tx)
    case SeqClosed => p
  }

  function ExtendPair<T>(r: Option<(T, Bytes)>, x: Bytes): Option<(T, Bytes)> {
    match r case None => None case Some(p) => Some((p.0, p.1 + x))
  }

  lemma SplitLineGrows(s: Bytes, x: Bytes)
    ensures SplitLine(s).Some? ==> SplitLine(s + x) == ExtendPair(SplitLine(s), x)
  {
    var r := SplitLine(s);
    if r.Some? {
      var (line, rest) := r.value;
      assert s + x == line + CRLF + (rest + x);
      SplitLineAppend(line, rest + x);
    }
  }

  lemma ReadBulk2Grows(header: Bytes, s: Bytes, x: Bytes)
    requires header != []
    ensures ReadBulk2(header, s).Some? ==> ReadBulk2(header, s + x) == ExtendPair(ReadBulk2(header, s), x)
  {
    hide ParseInteger;
    var i := ParseInteger(header);
    if i.Some? && i.value > 0 && i.value + 2 <= |s| {
      assert (s + x)[..i.value] == s[..i.value];
      assert (s + x)[i.value + 2..] == s[i.value + 2..] + x;
    }
  }

  lemma ReadBulkGrows(s: Bytes, x: Bytes)
    ensures ReadBulk(s).Some? ==> ReadBulk(s + x) == ExtendPair(ReadBulk(s), x)
  {
    hide SplitLine, ReadBulk2;
    SplitLineGrows(s, x);
    var r := SplitLine(s);
    if r.Some? && r.value.0 != [] {
      ReadBulk2Grows(r.value.0, r.value.1, x);
    }
  }

  lemma {:induction false} ReadBulksGrows(n: int, s: Bytes, x: Bytes)
    ensures ReadBulks(n, s).Some? ==> ReadBulks(n, s + x) == ExtendPair(ReadBulks(n, s), x)
    decreases |s|
  {
    hide ReadBulk;
    if n > 0 {
      ReadBulkGrows(s, x);
      var r := ReadBulk(s);
      if r.Some? {
        ReadBulksGrows(n - 1, r.value.1, x);
      }
    }
  }

  lemma ReadMultiBulk2Grows(header: Bytes, s: Bytes, x: Bytes)
    requires header != []
    ensures ReadMultiBulk2(header, s).Some? ==>
              ReadMultiBulk2(header, s + x) == ExtendPair(ReadMultiBulk2(header, s), x)
  {
    hide ParseInteger, ReadBulks;
    var i := ParseInteger(header);
    if i.Some? {
      ReadBulksGrows(i.value, s, x);
    }
  }

  /** Whatever is read from a stream is read from every longer one, leaving the longer rest. */
  lemma {:induction false} ReadReplyGrows(info: CommandInfo, check: bool, top: bool, tx: bool, s: Bytes, x: Bytes)
    ensures var p := ReadReply(info, check, top, tx, s);
      !p.Closed? ==> ReadReply(info, check, top, tx, s + x) == Extend(p, x)
    decreases |s|, 0
  {
    hide SplitLine, ReadBody;
    SplitLineGrows(s, x);
    var r := SplitLine(s);
    if r.Some? && r.value.0 != [] {
      ReadBodyGrows(info, check, top, tx, r.value.0, r.value.1, x);
    }
  }

  lemma {:induction false} ReadBodyGrows(info: CommandInfo, check: bool, top: bool, tx: bool, line: Bytes,
                                         s: Bytes, x: Bytes)
    requires line != []
    ensures var p := ReadBody(info, check, top, tx, line, s);
      !p.Closed? ==> ReadBody(info, check, top, tx, line, s + x) == Extend(p, x)
    decreases |s|, 2
  {
    hide SpecialBody, ReadBulk2, ReadMultiBulk2, ParseInteger;
    ReadBulk2Grows(line, s, x);
    ReadMultiBulk2Grows(line, s, x);
    SpecialGrows(info, top, tx, line, s, x);
  }

  lemma {:induction false} SpecialGrows(info: CommandInfo, top: bool, tx: bool, line: Bytes, s: Bytes, x: Bytes)
    requires line != []
    ensures var p := SpecialBody(info, top, tx, line, s);
      !p.Closed? ==> SpecialBody(info, top, tx, line, s + x) == Extend(p, x)
    decreases |s|, 1, 1
  {
    hide ReadElements, ParseInteger;
    var n := ParseInteger(line);
    if n.Some? {
      ElementsGrow(info, n.value, tx, s, x);
    }
  }

  lemma {:induction false} ElementsGrow(info: CommandInfo, n: int, tx: bool, s: Bytes, x: Bytes)
    ensures var p := ReadElements(info, n, tx, s);
      !p.SeqClosed? ==> ReadElements(info, n, tx, s + x) == ExtendSeq(p, x)
    decreases |s|, 1, 0
  {
    hide ReadReply;
    if n > 0 {
      ReadReplyGrows(info, false, false, tx, s, x);
      var p := ReadReply(info, false, false, tx, s);
      if p.Done? {
        ElementsGrow(info, n - 1, p.tx, p.rest, x);
      }
    }
  }

  /** A reply that is cut off anywhere closes the connection, unless it is one that loses framing. */
  lemma CutReplyCloses(info: CommandInfo, tx: bool, r: Reply, part: Bytes)
    requires InTable(info) && Sendable(r) && !Desyncs(info, tx, r)
    requires part < Print(r)
    ensures ReadReply(info, true, true, tx, part).Closed?
  {
    hide ReadReply, Print, Sendable, Desyncs, InTable;
    var x := Print(r)[|part|..];
    assert part + x == Print(r);
    assert Print(r) + [] == Print(r);
    ReadReplyGrows(info, true, true, tx, part, x);
    FramingSafety(info, tx, r, []);
    var p := ReadReply(info, true, true, tx, part);
    if !p.Closed? {
      assert |p.rest + x| > 0;
    }
  }
}
