// Requests: write_command's encoding, check_argc, and decoding with the client's own readers.
module Request {
  import opened Wire
  import opened Decimal
  import opened Resp
  import opened ReplyTheory

  const ARGC_NO_CHECKING: int := -65535

  /** check_argc: an exact count, at least a count, or no check. */
  predicate ArgcOk(argc: int, given: int) {
    argc == ARGC_NO_CHECKING || (if argc >= 0 then argc == given else given >= -argc)
  }

  /** An exact count, at least a count for a negative argc, and no check for -65535. */
  lemma ArgcRule(argc: int, given: nat)
    ensures argc >= 0 ==> (ArgcOk(argc, given) <==> given == argc)
    ensures argc < 0 && argc != -65535 ==> (ArgcOk(argc, given) <==> given + argc >= 0)
    ensures argc == -65535 ==> ArgcOk(argc, given)
  {
  }

  function EncodeWords(words: seq<Bytes>): Bytes {
    if words == [] then [] else PrintBulk(words[0]) + EncodeWords(words[1..])
  }

  /** The bytes of one request; the first word is the command name. */
  function Encode(words: seq<Bytes>): (s: Bytes)
    ensures s != []
  {
    Line(STAR, PrintInt(|words|)) + EncodeWords(words)
  }

  /** The bytes of a request: '*' and the number of words, then '$', its length and itself for every word. */
  lemma RequestInBytes(name: Bytes, args: seq<Bytes>)
    ensures Encode([name] + args) ==
            [42] + PrintInt(|args| + 1) + [13, 10]
            + [36] + PrintInt(|name|) + [13, 10] + name + [13, 10] + EncodeWords(args)
    ensures forall k | 0 <= k < |args| ::
              EncodeWords(args[k..]) ==
              [36] + PrintInt(|args[k]|) + [13, 10] + args[k] + [13, 10] + EncodeWords(args[k + 1..])
  {
    hide PrintInt;
    var words := [name] + args;
    assert words[1..] == args;
    assert EncodeWords(words) == PrintBulk(name) + EncodeWords(args);
    forall k | 0 <= k < |args|
      ensures EncodeWords(args[k..]) == PrintBulk(args[k]) + EncodeWords(args[k + 1..])
    {
      assert args[k..][1..] == args[k + 1..];
    }
  }

  function EncodeAll(requests: seq<seq<Bytes>>): Bytes {
    if requests == [] then [] else Encode(requests[0]) + EncodeAll(requests[1..])
  }

  /** What fits a request: counts and lengths that a 64-bit number can announce. */
  predicate Fitting(words: seq<Bytes>) {
    |words| <= INT64_MAX && forall k | 0 <= k < |words| :: |words[k]| <= INT64_MAX
  }

  predicate NonEmpty(words: seq<Bytes>) {
    forall k | 0 <= k < |words| :: words[k] != []
  }

  /** The words of a decoded multi-bulk, if it has no nil in it. */
  function Words(items: seq<Option<Bytes>>): (r: Option<seq<Bytes>>) {
    if items == [] then Some([])
    else if items[0].None? then None
    else match Words(items[1..]) case None => None case Some(ws) => Some([items[0].value] + ws)
  }

  /** One request, read by read_line and read_multi_bulk_2. */
  function Decode(s: Bytes): (r: Option<(seq<Bytes>, Bytes)>)
    ensures r.Some? ==> |r.value.1| < |s|
  {
    match SplitLine(s)
    case None => None
    case Some(lr) =>
      if lr.0 == [] || lr.0[0] != STAR then None
      else
        match ReadMultiBulk2(lr.0, lr.1)
        case None => None
        case Some(p) =>
          if p.0.None? then None
          else match Words(p.0.value) case None => None case Some(ws) => Some((ws, p.1))
  }

  function DecodeAll(s: Bytes): (r: Option<seq<seq<Bytes>>>)
    decreases |s|
  {
    if s == [] then Some([])
    else
      match Decode(s)
      case None => None
      case Some(p) =>
        match DecodeAll(p.1)
        case None => None
        case Some(more) => Some([p.0] + more)
  }

  function AsReplies(words: seq<Bytes>): (rs: seq<Reply>)
    ensures |rs| == |words|
    ensures forall k | 0 <= k < |words| :: rs[k] == RBulk(words[k])
  {
    if words == [] then [] else [RBulk(words[0])] + AsReplies(words[1..])
  }

  lemma {:induction false} EncodeIsPrint(words: seq<Bytes>)
    requires Fitting(words)
    ensures EncodeWords(words) == PrintAll(AsReplies(words))
    ensures AllSendable(AsReplies(words))
  {
    hide PrintBulk;
    if words != [] {
      EncodeIsPrint(words[1..]);
      assert AsReplies(words)[1..] == AsReplies(words[1..]);
      assert Print(AsReplies(words)[0]) == PrintBulk(words[0]);
    }
  }

  lemma {:induction false} WordsOfItems(words: seq<Bytes>, items: seq<Option<Bytes>>)
    requires |items| == |words| && forall k | 0 <= k < |words| :: items[k] == Some(words[k])
    ensures Words(items) == Some(words)
  {
    if words != [] {
      WordsOfItems(words[1..], items[1..]);
      assert words == [words[0]] + words[1..];
    }
  }

  /**
   * The client's own readers give back the command name and the arguments, followed by the
   * bytes after the request, for binary words of any content; exactly the requests with an
   * empty word are refused.
   */
  lemma RequestRoundTrip(words: seq<Bytes>, rest: Bytes)
    requires Fitting(words)
    ensures Decode(Encode(words) + rest) == if NonEmpty(words) then Some((words, rest)) else None
  {
    hide ReadBulks, PrintAll, EncodeWords, BulkItems, Sendable, AllSendable, Words, PrintInt, ParseInteger, SplitLine;
    var rs := AsReplies(words);
    EncodeIsPrint(words);
    var body := PrintAll(rs) + rest;
    var header := [STAR] + PrintInt(|words|);
    assert Encode(words) + rest == header + CRLF + body;
    HeaderHasNoCrlf(STAR, |words|);
    SplitLineAppend(header, body);
    ParsePrinted(STAR, |words|);
    ReadBulksPrinted(rs, rest);
    if NonEmpty(words) {
      assert PlainBulks(rs);
      WordsOfItems(words, BulkItems(rs));
    } else {
      var k :| 0 <= k < |words| && words[k] == [];
      assert !PlainBulk(rs[k]);
    }
  }

  predicate AllFitting(requests: seq<seq<Bytes>>) {
    forall k | 0 <= k < |requests| :: Fitting(requests[k]) && NonEmpty(requests[k])
  }

  /** A concatenation of requests decodes to exactly that list of requests. */
  lemma {:induction false} RequestsRoundTrip(requests: seq<seq<Bytes>>)
    requires AllFitting(requests)
    ensures DecodeAll(EncodeAll(requests)) == Some(requests)
  {
    hide Decode, Encode, Fitting, NonEmpty;
    if requests != [] {
      RequestRoundTrip(requests[0], EncodeAll(requests[1..]));
      RequestsRoundTrip(requests[1..]);
      assert requests == [requests[0]] + requests[1..];
    }
  }

  /** No two different lists of requests have the same bytes. */
  lemma UniqueDecoding(a: seq<seq<Bytes>>, b: seq<seq<Bytes>>)
    requires AllFitting(a) && AllFitting(b) && EncodeAll(a) == EncodeAll(b)
    ensures a == b
  {
    RequestsRoundTrip(a);
    RequestsRoundTrip(b);
  }

  lemma {:induction false} EncodeAllSnoc(requests: seq<seq<Bytes>>, words: seq<Bytes>)
    ensures EncodeAll(requests + [words]) == EncodeAll(requests) + Encode(words)
  {
    hide Encode;
    if requests == [] {
      assert requests + [words] == [words];
      assert EncodeAll([words]) == Encode(words) + EncodeAll([]);
    } else {
      EncodeAllSnoc(requests[1..], words);
      assert (requests + [words])[1..] == requests[1..] + [words];
    }
  }
}
