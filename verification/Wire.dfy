// Bytes and line framing: what TcpClient::Impl::read_line and read compute,
// stated on the whole stream of bytes that has not been consumed yet.
module Wire {

  type byte = x: int | 0 <= x < 256
  type Bytes = seq<byte>

  datatype Option<+T> = None | Some(value: T)

  const CR: byte := 13
  const LF: byte := 10
  const MINUS: byte := 45   // '-'
  const PLUS: byte := 43    // '+'
  const COLON: byte := 58   // ':'
  const DOLLAR: byte := 36  // '$'
  const STAR: byte := 42    // '*'
  const CRLF: Bytes := [13, 10]

  const INT64_MAX: int := 0x7fff_ffff_ffff_ffff
  const INT64_MIN: int := -0x8000_0000_0000_0000
  const TWO_31: int := 0x8000_0000
  const TWO_32: int := 0x1_0000_0000
  const TWO_64: int := 0x1_0000_0000_0000_0000

  predicate CrlfAt(s: Bytes, k: nat) {
    k + 1 < |s| && s[k] == CR && s[k + 1] == LF
  }

  predicate NoCrlf(s: Bytes) {
    forall k: nat | k < |s| :: !CrlfAt(s, k)
  }

  /** The first delimiter at or after 'from', or |s| when there is none. */
  function FindCrlf(s: Bytes, from: nat): (k: nat)
    requires from <= |s|
    ensures from <= k <= |s|
    ensures k < |s| ==> CrlfAt(s, k)
    ensures forall j: nat | from <= j < k :: !CrlfAt(s, j)
    decreases |s| - from
  {
    if from == |s| || CrlfAt(s, from) then from else FindCrlf(s, from + 1)
  }

  /** read_line on an unbounded byte queue: the line and what follows its delimiter. */
  function SplitLine(s: Bytes): (r: Option<(Bytes, Bytes)>)
    ensures r.None? <==> NoCrlf(s)
    ensures r.Some? ==>
              && s == r.value.0 + CRLF + r.value.1
              && |s| == |r.value.0| + 2 + |r.value.1|
              && NoCrlf(r.value.0)
  {
    var k := FindCrlf(s, 0);
    if k == |s| then None else (
      assert forall j: nat | j < k :: CrlfAt(s[..k], j) ==> CrlfAt(s, j);
      Some((s[..k], s[k + 2..]))
    )
  }

  /** read(n) on an unbounded byte queue: n bytes, dropping two more unseen. */
  function TakeBlock(s: Bytes, n: nat): (r: Option<(Bytes, Bytes)>)
    ensures r.Some? <==> n + 2 <= |s|
    ensures r.Some? ==> |r.value.0| == n && r.value.0 <= s && |r.value.1| == |s| - n - 2
  {
    if n + 2 <= |s| then Some((s[..n], s[n + 2..])) else None
  }

  lemma FirstCrlf(s: Bytes, k: nat)
    requires CrlfAt(s, k)
    requires forall j: nat | j < k :: !CrlfAt(s, j)
    ensures SplitLine(s) == Some((s[..k], s[k + 2..]))
  {
    assert FindCrlf(s, 0) == k;
  }

  /** Any text free of the delimiter is read back whole, whatever follows. */
  lemma SplitLineAppend(text: Bytes, rest: Bytes)
    requires NoCrlf(text)
    ensures SplitLine(text + CRLF + rest) == Some((text, rest))
  {
    var s := text + CRLF + rest;
    forall j: nat | j < |text|
      ensures !CrlfAt(s, j)
    {
      if j + 1 < |text| {
        assert CrlfAt(s, j) == CrlfAt(text, j);
      }
    }
    FirstCrlf(s, |text|);
    assert s[..|text|] == text;
    assert s[|text| + 2..] == rest;
  }

  lemma TakeBlockAppend(b: Bytes, rest: Bytes)
    ensures TakeBlock(b + CRLF + rest, |b|) == Some((b, rest))
  {
    var s := b + CRLF + rest;
    assert s[..|b|] == b;
    assert s[|b| + 2..] == rest;
  }
}
