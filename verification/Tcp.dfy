// TcpClient::Impl: buffered reads over arbitrary socket chunks, whole writes, close.
module Tcp {
  import opened Wire
  import opened Os
  import opened TcpBuffer

  // What one recv can deliver: never empty, since 0 and -1 both end the connection.
  type Chunk = c: Bytes | c != [] witness [0]

  function Flat(chunks: seq<Chunk>): (s: Bytes)
    ensures s == [] <==> chunks == []
  {
    if chunks == [] then [] else chunks[0] + Flat(chunks[1..])
  }

  /** No delimiter begins before 'offset', and all that was looked at is there. */
  ghost predicate Searched(s: Bytes, offset: nat) {
    && (offset == 0 || offset < |s|)
    && forall j: nat | j < offset :: !CrlfAt(s, j)
  }

  lemma SearchedGrows(s: Bytes, t: Bytes, offset: nat)
    requires Searched(s, offset) && s <= t
    ensures Searched(t, offset)
  {
    assert forall j: nat | j < offset :: CrlfAt(t, j) == CrlfAt(s, j);
  }

  // The outcome of an attempt to connect; the chunks are what the peer will deliver until a recv fails.
  datatype Attempt = Unreachable(errno: Errno) | Reached(chunks: seq<Chunk>)

  class TcpClient {
    const buffer: TcpClientBuffer
    var open: bool            // fd_ != -1
    var chunks: seq<Chunk>    // the socket: what recv has yet to deliver on this connection
    ghost var sent: Bytes     // what the kernel has accepted on this connection

    ghost predicate Valid()
      reads this, buffer, buffer.data
    {
      && buffer.Valid()
      && (!open ==> chunks == [] && buffer.Contents() == [])
    }

    ghost function Repr(): set<object>
      reads this, buffer
    {
      {this, buffer, buffer.data}
    }

    /** The bytes not consumed yet: unread buffer, then what the socket will deliver. */
    ghost function Unread(): Bytes
      requires Valid()
      reads this, buffer, buffer.data
    {
      buffer.Contents() + Flat(chunks)
    }

    constructor ()
      ensures Valid() && fresh(Repr()) && !open && Unread() == []
    {
      buffer := new TcpClientBuffer();
      open, chunks, sent := false, [], [];
    }

    method Close()
      requires Valid()
      modifies Repr()
      ensures Valid() && fresh(Repr() - old(Repr()))
      ensures !open && Unread() == [] && sent == old(sent)
    {
      open := false;
      chunks := [];
      buffer.Clear();
    }

    method Connect(attempt: Attempt) returns (ec: int)
      requires Valid()
      modifies Repr()
      ensures Valid() && fresh(Repr() - old(Repr()))
      ensures open == attempt.Reached? && (ec == 0 <==> attempt.Reached?)
      ensures attempt.Reached? ==> Unread() == Flat(attempt.chunks) && sent == []
      ensures attempt.Unreachable? ==> Unread() == [] && sent == old(sent)
    {
      Close();
      match attempt {
        case Unreachable(errno) =>
          ec := errno;
        case Reached(cs) =>
          open, chunks, sent := true, cs, [];
          ec := 0;
      }
    }

    /** is_open, given what the occasional slow check of the descriptor would find. */
    method IsOpen(alive: bool) returns (yes: bool)
      ensures yes == (open && alive)
    {
      yes := open && alive;
    }

    /** poll and recv into a region of 'room' bytes; no bytes means a timeout, an error or the end of the stream. */
    method Recv(room: nat) returns (got: Bytes)
      requires Valid() && room > 0
      modifies this`chunks
      ensures Valid() && |got| <= room
      ensures old(Unread()) == buffer.Contents() + got + Flat(chunks)
      ensures got == [] ==> chunks == [] && old(chunks) == []
      ensures got != [] ==> open && |Flat(chunks)| < |Flat(old(chunks))|
    {
      if chunks == [] {
        return [];
      }
      var head: Bytes, tail := chunks[0], chunks[1..];
      if |head| <= room {
        got := head;
        chunks := tail;
      } else {
        got := head[..room];
        chunks := [head[room..]] + tail;
        assert chunks[1..] == tail;
        assert head == got + head[room..];
      }
      assert Flat(old(chunks)) == got + Flat(chunks);
    }

    /** prepare, timed_read into the free region, produce; 0 closes, and then nothing was left to come. */
    method Fill(size: nat) returns (count: nat)
      requires Valid() && size > 0
      modifies Repr()
      ensures Valid() && fresh(Repr() - old(Repr())) && sent == old(sent)
      ensures count == 0 ==> !open && Unread() == [] && old(Unread()) == old(buffer.Contents())
      ensures count > 0 ==>
                && open == old(open) && Unread() == old(Unread())
                && old(buffer.Contents()) <= buffer.Contents()
                && buffer.ReadSize() == old(buffer.ReadSize()) + count
                && |Flat(chunks)| < old(|Flat(chunks)|)
    {
      buffer.Prepare(size, false);
      var got := Recv(buffer.FreeSize());
      count := |got|;
      if count == 0 {
        Close();
      } else {
        buffer.Produce(got);
      }
    }

    /**
     * Exactly TakeBlock of the unconsumed stream, however it is cut into chunks. 'toRead' is a
     * size_t: it wraps when more than expected is buffered, and is exact whenever it is used.
     */
    method Read(size: nat) returns (block: Option<Bytes>)
      requires Valid() && size + 2 < TWO_64
      modifies Repr()
      ensures Valid() && fresh(Repr() - old(Repr())) && sent == old(sent)
      ensures block.None? <==> TakeBlock(old(Unread()), size).None?
      ensures block.None? ==> !open && Unread() == []
      ensures block.Some? ==>
                && open == old(open)
                && TakeBlock(old(Unread()), size) == Some((block.value, Unread()))
    {
      var wanted := size + 2;
      var toRead := (wanted - buffer.ReadSize()) % TWO_64;
      while buffer.ReadSize() < wanted
        invariant Valid() && fresh(Repr() - old(Repr())) && sent == old(sent) && open == old(open)
        invariant Unread() == old(Unread())
        invariant toRead == (wanted - buffer.ReadSize()) % TWO_64
        decreases |Flat(chunks)|
      {
        assert toRead == wanted - buffer.ReadSize() > 0;
        var count := Fill(toRead);
        if count == 0 {
          return None;
        }
        toRead := (toRead - count) % TWO_64;
      }
      block := TakeBytes(size);
    }

    /** The block and its two trailing bytes are buffered: hand out the block and consume all. */
    method TakeBytes(size: nat) returns (block: Option<Bytes>)
      requires Valid() && size + 2 <= buffer.ReadSize()
      modifies buffer
      ensures Valid() && (buffer.data == old(buffer.data) || fresh(buffer.data))
      ensures block.Some? && TakeBlock(old(Unread()), size) == Some((block.value, Unread()))
    {
      ghost var all := Unread();
      var bytes := buffer.Consume(size + 2);
      block := Some(bytes[..size]);
      assert bytes[..size] == all[..size];
      assert Unread() == all[size + 2..];
    }

    /** Exactly SplitLine of the unconsumed stream, however it is cut, even inside a delimiter. */
    method ReadLine() returns (line: Option<Bytes>)
      requires Valid()
      modifies Repr()
      ensures Valid() && fresh(Repr() - old(Repr())) && sent == old(sent)
      ensures line.None? <==> SplitLine(old(Unread())).None?
      ensures line.None? ==> !open && Unread() == []
      ensures line.Some? ==>
                && open == old(open)
                && SplitLine(old(Unread())) == Some((line.value, Unread()))
    {
      hide SplitLine;
      var offset: nat := 0;
      while true
        invariant Valid() && fresh(Repr() - old(Repr())) && sent == old(sent) && open == old(open)
        invariant Unread() == old(Unread())
        invariant Searched(buffer.Contents(), offset)
        decreases |Flat(chunks)|
      {
        var found: bool;
        found, offset := Search(offset);
        if found {
          line := TakeLine(offset);
          return;
        }
        ghost var front := buffer.Contents();
        var count := Fill(DEFAULT_BUFFER_SIZE);
        if count == 0 {
          assert NoCrlf(front);
          return None;
        }
        SearchedGrows(front, buffer.Contents(), offset);
      }
    }

    /** The inner loop of read_line, going on from where the last one stopped. */
    method Search(start: nat) returns (found: bool, offset: nat)
      requires Valid() && Searched(buffer.Contents(), start)
      ensures Searched(buffer.Contents(), offset)
      ensures found ==> CrlfAt(buffer.Contents(), offset)
      ensures !found ==> NoCrlf(buffer.Contents())
    {
      offset := start;
      while offset + 2 <= buffer.ReadSize()
        invariant Searched(buffer.Contents(), offset)
      {
        var at := buffer.read + offset;
        if buffer.data[at] == CR && buffer.data[at + 1] == LF {
          return true, offset;
        }
        offset := offset + 1;
      }
      found := false;
    }

    /** The delimiter has been found at 'offset': hand out the line and consume it. */
    method TakeLine(offset: nat) returns (line: Option<Bytes>)
      requires Valid() && CrlfAt(buffer.Contents(), offset) && Searched(buffer.Contents(), offset)
      modifies buffer
      ensures Valid() && (buffer.data == old(buffer.data) || fresh(buffer.data))
      ensures line.Some? && SplitLine(old(Unread())) == Some((line.value, Unread()))
    {
      hide SplitLine;
      ghost var all, front := Unread(), buffer.Contents();
      assert forall j: nat | j < offset :: CrlfAt(all, j) == CrlfAt(front, j);
      assert CrlfAt(all, offset);
      FirstCrlf(all, offset);
      var bytes := buffer.Consume(offset + 2);
      line := Some(bytes[..offset]);
      assert bytes[..offset] == all[..offset];
      assert Unread() == all[offset + 2..];
    }

    /**
     * The connection stays open exactly when it was open and the kernel takes the whole line, cut
     * to an int; exactly that is then sent. The error code is exact as well, and may be 0 on a
     * connection that was closed.
     */
    method Write(line: Bytes, env: WriteEnv) returns (ec: int)
      requires Valid()
      modifies Repr()
      ensures Valid() && fresh(Repr() - old(Repr()))
      ensures open <==> old(open) && WriteCompletes(line, env.events)
      ensures open ==> sent == old(sent) + Cut(line) && Unread() == old(Unread())
      ensures !open ==> Unread() == []
      ensures ec == WriteCode(old(open), line, env)
    {
      var r, errno, piece := TimedWriten(line, if open then env.events else [], env.errno);
      sent := sent + piece;
      Int32Exact(|line|);
      if r != Int32(|line|) {
        Close();
        ec := errno;
      } else {
        ec := 0;
      }
    }
  }

  // ---------- runs of reads ----------

  datatype ReadCall = LineCall | BlockCall(size: nat)

  // The results up to the first failure, and what is left, unless the connection was closed.
  datatype Served = Served(results: seq<Option<Bytes>>, rest: Option<Bytes>)

  function OneRead(s: Bytes, call: ReadCall): Option<(Bytes, Bytes)> {
    match call
    case LineCall => SplitLine(s)
    case BlockCall(size) => TakeBlock(s, size)
  }

  /** The calls on the whole stream, with no chunks in sight. */
  function ServeReads(s: Bytes, calls: seq<ReadCall>): Served
    decreases |calls|
  {
    if calls == [] then Served([], Some(s))
    else
      match OneRead(s, calls[0])
      case None => Served([None], None)
      case Some(p) =>
        var more := ServeReads(p.1, calls[1..]);
        Served([Some(p.0)] + more.results, more.rest)
  }

  /** Any run of read_line and read gives what the whole stream gives, however it is cut into chunks. */
  method ReplayReads(client: TcpClient, calls: seq<ReadCall>) returns (results: seq<Option<Bytes>>)
    requires client.Valid()
    requires forall k | 0 <= k < |calls| :: calls[k].BlockCall? ==> calls[k].size + 2 < TWO_64
    modifies client.Repr()
    ensures client.Valid() && fresh(client.Repr() - old(client.Repr()))
    ensures var served := ServeReads(old(client.Unread()), calls);
      && results == served.results
      && (served.rest.Some? ==> client.Unread() == served.rest.value && client.open == old(client.open))
      && (served.rest.None? ==> !client.open)
    decreases |calls|
  {
    hide SplitLine, TakeBlock, TcpClient.Unread, TcpClient.Valid;
    if calls == [] {
      return [];
    }
    var r;
    match calls[0] {
      case LineCall => r := client.ReadLine();
      case BlockCall(size) => r := client.Read(size);
    }
    if r.None? {
      return [None];
    }
    var more := ReplayReads(client, calls[1..]);
    results := [r] + more;
  }
}
