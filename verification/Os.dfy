// timed_writen: sending a request under partial sends, interruptions, timeouts and errors.
module Os {
  import opened Wire

  type Errno = e: int | e >= 1 witness 1
  type Positive = n: int | n >= 1 witness 1

  const ETIMEDOUT: Errno := 110
  const EINTR: Errno := 4

  // What poll and send answer at each turn of the loop.
  datatype SendEvent =
    | PollFailed(errno: Errno)     // poll failed or timed out
    | Sent(count: Positive)        // send takes up to this many bytes
    | Interrupted                  // poll or send was interrupted: EINTR
    | SendFailed(errno: Errno)
    | SentNothing                  // send returned 0

  /** static_cast<int> of a size_t. */
  function Int32(n: nat): int {
    (n + TWO_31) % TWO_32 - TWO_31
  }

  lemma Int32Exact(n: nat)
    ensures Int32(n) == n <==> n < 0x8000_0000
    ensures n < 0x1_0000_0000 && Int32(n) >= 0 ==> Int32(n) == n
    ensures Int32(n) <= n
  {
    if n < TWO_31 {
      assert (n + TWO_31) % TWO_32 == n + TWO_31;
    }
  }

  /** A text cut to the length that an int can hold. */
  function Cut(line: Bytes): Bytes {
    var n := Int32(|line|);
    if 0 <= n <= |line| then line[..n] else []
  }

  /** A write that is reported as complete has sent the whole text exactly when the text is shorter than 2^31 bytes. */
  lemma WholeWhenShort(line: Bytes)
    requires 0 <= Int32(|line|)
    ensures Cut(line) == line <==> |line| < 0x8000_0000
  {
    Int32Exact(|line|);
    if |line| >= TWO_31 {
      assert |Cut(line)| < |line|;
    }
  }

  // ---------- what the kernel lets through ----------

  predicate Stops(e: SendEvent) {
    e.PollFailed? || e.SendFailed? || e.SentNothing?
  }

  /** The bytes the kernel is ready to take before the first event that ends the loop. */
  function Supply(events: seq<SendEvent>): nat {
    if events == [] || Stops(events[0]) then 0
    else (if events[0].Sent? then events[0].count else 0) + Supply(events[1..])
  }

  /** The first event that ends the loop; with none left, poll times out. */
  function StopOf(events: seq<SendEvent>): SendEvent {
    if events == [] then PollFailed(ETIMEDOUT)
    else if Stops(events[0]) then events[0]
    else StopOf(events[1..])
  }

  function StopErrno(events: seq<SendEvent>): int {
    var e := StopOf(events);
    if e.PollFailed? || e.SendFailed? then e.errno else 0
  }

  /** An interruption or a partial send does not end the loop; everything else does, taking nothing more. */
  lemma WhatStops(e: SendEvent, more: seq<SendEvent>)
    ensures e.Interrupted? ==> Supply([e] + more) == Supply(more) && StopOf([e] + more) == StopOf(more)
    ensures e.Sent? ==> Supply([e] + more) == e.count + Supply(more) && StopOf([e] + more) == StopOf(more)
    ensures !e.Interrupted? && !e.Sent? ==> Supply([e] + more) == 0 && StopOf([e] + more) == e
    ensures e.PollFailed? || e.SendFailed? ==> StopErrno([e] + more) == e.errno
    ensures e.SentNothing? ==> StopErrno([e] + more) == 0
    ensures Supply([]) == 0 && StopOf([]) == PollFailed(110)
  {
    assert ([e] + more)[1..] == more;
  }

  /** An interruption is met before n bytes are taken. */
  predicate InterruptedWithin(events: seq<SendEvent>, n: int) {
    && n > 0 && events != [] && !Stops(events[0])
    && (events[0].Interrupted? || InterruptedWithin(events[1..], n - events[0].count))
  }

  /**
   * Exactly what is sent, returned and left in errno: all of the text, cut to an int, when the
   * kernel takes that much before anything stops the loop, with errno as it was or EINTR;
   * otherwise what it did take, with errno that of what stopped it.
   */
  method TimedWriten(buf: Bytes, events: seq<SendEvent>, errno0: int)
    returns (r: int, errno: int, sent: Bytes)
    ensures Int32(|buf|) <= 0 ==> r == 0 && sent == [] && errno == errno0
    ensures 0 < Int32(|buf|) <= Supply(events) ==>
              && r == Int32(|buf|) && sent == Cut(buf)
              && errno == if InterruptedWithin(events, Int32(|buf|)) then EINTR else errno0
    ensures Supply(events) < Int32(|buf|) ==>
              && Supply(events) <= |buf| && sent == buf[..Supply(events)]
              && errno == StopErrno(events)
              && r == if StopOf(events).SendFailed? then -1 else Supply(events)
  {
    Int32Exact(|buf|);
    var size := Int32(|buf|);
    var left := size;
    var pos := 0;
    var i := 0;
    sent := [];
    errno := errno0;
    assert events[0..] == events;
    while left > 0
      invariant 0 <= i <= |events| && 0 <= pos <= |buf|
      invariant sent == buf[..pos] && left == size - pos
      invariant size <= 0 ==> pos == 0 && errno == errno0
      invariant left > 0 ==> Supply(events) == pos + Supply(events[i..]) && StopOf(events) == StopOf(events[i..])
      invariant size > 0 ==> left >= 0 && (left == 0 ==> Supply(events) >= size)
      invariant errno == errno0 || errno == EINTR
      invariant errno == EINTR != errno0 ==> InterruptedWithin(events, size)
      invariant errno == errno0 != EINTR ==> InterruptedWithin(events, size) == InterruptedWithin(events[i..], left)
      decreases |events| - i
    {
      if i == |events| {
        errno := ETIMEDOUT;
        break;
      }
      assert events[i..][1..] == events[i + 1..];
      var n := 0;
      match events[i] {
        case PollFailed(e) =>
          errno := e;
          break;
        case SendFailed(e) =>
          errno := e;
          return -1, errno, sent;
        case SentNothing =>
          errno := 0;
          break;
        case Interrupted =>
          errno := EINTR;
        case Sent(count) =>
          n := if count > left then left else count;
      }
      sent := sent + buf[pos..pos + n];
      assert sent == buf[..pos + n];
      left := left - n;
      pos := pos + n;
      i := i + 1;
    }
    r := size - left;
  }

  // ---------- TcpClient::Impl::write ----------

  // What the kernel does with one write, and errno before it.
  datatype WriteEnv = WriteEnv(events: seq<SendEvent>, errno: int)

  /** On a closed descriptor poll only times out. */
  function Kernel(open: bool, env: WriteEnv): seq<SendEvent> {
    if open then env.events else []
  }

  /** A write is reported complete: nothing to send after the cut, or the kernel takes all of it. */
  predicate WriteCompletes(line: Bytes, events: seq<SendEvent>) {
    0 <= Int32(|line|) <= Supply(events)
  }

  /** The error code of a write. */
  function WriteCode(open: bool, line: Bytes, env: WriteEnv): int {
    if WriteCompletes(line, Kernel(open, env)) then 0
    else if Int32(|line|) < 0 then env.errno
    else StopErrno(Kernel(open, env))
  }
}
