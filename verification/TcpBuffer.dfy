// TcpClientBuffer: a growing buffer with two cursors that behaves as a byte queue.
module TcpBuffer {
  import opened Wire

  const DEFAULT_BUFFER_SIZE: nat := 512
  const MAX_BUFFER_SIZE: nat := 65536
  const TWO_63: int := 0x8000_0000_0000_0000

  /** The j-th capacity: 512 doubled j times. */
  function Cap(j: nat): (n: nat)
    ensures n >= 512
  {
    if j == 0 then 512 else 2 * Cap(j - 1)
  }

  ghost predicate IsCapacity(n: nat) {
    exists j: nat :: n == Cap(j)
  }

  class TcpClientBuffer {
    var data: array<byte>
    var read: nat      // first byte not consumed yet
    var toRead: nat    // where the next received byte goes

    ghost predicate Valid()
      reads this, data
    {
      read <= toRead <= data.Length && IsCapacity(data.Length)
    }

    ghost function Contents(): Bytes
      requires Valid()
      reads this, data
    {
      data[read..toRead]
    }

    constructor ()
      ensures Valid() && fresh(data) && Contents() == []
    {
      data := new byte[DEFAULT_BUFFER_SIZE];
      read, toRead := 0, 0;
      new;
      assert data.Length == Cap(0);
    }

    function ReadSize(): nat
      requires Valid()
      reads this, data
    {
      toRead - read
    }

    function FreeSize(): nat
      requires Valid()
      reads this, data
    {
      data.Length - toRead
    }

    method Clear()
      requires Valid()
      modifies this
      ensures Valid() && fresh(data) && Contents() == [] && data.Length == DEFAULT_BUFFER_SIZE
    {
      data := new byte[DEFAULT_BUFFER_SIZE];
      read, toRead := 0, 0;
      assert data.Length == Cap(0);
    }

    /** Keeps the unread bytes, yields the requested space, and grows to at most twice what is needed. */
    method Prepare(size: nat, drain: bool)
      requires Valid()
      modifies this
      ensures Valid() && (data == old(data) || fresh(data))
      ensures Contents() == old(Contents())
      ensures FreeSize() >= size
      ensures data.Length >= old(data.Length)
      ensures data.Length <= old(data.Length) || data.Length <= 2 * (|Contents()| + size)
    {
      if size == 0 {
        return;
      }
      if !drain && FreeSize() >= size {
        return;
      }
      var rsize := ReadSize();
      var minNewSize := rsize + size;
      var newSize := data.Length;
      while newSize <= minNewSize
        invariant IsCapacity(newSize) && newSize >= data.Length
        invariant newSize == data.Length || newSize <= 2 * minNewSize
        decreases minNewSize - newSize
      {
        ghost var j: nat :| newSize == Cap(j);
        assert Cap(j + 1) == 2 * newSize;
        newSize := 2 * newSize;
      }
      var fresher := new byte[newSize];
      forall k | 0 <= k < rsize {
        fresher[k] := data[read + k];
      }
      assert fresher[..rsize] == data[read..toRead];
      data := fresher;
      read, toRead := 0, rsize;
    }

    /** What recv stores in the free region, then produce. */
    method Produce(bytes: Bytes)
      requires Valid() && |bytes| <= FreeSize()
      modifies this, data
      ensures Valid() && data == old(data)
      ensures Contents() == old(Contents()) + bytes
    {
      var at := toRead;
      forall k | 0 <= k < |bytes| {
        data[at + k] := bytes[k];
      }
      toRead := at + |bytes|;
      assert data[read..at] == old(Contents());
      assert data[at..toRead] == bytes;
      assert data[read..toRead] == data[read..at] + data[at..toRead];
    }

    method Consume(size: nat) returns (bytes: Bytes)
      requires Valid() && 0 < size <= ReadSize()
      modifies this
      ensures Valid() && (data == old(data) || fresh(data))
      ensures bytes == old(Contents())[..size]
      ensures Contents() == old(Contents())[size..]
    {
      bytes := data[read..read + size];
      assert bytes == Contents()[..size];
      read := read + size;
      assert Contents() == old(Contents())[size..];
      if ReadSize() == 0 && data.Length >= MAX_BUFFER_SIZE {
        Prepare(DEFAULT_BUFFER_SIZE, true);
      } else if ReadSize() == 0 {
        read, toRead := 0, 0;
      }
    }
  }

  // ---------- the growth loop in 64-bit arithmetic ----------

  /** 'n << 1' on a size_t, repeated. */
  function Shifted(n: nat, times: nat): (r: nat) {
    if times == 0 then n else (2 * Shifted(n, times - 1)) % TWO_64
  }

  lemma {:induction false} CapMonotone(i: nat, j: nat)
    requires i <= j
    ensures Cap(i) <= Cap(j)
  {
    if i < j {
      CapMonotone(i, j - 1);
    }
  }

  lemma CapDoubles(j: nat)
    ensures Cap(j + 1) == 2 * Cap(j)
  {
  }

  lemma Cap54()
    ensures Cap(54) == TWO_63
  {
    assert Cap(9) == 0x4_0000;
    assert Cap(18) == 0x800_0000;
    assert Cap(27) == 0x10_0000_0000;
    assert Cap(36) == 0x2000_0000_0000;
    assert Cap(45) == 0x40_0000_0000_0000;
    assert Cap(54) == 0x8000_0000_0000_0000;
  }

  lemma CapBelow(j: nat)
    requires Cap(j) < TWO_64
    ensures j <= 54
  {
    Cap54();
    if j >= 55 {
      CapMonotone(55, j);
    }
  }

  /** While it stays below 2^63 the shift doubles; one more step gives 0, for good. */
  lemma {:induction false} ShiftedCap(j: nat, times: nat)
    requires j <= 54
    ensures Shifted(Cap(j), times) == if j + times <= 54 then Cap(j + times) else 0
  {
    hide Cap;
    Cap54();
    if times > 0 {
      ShiftedCap(j, times - 1);
      CapDoubles(j + times - 1);
      if j + times <= 54 {
        CapDoubles(53);
        CapMonotone(j + times - 1, 53);
      }
    }
  }

  /**
   * From every reachable capacity the loop that doubles 'new_size' while it is at most the
   * needed size ends in 64-bit arithmetic exactly when the needed size is below 2^63.
   */
  lemma GrowthLoopEnds(j: nat, needed: nat)
    requires Cap(j) < TWO_64
    ensures (exists times: nat :: Shifted(Cap(j), times) > needed) <==> needed < TWO_63
  {
    Cap54();
    CapBelow(j);
    ShiftedCap(j, 54 - j);
    forall times: nat
      ensures Shifted(Cap(j), times) <= TWO_63
    {
      ShiftedCap(j, times);
      if j + times <= 54 {
        CapMonotone(j + times, 54);
      }
    }
  }
}
