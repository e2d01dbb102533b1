/** Pools of equally sized buffers shared with the kernel, and the ring they are registered with. */
module BufferGroups {
  import opened ByteStreams
  import opened Outcomes
  import opened Completions

  /** A pool of `count` buffers of `size` bytes, laid out one after the other. */
  datatype Pool = Pool(count: nat, size: nat) {
    function Base(bid: nat): nat {
      bid * size
    }

    function Bytes(): nat {
      count * size
    }

    /** The part of the memory that backs buffer `bid`. */
    function Buffer(mem: seq<byte>, bid: nat): (b: seq<byte>)
      requires |mem| == Bytes() && bid < count
      ensures |b| == size
    {
      BufferInside(this, bid);
      mem[Base(bid)..Base(bid) + size]
    }

    /** `len` bytes from offset `off` of buffer `bid`. */
    function Window(mem: seq<byte>, bid: nat, off: nat, len: nat): (w: seq<byte>)
      requires |mem| == Bytes() && bid < count && off + len <= size
      ensures |w| == len
    {
      BufferInside(this, bid);
      mem[Base(bid) + off..Base(bid) + off + len]
    }

    /** The range `v` lies inside buffer `bid`. */
    predicate Holds(bid: nat, v: IoVec) {
      bid < count && Base(bid) <= v.base && v.base + v.len <= Base(bid) + size
    }

    /** A slice of buffer `bid`: all of it, or its first `len` bytes. */
    function GetBuffer(bid: nat, len: Option<nat>): (r: Result<IoVec>)
      ensures r.Ok? <==> bid < count && (len.Some? ==> len.value <= size)
      ensures r.Ok? ==> Holds(bid, r.value) && r.value.base == Base(bid)
      ensures r.Ok? ==> r.value.len == if len.Some? then len.value else size
      ensures r.Fail? ==> r.error == if bid < count then InvalidSize else InvalidBid
    {
      if bid >= count then Fail(InvalidBid)
      else if len.Some? && len.value > size then Fail(InvalidSize)
      else Ok(IoVec(Base(bid), if len.Some? then len.value else size))
    }
  }

  lemma BufferInside(p: Pool, bid: nat)
    requires bid < p.count
    ensures p.Base(bid) + p.size <= p.Bytes()
  {
    Monotone(bid + 1, p.count, p.size);
    assert (bid + 1) * p.size == bid * p.size + p.size;
  }

  lemma Monotone(a: nat, b: nat, k: nat)
    requires a <= b
    ensures a * k <= b * k
  {
  }

  /** Different buffers never overlap. */
  lemma BuffersDisjoint(p: Pool, a: nat, b: nat)
    requires a < b
    ensures p.Base(a) + p.size <= p.Base(b)
  {
    Monotone(a + 1, b, p.size);
    assert (a + 1) * p.size == a * p.size + p.size;
  }

  lemma RangeOfBuffer(p: Pool, mem: seq<byte>, bid: nat, v: IoVec)
    requires |mem| == p.Bytes() && p.Holds(bid, v)
    ensures v.base + v.len <= |mem|
    ensures mem[v.base..v.base + v.len] == p.Window(mem, bid, v.base - p.Base(bid), v.len)
  {
    BufferInside(p, bid);
  }

  /** A buffer group: the pool's memory and the buffers handed to the kernel through the ring. */
  class BufferGroup {
    const pool: Pool
    const data: array<byte>
    const bgid: nat
    /** Every buffer added to the ring and not yet taken by the kernel, as often as it was added. */
    var avail: multiset<nat>

    constructor (pool: Pool, bgid: nat)
      ensures this.pool == pool && this.bgid == bgid && avail == multiset{}
      ensures data.Length == pool.Bytes() && fresh(data)
    {
      this.pool, this.bgid := pool, bgid;
      data := new byte[pool.Bytes()](_ => 0);
      avail := multiset{};
    }

    /** Hands a buffer back to the kernel. */
    method ReturnBuffer(bid: nat) returns (r: Outcome)
      modifies this`avail
      ensures r == if bid < pool.count then Done else Failed(InvalidBid)
      ensures avail == if bid < pool.count then old(avail) + multiset{bid} else old(avail)
    {
      if bid >= pool.count {
        return Failed(InvalidBid);
      }
      var buffer := pool.GetBuffer(bid, None);
      assert buffer.Ok?;
      avail := avail + multiset{bid};
      return Done;
    }
  }

  /** The ring: what was submitted and has not completed yet, and the registered groups. */
  class IoUring {
    var pending: multiset<OperationType>
    var groups: seq<BufferGroup>
    var nextBgid: nat

    constructor ()
      ensures pending == multiset{} && groups == [] && nextBgid == 0
    {
      pending, groups, nextBgid := multiset{}, [], 0;
    }

    /** Takes a submission entry for `op` and submits it. */
    method Submit(op: OperationType)
      modifies this`pending
      ensures pending == old(pending) + multiset{op}
    {
      pending := pending + multiset{op};
    }

    /** A new group whose buffers all belong to the kernel, each exactly once. */
    method CreateBufferGroup(length: nat, bufSize: nat, setupFails: bool) returns (r: Result<BufferGroup>)
      modifies this`groups, this`nextBgid
      ensures length == 0 || bufSize == 0 ==>
                r == Fail(InvalidArgument) && groups == old(groups) && nextBgid == old(nextBgid)
      ensures length != 0 && bufSize != 0 ==> nextBgid == (old(nextBgid) + 1) % 0x1_0000
      ensures length != 0 && bufSize != 0 && setupFails ==>
                r == Fail(RingBufferRingSetupFailed) && groups == old(groups)
      ensures length != 0 && bufSize != 0 && !setupFails ==>
                && r.Ok? && fresh(r.value) && fresh(r.value.data)
                && groups == old(groups) + [r.value]
                && r.value.bgid == old(nextBgid)
                && r.value.pool == Pool(length, bufSize) && r.value.data.Length == length * bufSize
                && forall b: nat :: r.value.avail[b] == if b < length then 1 else 0
    {
      if length == 0 || bufSize == 0 {
        return Fail(InvalidArgument);
      }
      var bg := new BufferGroup(Pool(length, bufSize), nextBgid);
      nextBgid := (nextBgid + 1) % 0x1_0000;
      if setupFails {
        return Fail(RingBufferRingSetupFailed);
      }
      var added: multiset<nat> := multiset{};
      for bid := 0 to length
        invariant forall b: nat :: added[b] == if b < bid then 1 else 0
      {
        var buffer := bg.pool.GetBuffer(bid, None);
        assert buffer.Ok?;
        added := added + multiset{bid};
      }
      bg.avail := added;
      groups := groups + [bg];
      return Ok(bg);
    }
  }
}
