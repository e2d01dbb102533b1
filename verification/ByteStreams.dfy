/** Bytes, segmented byte strings and prefixes. */
module ByteStreams {

  type byte = bv8

  /** The concatenation of a list of segments, in order. */
  function Concat<T>(parts: seq<seq<T>>): seq<T> {
    if parts == [] then [] else parts[0] + Concat(parts[1..])
  }

  lemma Associative<T>(a: seq<T>, b: seq<T>, c: seq<T>)
    ensures a + b + c == a + (b + c)
  {
  }

  lemma PrefixTrans<T>(a: seq<T>, b: seq<T>, c: seq<T>)
    requires a <= b <= c
    ensures a <= c
  {
  }

  lemma {:induction false} ConcatAppend<T>(parts: seq<seq<T>>, more: seq<seq<T>>)
    ensures Concat(parts + more) == Concat(parts) + Concat(more)
  {
    if parts == [] {
      assert parts + more == more;
    } else {
      assert (parts + more)[1..] == parts[1..] + more;
      ConcatAppend(parts[1..], more);
    }
  }

  lemma ConcatSnoc<T>(parts: seq<seq<T>>, last: seq<T>)
    ensures Concat(parts + [last]) == Concat(parts) + last
  {
    ConcatAppend(parts, [last]);
    assert Concat([last]) == last + Concat([]);
  }

  /** One `iovec`: `len` bytes of the memory starting at address `base`. */
  datatype IoVec = IoVec(base: nat, len: nat)

  predicate InBounds(mem: seq<byte>, iov: seq<IoVec>) {
    forall i | 0 <= i < |iov| :: iov[i].base + iov[i].len <= |mem|
  }

  /** The bytes a scatter/gather list denotes. */
  function Gather(mem: seq<byte>, iov: seq<IoVec>): seq<byte>
    requires InBounds(mem, iov)
  {
    if iov == [] then [] else mem[iov[0].base..iov[0].base + iov[0].len] + Gather(mem, iov[1..])
  }

  function TotalLength(iov: seq<IoVec>): nat {
    if iov == [] then 0 else iov[0].len + TotalLength(iov[1..])
  }

  lemma {:induction false} GatherLength(mem: seq<byte>, iov: seq<IoVec>)
    requires InBounds(mem, iov)
    ensures |Gather(mem, iov)| == TotalLength(iov)
  {
    if iov != [] {
      GatherLength(mem, iov[1..]);
    }
  }

  lemma {:induction false} GatherConcat(mem: seq<byte>, iov: seq<IoVec>, more: seq<IoVec>)
    requires InBounds(mem, iov) && InBounds(mem, more)
    ensures InBounds(mem, iov + more) && Gather(mem, iov + more) == Gather(mem, iov) + Gather(mem, more)
  {
    if iov == [] {
      assert iov + more == more;
    } else {
      GatherConcat(mem, iov[1..], more);
      assert (iov + more)[1..] == iov[1..] + more;
    }
  }

  lemma {:induction false} TotalLengthSnoc(iov: seq<IoVec>, v: IoVec)
    ensures TotalLength(iov + [v]) == TotalLength(iov) + v.len
  {
    if iov == [] {
      assert iov + [v] == [v];
      assert [v][1..] == [];
    } else {
      assert (iov + [v])[1..] == iov[1..] + [v];
      TotalLengthSnoc(iov[1..], v);
    }
  }

  lemma GatherSnoc(mem: seq<byte>, iov: seq<IoVec>, v: IoVec)
    requires InBounds(mem, iov) && v.base + v.len <= |mem|
    ensures InBounds(mem, iov + [v])
    ensures Gather(mem, iov + [v]) == Gather(mem, iov) + mem[v.base..v.base + v.len]
    ensures TotalLength(iov + [v]) == TotalLength(iov) + v.len
  {
    assert [v][1..] == [] && Gather(mem, [v]) == mem[v.base..v.base + v.len];
    hide Gather;
    GatherConcat(mem, iov, [v]);
    TotalLengthSnoc(iov, v);
  }

  /** A gather list reads nothing but its own ranges. */
  lemma {:induction false} GatherFrame(mem: seq<byte>, mem': seq<byte>, iov: seq<IoVec>)
    requires InBounds(mem, iov) && InBounds(mem', iov)
    requires forall i | 0 <= i < |iov| ::
               mem[iov[i].base..iov[i].base + iov[i].len] == mem'[iov[i].base..iov[i].base + iov[i].len]
    ensures Gather(mem, iov) == Gather(mem', iov)
  {
    if iov != [] {
      GatherFrame(mem, mem', iov[1..]);
    }
  }
}
