/** The pool memory as the kernel shares it: it may overwrite every buffer it owns, and no other. */
module KernelMemory {
  import opened ByteStreams
  import opened BufferGroups

  /** Buffers that do not belong to the kernel keep their bytes. */
  predicate OnlyAvailChanges(p: Pool, avail: multiset<nat>, mem: seq<byte>, mem': seq<byte>) {
    && |mem| == |mem'| == p.Bytes()
    && forall b: nat | b < p.count && avail[b] == 0 :: p.Buffer(mem', b) == p.Buffer(mem, b)
  }

  /** The memory with `bytes` stored at the start of buffer `bid`. */
  function Fill(p: Pool, mem: seq<byte>, bid: nat, bytes: seq<byte>): (mem': seq<byte>)
    requires |mem| == p.Bytes() && bid < p.count && |bytes| <= p.size
    ensures |mem'| == |mem|
  {
    BufferInside(p, bid);
    mem[..p.Base(bid)] + bytes + mem[p.Base(bid) + |bytes|..]
  }

  /** The buffers of a pool of `n`, each once. */
  function Everything(n: nat): (all: multiset<nat>)
    ensures forall b: nat :: all[b] == if b < n then 1 else 0
  {
    if n == 0 then multiset{} else Everything(n - 1) + multiset{n - 1}
  }

  lemma {:induction false} EverythingSize(n: nat)
    ensures |Everything(n)| == n
  {
    if n > 0 {
      EverythingSize(n - 1);
    }
  }

  lemma RangeFrame(p: Pool, avail: multiset<nat>, mem: seq<byte>, mem': seq<byte>, bid: nat, v: IoVec)
    requires OnlyAvailChanges(p, avail, mem, mem') && p.Holds(bid, v) && avail[bid] == 0
    ensures v.base + v.len <= |mem|
    ensures mem[v.base..v.base + v.len] == mem'[v.base..v.base + v.len]
  {
    BufferInside(p, bid);
    var from := v.base - p.Base(bid);
    assert p.Buffer(mem, bid) == p.Buffer(mem', bid);
    var base := p.Base(bid);
    hide Pool.Bytes, Pool.Base;
    SliceOfSlice(mem, base, p.size, from, v.len);
    SliceOfSlice(mem', base, p.size, from, v.len);
  }

  lemma SliceOfSlice<T>(s: seq<T>, a: nat, n: nat, from: nat, len: nat)
    requires a + n <= |s| && from + len <= n
    ensures s[a..a + n][from..from + len] == s[a + from..a + from + len]
  {
    var part := s[a..a + n][from..from + len];
    assert forall k | 0 <= k < len :: part[k] == s[a + from + k];
  }

  lemma WindowFrame(p: Pool, avail: multiset<nat>, mem: seq<byte>, mem': seq<byte>, bid: nat, len: nat)
    requires OnlyAvailChanges(p, avail, mem, mem') && bid < p.count && len <= p.size && avail[bid] == 0
    ensures p.Window(mem', bid, 0, len) == p.Window(mem, bid, 0, len)
  {
    BufferInside(p, bid);
    assert p.Buffer(mem, bid) == p.Buffer(mem', bid);
    assert p.Window(mem, bid, 0, len) == p.Buffer(mem, bid)[..len];
    assert p.Window(mem', bid, 0, len) == p.Buffer(mem', bid)[..len];
  }

  /** Storing received bytes changes nothing outside the buffer, and the buffer then starts with them. */
  lemma FillFrame(p: Pool, avail: multiset<nat>, mem: seq<byte>, bid: nat, bytes: seq<byte>)
    requires |mem| == p.Bytes() && bid < p.count && |bytes| <= p.size && avail[bid] > 0
    ensures OnlyAvailChanges(p, avail, mem, Fill(p, mem, bid, bytes))
    ensures p.Window(Fill(p, mem, bid, bytes), bid, 0, |bytes|) == bytes
  {
    var mem' := Fill(p, mem, bid, bytes);
    BufferInside(p, bid);
    forall b: nat | b < p.count && avail[b] == 0 ensures p.Buffer(mem', b) == p.Buffer(mem, b) {
      BufferInside(p, b);
      if b < bid { BuffersDisjoint(p, b, bid); } else { BuffersDisjoint(p, bid, b); }
    }
  }
}
