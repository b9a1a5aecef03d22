/**
Scatter/gather over a descriptor chain: the consumer of a list of host slices, and the Reader
and Writer on top of it.

The meaning of a list of slices is `Flatten`, the host addresses it covers in order.  A consumer
keeps, through any sequence of consumes, the suffix of its original address list that starts
after the bytes consumed so far.
 */
module ScatterGather {
  import opened Wrappers

  datatype Slice = Slice(addr: nat, len: nat)

  datatype Error = DescriptorChainOverflow | FindMemoryRegion | GuestMemoryError | IoError

  function Range(s: Slice): (r: seq<nat>)
    ensures |r| == s.len && forall i :: 0 <= i < s.len ==> r[i] == s.addr + i
  {
    seq(s.len, i requires 0 <= i => s.addr + i)
  }

  function Total(bs: seq<Slice>): nat {
    if bs == [] then 0 else Total(bs[..|bs| - 1]) + bs[|bs| - 1].len
  }

  function Flatten(bs: seq<Slice>): (r: seq<nat>)
    ensures |r| == Total(bs)
  {
    if bs == [] then [] else Flatten(bs[..|bs| - 1]) + Range(bs[|bs| - 1])
  }

  lemma {:induction false} FlattenConcat(a: seq<Slice>, b: seq<Slice>)
    ensures Flatten(a + b) == Flatten(a) + Flatten(b)
  {
    if b == [] {
      assert a + b == a;
    } else {
      var n := |b| - 1;
      assert (a + b)[..|a + b| - 1] == a + b[..n];
      FlattenConcat(a, b[..n]);
      assert Flatten(a) + (Flatten(b[..n]) + Range(b[n])) == (Flatten(a) + Flatten(b[..n])) + Range(b[n]);
    }
  }

  lemma NoSlices()
    ensures Flatten([]) == [] && Total([]) == 0
  {
  }

  lemma FlattenCons(bs: seq<Slice>)
    requires bs != []
    ensures Flatten(bs) == Range(bs[0]) + Flatten(bs[1..])
    ensures Total(bs) == bs[0].len + Total(bs[1..])
  {
    assert bs == [bs[0]] + bs[1..];
    FlattenConcat([bs[0]], bs[1..]);
    assert [bs[0]][..0] == [];
    assert Flatten([bs[0]]) == Range(bs[0]);
  }

  lemma FlattenPrefix(bs: seq<Slice>, k: nat)
    requires k < |bs|
    ensures Flatten(bs[..k + 1]) == Flatten(bs[..k]) + Range(bs[k])
    ensures Total(bs[..k + 1]) == Total(bs[..k]) + bs[k].len
  {
    hide Range;
    assert bs[..k + 1][..k] == bs[..k];
  }

  lemma FlattenSplit(bs: seq<Slice>, k: nat)
    requires k < |bs|
    ensures Flatten(bs) == (Flatten(bs[..k]) + Range(bs[k])) + Flatten(bs[k + 1..])
    ensures Total(bs[..k + 1]) == Total(bs[..k]) + bs[k].len <= Total(bs)
  {
    hide Range, Flatten, Total;
    FlattenPrefix(bs, k);
    assert bs == bs[..k + 1] + bs[k + 1..];
    FlattenConcat(bs[..k + 1], bs[k + 1..]);
  }

  /** Slice `k` sits in the flat list after all bytes of the slices before it. */
  lemma FlattenIndex(bs: seq<Slice>, k: nat)
    requires k < |bs|
    ensures var n := Total(bs[..k]);
            && Total(bs[..k + 1]) == n + bs[k].len <= |Flatten(bs)|
            && forall i :: n <= i < n + bs[k].len ==> Flatten(bs)[i] == bs[k].addr + (i - n)
  {
    FlattenSplit(bs, k);
  }

  // Which slices a consume offers

  /** The shortest prefix of the slices that holds `count` bytes, or all of them. */
  function Offered(bs: seq<Slice>, count: nat): seq<Slice> {
    if bs == [] || count == 0 then []
    else [bs[0]] + Offered(bs[1..], if count < bs[0].len then 0 else count - bs[0].len)
  }

  lemma OfferedStep(bs: seq<Slice>, k: nat, rem: nat, bufs: seq<Slice>)
    requires k < |bs| && rem > 0
    ensures bufs + Offered(bs[k..], rem)
         == (bufs + [bs[k]]) + Offered(bs[k + 1..], if rem < bs[k].len then 0 else rem - bs[k].len)
  {
    assert bs[k..][0] == bs[k] && bs[k..][1..] == bs[k + 1..];
    var tail := Offered(bs[k + 1..], if rem < bs[k].len then 0 else rem - bs[k].len);
    assert bufs + ([bs[k]] + tail) == (bufs + [bs[k]]) + tail;
  }

  lemma OfferedStops(bs: seq<Slice>, rem: nat)
    requires bs == [] || rem == 0
    ensures Offered(bs, rem) == []
  {
  }

  lemma {:induction false} OfferedEnough(bs: seq<Slice>, count: nat)
    ensures Offered(bs, count) <= bs
    ensures Min(count, Total(bs)) <= Total(Offered(bs, count)) <= Total(bs)
    ensures Offered(bs, count) == [] <==> bs == [] || count == 0
  {
    if bs != [] && count != 0 {
      var rest := if count < bs[0].len then 0 else count - bs[0].len;
      OfferedEnough(bs[1..], rest);
      FlattenCons(bs);
      FlattenCons([bs[0]] + Offered(bs[1..], rest));
    }
  }

  /** `count` is the length of some prefix of the slices. */
  ghost predicate OnBoundary(bs: seq<Slice>, count: nat) {
    exists k :: 0 <= k <= |bs| && Total(bs[..k]) == count
  }

  lemma BoundaryCons(bs: seq<Slice>, count: nat)
    requires bs != [] && count > 0
    ensures OnBoundary(bs, count) <==> count >= bs[0].len && OnBoundary(bs[1..], count - bs[0].len)
  {
    var tail := bs[1..];
    forall k | 0 <= k < |bs| ensures Total(bs[..k + 1]) == bs[0].len + Total(tail[..k]) {
      assert bs[..k + 1][1..] == tail[..k];
      FlattenCons(bs[..k + 1]);
    }
    if k :| 0 <= k <= |bs| && Total(bs[..k]) == count {
      assert k > 0;
      assert bs[..(k - 1) + 1] == bs[..k];
      assert Total(tail[..k - 1]) == count - bs[0].len;
    }
    if count >= bs[0].len {
      if k :| 0 <= k <= |tail| && Total(tail[..k]) == count - bs[0].len {
        assert Total(bs[..k + 1]) == count;
      }
    }
  }

  /**
  The documented limit holds only on slice boundaries: the last offered slice is handed over
  whole, so the offer exceeds `count` exactly when `count` ends inside a slice.
   */
  lemma {:induction false} OfferWithinCount(bs: seq<Slice>, count: nat)
    ensures Total(Offered(bs, count)) <= count <==> count >= Total(bs) || OnBoundary(bs, count)
  {
    if count == 0 {
      assert Total(bs[..0]) == 0;
    } else if bs != [] {
      var rest := if count < bs[0].len then 0 else count - bs[0].len;
      var more := Offered(bs[1..], rest);
      OfferWithinCount(bs[1..], rest);
      BoundaryCons(bs, count);
      FlattenCons(bs);
      FlattenCons([bs[0]] + more);
      assert ([bs[0]] + more)[1..] == more;
    }
  }

  /** One 512-byte slice and a count of 100: 512 bytes are offered. */
  lemma OfferTooMuch()
    ensures Total(Offered([Slice(0, 512)], 100)) == 512
  {
    var bs := [Slice(0, 512)];
    assert bs[1..] == [] && Offered(bs, 100) == bs;
    FlattenCons(bs);
  }

  // Memory

  /** The bytes at a list of addresses. */
  function Load(mem: seq<byte>, addrs: seq<nat>): seq<byte>
    requires InBounds(mem, addrs)
  {
    seq(|addrs|, i requires 0 <= i < |addrs| => mem[addrs[i]])
  }

  predicate InBounds<T>(mem: seq<T>, addrs: seq<nat>) {
    forall i :: 0 <= i < |addrs| ==> addrs[i] < |mem|
  }

  /** Memory after the first `n` bytes of `data` are written, in order, at `addrs[at..at + n]`. */
  function Store(mem: seq<byte>, addrs: seq<nat>, at: nat, data: seq<byte>, n: nat): (r: seq<byte>)
    requires InBounds(mem, addrs) && at + n <= |addrs| && n <= |data|
    ensures |r| == |mem|
    decreases n
  {
    if n == 0 then mem else Store(mem, addrs, at, data, n - 1)[addrs[at + n - 1] := data[n - 1]]
  }

  lemma StoreNone(mem: seq<byte>, addrs: seq<nat>, data: seq<byte>)
    requires InBounds(mem, addrs)
    ensures Store(mem, addrs, 0, data, 0) == mem
  {
  }

  predicate Distinct(addrs: seq<nat>) {
    forall i, j :: 0 <= i < j < |addrs| ==> addrs[i] != addrs[j]
  }

  /** Nothing outside the listed addresses changes. */
  lemma {:induction false} StoreFrame(mem: seq<byte>, addrs: seq<nat>, at: nat, data: seq<byte>, n: nat, a: nat)
    requires InBounds(mem, addrs) && at + n <= |addrs| && n <= |data|
    requires a < |mem| && forall i :: at <= i < at + n ==> addrs[i] != a
    ensures Store(mem, addrs, at, data, n)[a] == mem[a]
    decreases n
  {
    if n != 0 {
      StoreFrame(mem, addrs, at, data, n - 1, a);
    }
  }

  /** Writing through pairwise distinct addresses and reading them back gives the data. */
  lemma {:induction false} LoadStore(mem: seq<byte>, addrs: seq<nat>, at: nat, data: seq<byte>, n: nat)
    requires InBounds(mem, addrs) && at + n <= |addrs| && n <= |data| && Distinct(addrs)
    ensures Load(Store(mem, addrs, at, data, n), addrs)[at..at + n] == data[..n]
    decreases n
  {
    if n != 0 {
      var before, after := Store(mem, addrs, at, data, n - 1), Store(mem, addrs, at, data, n);
      LoadStore(mem, addrs, at, data, n - 1);
      forall i | 0 <= i < n - 1 ensures after[addrs[at + i]] == data[i] {
        assert Load(before, addrs)[at..at + (n - 1)][i] == data[..n - 1][i];
      }
    }
  }

  /** Two writes in a row are one. */
  lemma {:induction false} StoreMore(mem: seq<byte>, addrs: seq<nat>, at: nat, data: seq<byte>, n: nat, m: nat)
    requires InBounds(mem, addrs) && at + n + m <= |addrs| && n + m <= |data|
    ensures Store(Store(mem, addrs, at, data, n), addrs, at + n, data[n..], m) == Store(mem, addrs, at, data, n + m)
    decreases m
  {
    if m != 0 {
      StoreMore(mem, addrs, at, data, n, m - 1);
    }
  }

  /** Only the addresses written through matter. */
  lemma {:induction false} StoreThrough(mem: seq<byte>, a: seq<nat>, b: seq<nat>, at: nat, data: seq<byte>, n: nat)
    requires InBounds(mem, a) && InBounds(mem, b) && n <= |a| && at + n <= |b| && n <= |data|
    requires forall i :: 0 <= i < n ==> a[i] == b[at + i]
    ensures Store(mem, a, 0, data, n) == Store(mem, b, at, data, n)
    decreases n
  {
    if n != 0 {
      StoreThrough(mem, a, b, at, data, n - 1);
    }
  }

  // What is left of the slices

  function Dropped(bs: seq<Slice>, n: nat): seq<Slice> {
    if bs == [] then []
    else if n < bs[0].len then [Slice(bs[0].addr + n, bs[0].len - n)] + bs[1..]
    else Dropped(bs[1..], n - bs[0].len)
  }

  /** Dropping bytes from the slices drops them from the address list, and nothing else. */
  lemma {:induction false} DroppedFlat(bs: seq<Slice>, n: nat)
    requires n <= Total(bs)
    ensures Flatten(Dropped(bs, n)) == Flatten(bs)[n..]
  {
    hide Flatten, Total, Range;
    NoSlices();
    if bs != [] {
      FlattenCons(bs);
      if n < bs[0].len {
        var cut := Slice(bs[0].addr + n, bs[0].len - n);
        assert Range(cut) == Range(bs[0])[n..];
        FlattenCons([cut] + bs[1..]);
        assert ([cut] + bs[1..])[1..] == bs[1..];
      } else {
        DroppedFlat(bs[1..], n - bs[0].len);
      }
    }
  }

  lemma DroppedNext(bs: seq<Slice>, n: nat)
    requires bs != []
    ensures n < bs[0].len ==> Dropped(bs, n) == [Slice(bs[0].addr + n, bs[0].len - n)] + bs[1..]
    ensures n >= bs[0].len ==> Dropped(bs, n) == Dropped(bs[1..], n - bs[0].len)
  {
  }

  lemma DroppedNone(n: nat)
    ensures Dropped([], n) == []
  {
  }

  // The consumer

  class Consumer {
    var buffers: seq<Slice>
    var bytesConsumed: nat
    ghost const origin: seq<nat>

    /** Conservation: what is left is the original list without the bytes consumed. */
    ghost predicate Valid()
      reads this
    {
      && |origin| < TWO64
      && bytesConsumed <= |origin|
      && Flatten(buffers) == origin[bytesConsumed..]
    }

    constructor (buffers: seq<Slice>)
      requires Total(buffers) < TWO64
      ensures Valid() && origin == Flatten(buffers) && this.buffers == buffers && bytesConsumed == 0
    {
      this.buffers, bytesConsumed, origin := buffers, 0, Flatten(buffers);
    }

    method AvailableBytes() returns (n: nat)
      requires Valid()
      ensures n == |origin| - bytesConsumed
    {
      n := 0;
      for k := 0 to |buffers|
        invariant n == Total(buffers[..k])
      {
        FlattenIndex(buffers, k);
        n := n + buffers[k].len;
      }
      assert buffers[..|buffers|] == buffers;
    }

    /** The first loop of `consume`: push slices until `count` bytes are covered. */
    method Select(count: nat) returns (bufs: seq<Slice>)
      ensures bufs == Offered(buffers, count)
    {
      hide *;
      var buflen, k := 0, 0;
      bufs := [];
      assert buffers[0..] == buffers;
      while k < |buffers| && buflen < count
        invariant k <= |buffers| && buflen <= count
        invariant Offered(buffers, count) == bufs + Offered(buffers[k..], count - buflen)
      {
        var vs := buffers[k];
        OfferedStep(buffers, k, count - buflen, bufs);
        bufs := bufs + [vs];
        var rem := count - buflen;
        if rem < vs.len {
          buflen := buflen + rem;
        } else {
          buflen := buflen + vs.len;
        }
        k := k + 1;
      }
      OfferedStops(buffers[k..], count - buflen);
    }

    /** The last loop of `consume`: pop whole slices and cut the one in which it ends. */
    method Advance(n: nat)
      requires Valid() && n <= Total(buffers)
      modifies this
      ensures Valid() && bytesConsumed == old(bytesConsumed) + n
      ensures buffers == Dropped(old(buffers), n)
    {
      hide Flatten, Total, Range, Dropped;
      DroppedFlat(buffers, n);
      ghost var was := buffers;
      var rem := n;
      while buffers != []
        invariant 0 <= rem && bytesConsumed == old(bytesConsumed)
        invariant Dropped(buffers, rem) == Dropped(was, n)
      {
        var vs := buffers[0];
        DroppedNext(buffers, rem);
        buffers := buffers[1..];
        if rem < vs.len {
          buffers := [Slice(vs.addr + rem, vs.len - rem)] + buffers;
          break;
        }
        rem := rem - vs.len;
      }
      DroppedNone(rem);
      assert Flatten(was)[n..] == origin[bytesConsumed + n..];
      bytesConsumed := bytesConsumed + n;
    }

    /**
    `f` gets the offered slices and says how many bytes it took, at most those offered.  On an
    error nothing is consumed; the overflow error of the byte count cannot happen.
     */
    method Consume(count: nat, f: seq<Slice> -> Result<nat, Error>) returns (r: Result<nat, Error>)
      requires Valid()
      requires forall bufs :: f(bufs).Ok? ==> f(bufs).value <= Total(bufs)
      modifies this
      ensures Valid()
      ensures r == if old(Offered(buffers, count)) == [] then Ok(0)
                   else f(old(Offered(buffers, count)))
      ensures bytesConsumed == old(bytesConsumed) + if r.Ok? then r.value else 0
    {
      var bufs := Select(count);
      if bufs == [] {
        return Ok(0);
      }
      OfferedEnough(buffers, count);
      match f(bufs)
      case Err(e) => return Err(e);
      case Ok(taken) =>
        if bytesConsumed + taken >= TWO64 {
          assert false;
          return Err(DescriptorChainOverflow);
        }
        Advance(taken);
        return Ok(taken);
    }
  }

  /** The addresses the offered slices cover are the next ones of the chain. */
  lemma OfferedNext(c: Consumer, count: nat)
    requires c.Valid()
    ensures var offered := Flatten(Offered(c.buffers, count));
            && offered <= c.origin[c.bytesConsumed..]
            && |offered| <= Total(c.buffers) == |c.origin| - c.bytesConsumed
            && Min(count, |c.origin| - c.bytesConsumed) <= |offered|
  {
    var bufs := Offered(c.buffers, count);
    OfferedEnough(c.buffers, count);
    assert c.buffers == bufs + c.buffers[|bufs|..];
    FlattenConcat(bufs, c.buffers[|bufs|..]);
  }

  /** Fills `buf` from the chain: as many bytes as fit or remain, in chain order. */
  method Read(c: Consumer, mem: array<byte>, buf: array<byte>) returns (n: nat)
    requires c.Valid() && InBounds(mem[..], c.origin) && mem != buf
    modifies c, buf
    ensures c.Valid() && n == Min(buf.Length, |c.origin| - old(c.bytesConsumed))
    ensures c.bytesConsumed == old(c.bytesConsumed) + n
    ensures buf[..] == Load(mem[..], c.origin[old(c.bytesConsumed)..c.bytesConsumed]) + old(buf[n..])
  {
    hide Flatten, Total, Range, Offered, Load, InBounds, Consumer.Valid;
    var bufs := c.Select(buf.Length);
    ghost var offered := Flatten(bufs);
    OfferedNext(c, buf.Length);
    StillInBounds(mem[..], offered, c.origin, c.bytesConsumed);
    n := Gather(bufs, mem, buf);
    TakenFrom(offered, c.origin, c.bytesConsumed, n);
    c.Advance(n);
  }

  lemma TakenFrom(a: seq<nat>, b: seq<nat>, k: nat, n: nat)
    requires k <= |b| && a <= b[k..] && n <= |a|
    ensures k + n <= |b| && a[..n] == b[k..k + n]
  {
  }

  lemma StillInBounds(mem: seq<byte>, a: seq<nat>, b: seq<nat>, k: nat)
    requires k <= |b| && a <= b[k..] && InBounds(mem, b)
    ensures InBounds(mem, a)
    ensures forall i :: 0 <= i < |a| ==> a[i] == b[k + i]
  {
    assert forall i :: 0 <= i < |a| ==> a[i] == b[k..][i];
  }

  method Gather(bufs: seq<Slice>, mem: array<byte>, buf: array<byte>) returns (n: nat)
    requires InBounds(mem[..], Flatten(bufs)) && mem != buf
    modifies buf
    ensures n == Min(buf.Length, Total(bufs))
    ensures buf[..] == Load(mem[..], Flatten(bufs)[..n]) + old(buf[n..])
  {
    ghost var flat := Flatten(bufs);
    hide Flatten, Total, Range;
    n := 0;
    NoSlices();
    for k := 0 to |bufs|
      invariant n == Min(buf.Length, Total(bufs[..k])) <= |flat|
      invariant forall i :: 0 <= i < n ==> buf[i] == mem[flat[i]]
      invariant forall i :: n <= i < buf.Length ==> buf[i] == old(buf[i])
    {
      var copyLen := Min(buf.Length - n, bufs[k].len);
      FlattenIndex(bufs, k);
      if copyLen > 0 {
        assert flat[n + copyLen - 1] == bufs[k].addr + (copyLen - 1);
        CopyOut(bufs[k].addr, mem, buf, n, copyLen);
      }
      n := n + copyLen;
    }
    assert bufs[..|bufs|] == bufs;
  }


  /** Copies one run of bytes to position `n` of `buf`. */
  method CopyOut(addr: nat, mem: array<byte>, buf: array<byte>, n: nat, len: nat)
    requires mem != buf && n + len <= buf.Length && addr + len <= mem.Length
    modifies buf
    ensures forall i :: 0 <= i < buf.Length ==>
      buf[i] == if n <= i < n + len then mem[addr + (i - n)] else old(buf[i])
  {
    for j := 0 to len
      invariant forall i :: 0 <= i < buf.Length ==>
        buf[i] == if n <= i < n + j then mem[addr + (i - n)] else old(buf[i])
    {
      buf[n + j] := mem[addr + j];
    }
  }

  /** Copies `data[n..n + len]` to the start of `vs`, whose addresses come next in `flat`. */
  method CopyIn(mem: array<byte>, vs: Slice, data: seq<byte>, n: nat, len: nat,
                ghost was: seq<byte>, ghost flat: seq<nat>)
    requires InBounds(was, flat) && n + len <= |flat| && n + len <= |data| && |was| == mem.Length
    requires mem[..] == Store(was, flat, 0, data, n)
    requires forall i :: n <= i < n + len ==> flat[i] == vs.addr + (i - n)
    modifies mem
    ensures mem[..] == Store(was, flat, 0, data, n + len)
  {
    for j := 0 to len
      invariant mem[..] == Store(was, flat, 0, data, n + j)
    {
      assert flat[n + j] == vs.addr + j;
      mem[vs.addr + j] := data[n + j];
    }
  }

  method Scatter(bufs: seq<Slice>, mem: array<byte>, data: seq<byte>) returns (n: nat)
    requires InBounds(mem[..], Flatten(bufs))
    modifies mem
    ensures n == Min(|data|, Total(bufs))
    ensures mem[..] == Store(old(mem[..]), Flatten(bufs), 0, data, n)
  {
    hide Flatten, Total, Range, Store, InBounds;
    ghost var flat, was := Flatten(bufs), mem[..];
    n := 0;
    NoSlices();
    StoreNone(was, flat, data);
    for k := 0 to |bufs|
      invariant n == Min(|data|, Total(bufs[..k])) <= |flat|
      invariant mem[..] == Store(was, flat, 0, data, n)
    {
      var copyLen := Min(|data| - n, bufs[k].len);
      FlattenIndex(bufs, k);
      if copyLen > 0 {
        CopyIn(mem, bufs[k], data, n, copyLen, was, flat);
      }
      n := n + copyLen;
    }
    assert bufs[..|bufs|] == bufs;
  }

  /** Scatters `data` over the chain: as many bytes as it has room for, in chain order. */
  method Write(c: Consumer, mem: array<byte>, data: seq<byte>) returns (n: nat)
    requires c.Valid() && InBounds(mem[..], c.origin)
    modifies c, mem
    ensures c.Valid() && n == Min(|data|, |c.origin| - old(c.bytesConsumed))
    ensures c.bytesConsumed == old(c.bytesConsumed) + n
    ensures mem[..] == Store(old(mem[..]), c.origin, old(c.bytesConsumed), data, n)
  {
    hide Flatten, Total, Range, Offered, Store, InBounds, Consumer.Valid;
    var bufs := c.Select(|data|);
    ghost var offered, was := Flatten(bufs), mem[..];
    OfferedNext(c, |data|);
    StillInBounds(was, offered, c.origin, c.bytesConsumed);
    n := Scatter(bufs, mem, data);
    StoreThrough(was, offered, c.origin, c.bytesConsumed, data, n);
    c.Advance(n);
  }
}
