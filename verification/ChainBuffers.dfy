/**
From a descriptor chain to the host slices that a Reader or a Writer works on, and whole
transfers through them.
 */
module ChainBuffers {
  import opened Wrappers
  import opened ScatterGather
  import D = DescriptorChain
  import G = GuestRegions

  /** The host byte behind a guest address. */
  function HostByte(rs: seq<G.Region>, g: nat): Option<nat> {
    match G.FindRegion(rs, g)
    case None => None
    case Some(r) => if r.hpa.Some? then Some(r.hpa.value + (g - r.gpa)) else None
  }

  /** Object and atomic accesses go to the byte that a slice would show there. */
  lemma AccessSeesSameByte(rs: seq<G.Region>, a: G.Access)
    requires a.addr < TWO64 && G.Translate(rs, a).Some?
    ensures HostByte(rs, a.addr) == G.Translate(rs, a)
  {
  }

  /** `host` is `guest`, byte for byte, as seen from the host. */
  predicate Translated(rs: seq<G.Region>, guest: seq<nat>, host: seq<nat>) {
    && |guest| == |host|
    && forall i :: 0 <= i < |host| ==> HostByte(rs, guest[i]) == Some(host[i])
  }

  /** The guest addresses that a list of descriptors names, in order. */
  function GuestSlices(ds: seq<D.Chain>): seq<Slice> {
    seq(|ds|, i requires 0 <= i < |ds| => Slice(ds[i].desc.addr, ds[i].desc.len))
  }

  /** A descriptor that lies in one region with host memory behind it. */
  predicate Mapped(rs: seq<G.Region>, d: D.Descriptor) {
    var found := G.FindRegion(rs, d.addr);
    found.Some? && found.value.hpa.Some? && d.addr + d.len <= found.value.Last() + 1
  }

  /** The slice that one descriptor becomes. */
  function HostSlice(rs: seq<G.Region>, d: D.Descriptor): (s: Result<Slice, Error>)
    requires G.Proper(rs)
    ensures s.Ok? <==> Mapped(rs, d)
    ensures s.Ok? ==> s.value.len == d.len
  {
    match G.FindRegion(rs, d.addr)
    case None => Err(FindMemoryRegion)
    case Some(r) =>
      match G.GetSlice(r, d.addr - r.gpa, d.len)
      case None => Err(GuestMemoryError)
      case Some(host) => Ok(Slice(host, d.len))
  }

  /** Each byte of that slice is the host byte behind the descriptor's byte. */
  lemma HostSliceTranslates(rs: seq<G.Region>, d: D.Descriptor)
    requires G.Proper(rs) && G.Apart(rs) && Mapped(rs, d)
    ensures Translated(rs, Range(Slice(d.addr, d.len)), Range(HostSlice(rs, d).value))
  {
    var r := G.FindRegion(rs, d.addr).value;
    forall g | d.addr <= g < d.addr + d.len ensures G.FindRegion(rs, g) == Some(r) {
      G.FindUnique(rs, r, g);
    }
    hide G.Apart, G.Proper, G.FindRegion;
  }

  lemma TranslatedConcat(rs: seq<G.Region>, a: seq<nat>, b: seq<nat>, x: seq<nat>, y: seq<nat>)
    requires Translated(rs, a, x) && Translated(rs, b, y)
    ensures Translated(rs, a + b, x + y)
  {
  }

  predicate AllMapped(rs: seq<G.Region>, ds: seq<D.Chain>) {
    forall i :: 0 <= i < |ds| ==> Mapped(rs, ds[i].desc)
  }

  /** Descriptors as a queue produces them: 32-bit lengths, fewer than 2^16 of them. */
  predicate FromQueue(ds: seq<D.Chain>) {
    |ds| < 0x1_0000 && forall i :: 0 <= i < |ds| ==> ds[i].desc.len < 0x1_0000_0000
  }

  /** `buffers` are the slices of the descriptors, one for one. */
  predicate SlicesOf(rs: seq<G.Region>, ds: seq<D.Chain>, buffers: seq<Slice>)
    requires G.Proper(rs)
  {
    |buffers| == |ds| && forall i :: 0 <= i < |ds| ==> HostSlice(rs, ds[i].desc) == Ok(buffers[i])
  }

  lemma {:induction false} SlicesTranslate(rs: seq<G.Region>, ds: seq<D.Chain>, buffers: seq<Slice>)
    requires G.Proper(rs) && FromQueue(ds) && SlicesOf(rs, ds, buffers)
    ensures G.Apart(rs) ==> Translated(rs, Flatten(GuestSlices(ds)), Flatten(buffers))
    ensures Total(buffers) <= |ds| * 0xffff_ffff
  {
    if ds != [] {
      var n := |ds| - 1;
      SlicesTranslate(rs, ds[..n], buffers[..n]);
      assert GuestSlices(ds)[..n] == GuestSlices(ds[..n]);
      hide Translated, HostSlice, Mapped, G.Proper, G.Apart;
      if G.Apart(rs) {
        HostSliceTranslates(rs, ds[n].desc);
        TranslatedConcat(rs, Flatten(GuestSlices(ds[..n])), Range(GuestSlices(ds)[n]),
                         Flatten(buffers[..n]), Range(buffers[n]));
      }
    }
  }

  /**
  The slices of a list of descriptors.  It succeeds if and only if every descriptor is mapped,
  the overflow check on the total length never fires, and each slice is its descriptor's part of
  the first region that holds its address.  In disjoint regions the slices cover exactly the guest
  bytes of the descriptors, in order.
   */
  method Buffers(rs: seq<G.Region>, ds: seq<D.Chain>) returns (r: Result<seq<Slice>, Error>)
    requires G.Proper(rs) && FromQueue(ds)
    ensures r.Ok? <==> AllMapped(rs, ds)
    ensures r.Ok? ==> SlicesOf(rs, ds, r.value)
    ensures r.Ok? && G.Apart(rs) ==> Translated(rs, Flatten(GuestSlices(ds)), Flatten(r.value))
    ensures r.Ok? ==> Total(r.value) < TWO64
  {
    var totalLen, buffers := 0, [];
    hide G.Proper, G.Apart, HostSlice, Mapped;
    for k := 0 to |ds|
      invariant SlicesOf(rs, ds[..k], buffers)
      invariant totalLen <= k * 0xffff_ffff
    {
      var desc := ds[k].desc;
      if totalLen + desc.len >= TWO64 {
        assert false;
        return Err(DescriptorChainOverflow);
      }
      totalLen := totalLen + desc.len;
      match HostSlice(rs, desc)
      case Err(e) => return Err(e);
      case Ok(slice) => buffers := buffers + [slice];
    }
    assert ds[..|ds|] == ds;
    SlicesTranslate(rs, ds, buffers);
    return Ok(buffers);
  }

  /** A Reader covers the readable descriptors of a chain. */
  method NewReader(rs: seq<G.Region>, table: D.Table, size: nat, head: D.Chain) returns (r: Result<Consumer, Error>)
    requires G.Proper(rs) && FromQueue(D.Walk(table, size, head))
    ensures r.Ok? <==> AllMapped(rs, D.Readable(D.Walk(table, size, head)))
    ensures r.Ok? ==> fresh(r.value) && r.value.Valid() && r.value.bytesConsumed == 0
    ensures r.Ok? ==> SlicesOf(rs, D.Readable(D.Walk(table, size, head)), r.value.buffers)
    ensures r.Ok? ==> r.value.origin == Flatten(r.value.buffers)
    ensures r.Ok? && G.Apart(rs) ==>
      Translated(rs, Flatten(GuestSlices(D.Readable(D.Walk(table, size, head)))), r.value.origin)
  {
    var walk := D.Collect(table, size, head);
    var buffers := Buffers(rs, D.Readable(walk));
    match buffers
    case Err(e) => return Err(e);
    case Ok(bs) =>
      var c := new Consumer(bs);
      return Ok(c);
  }

  /** A Writer covers the descriptors from the first writable one on. */
  method NewWriter(rs: seq<G.Region>, table: D.Table, size: nat, head: D.Chain) returns (r: Result<Consumer, Error>)
    requires G.Proper(rs) && FromQueue(D.Walk(table, size, head))
    ensures r.Ok? <==> AllMapped(rs, D.Writable(D.Walk(table, size, head)))
    ensures r.Ok? ==> fresh(r.value) && r.value.Valid() && r.value.bytesConsumed == 0
    ensures r.Ok? ==> SlicesOf(rs, D.Writable(D.Walk(table, size, head)), r.value.buffers)
    ensures r.Ok? ==> r.value.origin == Flatten(r.value.buffers)
    ensures r.Ok? && G.Apart(rs) ==>
      Translated(rs, Flatten(GuestSlices(D.Writable(D.Walk(table, size, head)))), r.value.origin)
  {
    var walk := D.Collect(table, size, head);
    D.ReadableThenWritable(walk);
    var writable := D.Writable(walk);
    assert writable == walk[|D.Readable(walk)|..];
    var buffers := Buffers(rs, writable);
    match buffers
    case Err(e) => return Err(e);
    case Ok(bs) =>
      var c := new Consumer(bs);
      return Ok(c);
  }

  /** A Reader and a Writer of the same chain share no descriptor and miss none. */
  lemma ReaderThenWriter(walk: seq<D.Chain>)
    ensures Flatten(GuestSlices(D.Readable(walk))) + Flatten(GuestSlices(D.Writable(walk)))
         == Flatten(GuestSlices(walk))
  {
    D.ReadableThenWritable(walk);
    var a, b := D.Readable(walk), D.Writable(walk);
    hide Flatten, D.Readable, D.Writable;
    assert GuestSlices(a + b) == GuestSlices(a) + GuestSlices(b);
    FlattenConcat(GuestSlices(a), GuestSlices(b));
  }

  lemma SameBounds(a: seq<byte>, b: seq<byte>, addrs: seq<nat>)
    requires |a| == |b| && InBounds(a, addrs)
    ensures InBounds(b, addrs)
  {
  }

  /** Writes until all of `data` is placed or a write makes no progress, which is an error. */
  method WriteAll(c: Consumer, mem: array<byte>, data: seq<byte>) returns (ok: bool)
    requires c.Valid() && InBounds(mem[..], c.origin)
    modifies c, mem
    ensures c.Valid()
    ensures ok <==> |data| <= |c.origin| - old(c.bytesConsumed)
    ensures c.bytesConsumed == old(c.bytesConsumed) + Min(|data|, |c.origin| - old(c.bytesConsumed))
    ensures mem[..] == Store(old(mem[..]), c.origin, old(c.bytesConsumed), data, c.bytesConsumed - old(c.bytesConsumed))
  {
    ghost var start, was := c.bytesConsumed, mem[..];
    var done := 0;
    while done < |data|
      invariant 0 <= done <= |data| && c.Valid() && c.bytesConsumed == start + done
      invariant mem[..] == Store(was, c.origin, start, data, done)
    {
      hide Store, Flatten, InBounds;
      SameBounds(was, mem[..], c.origin);
      var n := Write(c, mem, data[done..]);
      if n == 0 {
        return false;
      }
      StoreMore(was, c.origin, start, data, done, n);
      done := done + n;
    }
    return true;
  }

  lemma ReadBack(mem: seq<byte>, addrs: seq<nat>, data: seq<byte>, n: nat)
    requires InBounds(mem, addrs) && n == |data| <= |addrs| && Distinct(addrs)
    ensures InBounds(mem, addrs[0..n]) && Load(Store(mem, addrs, 0, data, n), addrs[0..n]) == data
  {
    LoadStore(mem, addrs, 0, data, n);
    var after := Store(mem, addrs, 0, data, n);
    assert Load(after, addrs[0..n]) == Load(after, addrs)[0..n];
  }

  /** What was written through a chain of distinct addresses is what reading them returns. */
  method WriteThenRead(buffers: seq<Slice>, mem: array<byte>, data: seq<byte>) returns (ok: bool, back: array<byte>)
    requires Total(buffers) < TWO64 && InBounds(mem[..], Flatten(buffers)) && Distinct(Flatten(buffers))
    modifies mem
    ensures fresh(back)
    ensures ok <==> |data| <= Total(buffers)
    ensures ok ==> back[..] == data
  {
    hide Flatten, Total, Store, Distinct, Load, InBounds, Consumer.Valid;
    ghost var addrs, was := Flatten(buffers), mem[..];
    var writer := new Consumer(buffers);
    var reader := new Consumer(buffers);
    assert mem[..] == was;
    ok := WriteAll(writer, mem, data);
    back := new byte[|data|];
    SameBounds(was, mem[..], addrs);
    ghost var zeros := back[..];
    var n := Read(reader, mem, back);
    if ok {
      PartBounds(mem[..], addrs, n);
      AllRead(was, mem[..], addrs, data, zeros, back[..], n, writer.bytesConsumed, reader.bytesConsumed);
    }
  }

  lemma PartBounds(mem: seq<byte>, addrs: seq<nat>, n: nat)
    requires InBounds(mem, addrs) && n <= |addrs|
    ensures InBounds(mem, addrs[0..n])
  {
  }

  /** Write and read of as many bytes as there are data. */
  lemma AllRead(was: seq<byte>, now: seq<byte>, addrs: seq<nat>, data: seq<byte>, zeros: seq<byte>,
                back: seq<byte>, n: nat, written: nat, read: nat)
    requires InBounds(was, addrs) && Distinct(addrs) && |data| <= |addrs| && |zeros| == |data|
    requires written == Min(|data|, |addrs| - 0) && n == read == Min(|data|, |addrs| - 0)
    requires now == Store(was, addrs, 0, data, written) && InBounds(now, addrs[0..read])
    requires back == Load(now, addrs[0..read]) + zeros[n..]
    ensures back == data
  {
    hide Store, Distinct, Load;
    ReadBack(was, addrs, data, n);
    assert zeros[n..] == [];
  }
}
