/** Dirty page tracking: a bitmap of 64-bit words, and slices of memory that mark it. */
module DirtyBitmap {
  import opened Wrappers
  import opened BitWords
  import C = VolatileCopy

  // Words

  lemma AfterSet(w: bv64, i: BitNumber, j: BitNumber)
    ensures HasBit(Or(w, Mask(i)), j) <==> i == j || HasBit(w, j)
  {
    hide HasBit, Mask, Or;
    BitLaws(w, Mask(i), j);
    MaskBit(i, j);
  }

  lemma AfterReset(w: bv64, i: BitNumber, j: BitNumber)
    ensures HasBit(AndNot(w, Mask(i)), j) <==> i != j && HasBit(w, j)
  {
    hide HasBit, Mask, AndNot;
    BitLaws(w, Mask(i), j);
    MaskBit(i, j);
  }

  // The bitmap

  /** Bit `n` of a vector of words. */
  predicate Bit(words: seq<bv64>, n: nat) {
    n / 64 < |words| && HasBit(words[n / 64], n % 64)
  }

  /** Where a page's bit is: bit n mod 64, counted from the least significant, of word n / 64. */
  lemma WordLayout(words: seq<bv64>, n: nat)
    requires n / 64 < |words|
    ensures Bit(words, n) <==> Tested(words[n / 64], n % 64) != 0
  {
    hide And, Mask, Tested;
    MaskedIsTested(words[n / 64], n % 64);
  }

  function SetWord(words: seq<bv64>, n: nat, on: bool): seq<bv64>
    requires n / 64 < |words|
  {
    words[n / 64 := if on then Or(words[n / 64], Mask(n % 64)) else AndNot(words[n / 64], Mask(n % 64))]
  }

  lemma AfterSetWord(words: seq<bv64>, n: nat, on: bool, k: nat)
    requires n / 64 < |words|
    ensures Bit(SetWord(words, n, on), k) <==> (if k == n then on else Bit(words, k))
  {
    hide HasBit, Or, AndNot, Mask;
    if k / 64 == n / 64 {
      AfterSet(words[n / 64], n % 64, k % 64);
      AfterReset(words[n / 64], n % 64, k % 64);
    }
  }

  function DivCeil(a: nat, b: nat): nat
    requires b > 0
  {
    if a % b == 0 then a / b else a / b + 1
  }

  lemma DivCeilCovers(a: nat, b: nat, k: nat)
    requires b > 0
    ensures k < DivCeil(a, b) <==> k * b < a
  {
    var q, r := a / b, a % b;
    assert a == q * b + r;
    if k < q {
      MulMono(k + 1, q, b);
    } else if k > q {
      MulMono(q + 1, k, b);
    }
  }

  lemma MulMono(x: nat, y: nat, b: nat)
    requires x <= y
    ensures x * b <= y * b
  {
    assert y * b == x * b + (y - x) * b;
  }

  lemma DivCeilMono(a: nat, c: nat, b: nat)
    requires b > 0 && a <= c
    ensures DivCeil(a, b) <= DivCeil(c, b)
  {
    var k := DivCeil(a, b);
    if k > 0 {
      DivCeilCovers(a, b, k - 1);
      DivCeilCovers(c, b, k - 1);
    }
  }

  /** Byte `a` lies on page `p`: the pages are the intervals `[p * pageSize, (p + 1) * pageSize)`. */
  predicate OnPage(a: nat, p: nat, pageSize: nat) {
    p * pageSize <= a < (p + 1) * pageSize
  }

  /** The page of a byte. */
  function PageOf(a: nat, pageSize: nat): (p: nat)
    requires pageSize > 0
    ensures OnPage(a, p, pageSize)
  {
    assert (a / pageSize + 1) * pageSize == a / pageSize * pageSize + pageSize;
    a / pageSize
  }

  lemma PagesInOrder(a: nat, b: nat, p: nat, q: nat, pageSize: nat)
    requires a <= b && OnPage(a, p, pageSize) && OnPage(b, q, pageSize)
    ensures p <= q
  {
    MulMono(q + 1, if q < p then p else q + 1, pageSize);
  }

  /** A byte is on one page only. */
  lemma OnePage(a: nat, p: nat, q: nat, pageSize: nat)
    requires OnPage(a, p, pageSize) && OnPage(a, q, pageSize)
    ensures p == q
  {
    PagesInOrder(a, a, p, q, pageSize);
    PagesInOrder(a, a, q, p, pageSize);
  }

  /** Page `p` has one of the `len` bytes from `start` on that have an address. */
  ghost predicate Touched(p: nat, start: nat, len: nat, pageSize: nat) {
    exists a: nat :: start <= a < start + len && a < TWO64 && OnPage(a, p, pageSize)
  }

  /** The address of the last byte of a range, cut off at the end of the address space. */
  function LastByte(start: nat, len: nat): nat
    requires 0 < len && start < TWO64
  {
    if start + (len - 1) < TWO64 then start + (len - 1) else TWO64 - 1
  }

  /** The touched pages are those from the page of the first byte to the page of the last one. */
  lemma TouchedIsARange(p: nat, start: nat, len: nat, pageSize: nat, first: nat, last: nat)
    requires pageSize > 0 && 0 < len && start < TWO64
    requires OnPage(start, first, pageSize) && OnPage(LastByte(start, len), last, pageSize)
    ensures Touched(p, start, len, pageSize) <==> first <= p <= last
  {
    var end := LastByte(start, len);
    hide OnPage;
    if a: nat :| start <= a < start + len && a < TWO64 && OnPage(a, p, pageSize) {
      PagesInOrder(start, a, first, p, pageSize);
      PagesInOrder(a, end, p, last, pageSize);
    }
    if first <= p <= last {
      var a := SomeByte(p, start, end, first, last, pageSize);
      assert start <= a < start + len && a < TWO64 && OnPage(a, p, pageSize);
    }
  }

  lemma SomeByte(p: nat, start: nat, end: nat, first: nat, last: nat, pageSize: nat) returns (a: nat)
    requires pageSize > 0 && start <= end && first <= p <= last
    requires OnPage(start, first, pageSize) && OnPage(end, last, pageSize)
    ensures start <= a <= end && OnPage(a, p, pageSize)
  {
    if p == first {
      return start;
    }
    a := p * pageSize;
    assert (p + 1) * pageSize == p * pageSize + pageSize;
    MulMono(first + 1, p, pageSize);
    MulMono(p, last, pageSize);
  }

  lemma WordExists(n: nat, size: nat)
    requires n < size
    ensures n / 64 < DivCeil(size, 64)
  {
  }

  lemma NoBits(words: seq<bv64>, n: nat)
    requires forall i :: 0 <= i < |words| ==> words[i] == 0
    ensures !Bit(words, n)
  {
    hide HasBit;
    BitLaws(0, 0, n % 64);
  }

  /** Words added at the end do not change a bit. */
  lemma MoreWords(words: seq<bv64>, more: seq<bv64>, n: nat)
    requires forall i :: 0 <= i < |more| ==> more[i] == 0
    ensures Bit(words + more, n) <==> Bit(words, n)
  {
    hide HasBit;
    BitLaws(0, 0, n % 64);
  }

  class AtomicBitmap {
    var words: seq<bv64>
    var size: nat
    var byteSize: nat
    const pageSize: nat

    /** One bit per page, and no bit beyond: the padding of the last word is always clear. */
    ghost predicate Valid()
      reads this
    {
      && pageSize > 0 && byteSize < TWO64
      && size == DivCeil(byteSize, pageSize)
      && |words| == DivCeil(size, 64)
      && forall n: nat :: Bit(words, n) ==> n < size
    }

    /** The set of pages that the bitmap stands for. */
    ghost function Dirty(): iset<nat>
      reads this
    {
      iset n: nat | Bit(words, n)
    }

    constructor (byteSize: nat, pageSize: nat)
      requires pageSize > 0 && byteSize < TWO64
      ensures Valid() && Dirty() == iset{} && this.byteSize == byteSize && this.pageSize == pageSize
    {
      hide Bit, DivCeil;
      var numPages := DivCeil(byteSize, pageSize);
      var zeros := seq(DivCeil(numPages, 64), _ => 0);
      forall n: nat ensures !Bit(zeros, n) {
        NoBits(zeros, n);
      }
      words, size, this.byteSize, this.pageSize := zeros, numPages, byteSize, pageSize;
    }

    /** The new pages are clean and the others are as they were. */
    method Enlarge(additional: nat)
      requires Valid() && byteSize + additional < TWO64
      modifies this
      ensures Valid() && Dirty() == old(Dirty())
      ensures byteSize == old(byteSize) + additional && size >= old(size)
    {
      hide Bit, DivCeil;
      DivCeilMono(byteSize, byteSize + additional, pageSize);
      byteSize := byteSize + additional;
      size := DivCeil(byteSize, pageSize);
      DivCeilMono(old(size), size, 64);
      var more := seq(DivCeil(size, 64) - |words|, _ => 0);
      forall n: nat ensures Bit(words + more, n) <==> Bit(words, n) {
        MoreWords(words, more, n);
      }
      words := words + more;
    }

    method IsBitSet(index: nat) returns (r: bool)
      requires Valid()
      ensures r <==> index in Dirty()
    {
      if index < size {
        WordExists(index, size);
        r := HasBit(words[index / 64], index % 64);
      } else {
        r := false;
      }
    }

    method IsAddrSet(addr: nat) returns (r: bool)
      requires Valid()
      ensures forall p: nat :: OnPage(addr, p, pageSize) ==> (r <==> p in Dirty())
    {
      hide OnPage;
      r := IsBitSet(PageOf(addr, pageSize));
      forall p: nat | OnPage(addr, p, pageSize) ensures p == PageOf(addr, pageSize) {
        OnePage(addr, p, PageOf(addr, pageSize), pageSize);
      }
    }

    /** Sets or resets exactly the pages of the bitmap whose interval of bytes meets the range. */
    method SetResetAddrRange(start: nat, len: nat, on: bool)
      requires Valid() && start < TWO64
      modifies this`words
      ensures Valid()
      ensures Dirty() == iset n: nat | if n < size && Touched(n, start, len, pageSize) then on else n in old(Dirty())
    {
      hide Bit, DivCeil, PageOf, OnPage;
      if len == 0 {
        return;
      }
      var first := PageOf(start, pageSize);
      var last := PageOf(LastByte(start, len), pageSize);
      ghost var was := words;
      var n := first;
      while n <= last
        invariant first <= n && |words| == |was|
        invariant forall k: nat ::
          Bit(words, k) <==> (if first <= k < n && k <= last && k < size then on else Bit(was, k))
        decreases last + 1 - n
      {
        if n >= size {
          break;
        }
        WordExists(n, size);
        forall k: nat ensures Bit(SetWord(words, n, on), k) <==> if k == n then on else Bit(words, k) {
          AfterSetWord(words, n, on, k);
        }
        words := SetWord(words, n, on);
        n := n + 1;
      }
      forall k: nat ensures Touched(k, start, len, pageSize) <==> first <= k <= last {
        TouchedIsARange(k, start, len, pageSize, first, last);
      }
    }

    /** Hands out the words and clears them: the bits handed out are the dirty pages. */
    method GetAndReset() returns (r: seq<bv64>)
      requires Valid()
      modifies this`words
      ensures Valid() && Dirty() == iset{}
      ensures forall n: nat :: Bit(r, n) <==> n in old(Dirty())
    {
      hide Bit, DivCeil;
      ghost var was := words;
      r := [];
      for i := 0 to |words|
        invariant |words| == |was| && r == was[..i]
        invariant forall k :: 0 <= k < i ==> words[k] == 0
        invariant forall k :: i <= k < |was| ==> words[k] == was[k]
      {
        r := r + [words[i]];
        words := words[i := 0];
      }
      assert r == was;
      forall n: nat ensures !Bit(words, n) {
        NoBits(words, n);
      }
    }
  }

  // Slices

  datatype SliceError = OutOfBounds | Overflow

  /** A view of memory: host address, length, and the offset at which it marks its bitmap. */
  datatype VolatileSlice = VolatileSlice(addr: nat, size: nat, base: nat) {
    /** The bitmap slice that starts `offset` bytes further on; the sum wraps. */
    function SliceAt(offset: nat): nat { (base + offset) % TWO64 }

    function Offset(count: nat): Result<VolatileSlice, SliceError> {
      if addr + count >= TWO64 then Err(Overflow)
      else if count > size then Err(OutOfBounds)
      else Ok(VolatileSlice(addr + count, size - count, SliceAt(count)))
    }

    function Subslice(offset: nat, count: nat): Result<VolatileSlice, SliceError> {
      if offset + count >= TWO64 then Err(Overflow)
      else if offset + count > size then Err(OutOfBounds)
      else Ok(VolatileSlice(addr + offset, count, SliceAt(offset)))
    }

    function SplitAt(mid: nat): Result<(VolatileSlice, VolatileSlice), SliceError> {
      match Offset(mid)
      case Ok(end) => Ok((VolatileSlice(addr, mid, base), end))
      case Err(e) => Err(e)
    }
  }

  /** A slice of the memory of `root` that marks the bitmap where its bytes are. */
  predicate Within(root: VolatileSlice, s: VolatileSlice) {
    && root.addr <= s.addr && s.addr + s.size <= root.addr + root.size
    && s.base == s.addr - root.addr
  }

  /** The whole of a tracked memory. */
  predicate IsRoot(root: VolatileSlice) { root.base == 0 && root.addr + root.size < TWO64 }

  datatype Derivation = ByOffset(count: nat) | BySubslice(offset: nat, count: nat) | BySplit(mid: nat, second: bool)

  function Derive(s: VolatileSlice, how: Derivation): Result<VolatileSlice, SliceError> {
    match how
    case ByOffset(count) => s.Offset(count)
    case BySubslice(offset, count) => s.Subslice(offset, count)
    case BySplit(mid, second) =>
      match s.SplitAt(mid)
      case Ok(pair) => Ok(if second then pair.1 else pair.0)
      case Err(e) => Err(e)
  }

  /** Slices of slices, newest derivation last. */
  function DeriveAll(s: VolatileSlice, how: seq<Derivation>): Result<VolatileSlice, SliceError> {
    if how == [] then Ok(s)
    else match DeriveAll(s, how[..|how| - 1])
      case Ok(t) => Derive(t, how[|how| - 1])
      case Err(e) => Err(e)
  }

  lemma DeriveWithin(root: VolatileSlice, s: VolatileSlice, how: Derivation)
    requires IsRoot(root) && Within(root, s)
    ensures Derive(s, how).Ok? ==> Within(root, Derive(s, how).value)
  {
  }

  /** Any composition of slicing operations keeps the bitmap in step with the memory. */
  lemma {:induction false} DerivedWithin(root: VolatileSlice, how: seq<Derivation>)
    requires IsRoot(root)
    ensures DeriveAll(root, how).Ok? ==> Within(root, DeriveAll(root, how).value)
  {
    if how != [] {
      var front := DeriveAll(root, how[..|how| - 1]);
      DerivedWithin(root, how[..|how| - 1]);
      hide Derive, Within, IsRoot;
      if front.Ok? {
        DeriveWithin(root, front.value, how[|how| - 1]);
      }
    }
  }

  /** Host byte `a` is one of the slice's. */
  predicate Shows(s: VolatileSlice, a: nat) { s.addr <= a < s.addr + s.size }

  /** The bytes that a slicing operation asks for. */
  predicate Selects(s: VolatileSlice, how: Derivation, a: nat) {
    match how
    case ByOffset(count) => s.addr + count <= a
    case BySubslice(offset, count) => s.addr + offset <= a < s.addr + offset + count
    case BySplit(mid, second) => second <==> s.addr + mid <= a
  }

  /** Slicing works exactly when the part asked for lies in the slice, and then shows that part. */
  lemma DeriveExact(root: VolatileSlice, s: VolatileSlice, how: Derivation)
    requires IsRoot(root) && Within(root, s)
    ensures Derive(s, how).Ok? <==>
      match how
      case ByOffset(count) => count <= s.size
      case BySubslice(offset, count) => offset + count <= s.size
      case BySplit(mid, _) => mid <= s.size
    ensures Derive(s, how).Ok? ==>
      forall a: nat :: Shows(Derive(s, how).value, a) <==> Shows(s, a) && Selects(s, how, a)
  {
  }

  /** The two parts of a split lie side by side and make up the slice. */
  lemma SplitTiles(root: VolatileSlice, s: VolatileSlice, mid: nat)
    requires IsRoot(root) && Within(root, s) && mid <= s.size
    ensures var (a, b) := s.SplitAt(mid).value;
            && a.addr == s.addr && a.addr + a.size == b.addr && b.addr + b.size == s.addr + s.size
            && Within(root, a) && Within(root, b)
  {
  }

  /** Host byte `a` lies on page `p` of the root. */
  predicate OnRootPage(root: VolatileSlice, a: nat, p: nat, pageSize: nat) {
    root.addr <= a && OnPage(a - root.addr, p, pageSize)
  }

  /** Page `p` of the root has one of the first `count` bytes of the slice. */
  ghost predicate Written(root: VolatileSlice, s: VolatileSlice, count: nat, pageSize: nat, p: nat) {
    exists a: nat :: s.addr <= a < s.addr + count && OnRootPage(root, a, p, pageSize)
  }

  lemma WrittenIsTouched(root: VolatileSlice, s: VolatileSlice, count: nat, pageSize: nat, p: nat)
    requires pageSize > 0 && IsRoot(root) && Within(root, s) && count <= s.size
    ensures Written(root, s, count, pageSize, p) <==> Touched(p, s.base, count, pageSize)
  {
    hide OnPage;
    if a: nat :| s.addr <= a < s.addr + count && OnRootPage(root, a, p, pageSize) {
      var b: nat := a - root.addr;
      assert s.base <= b < s.base + count && b < TWO64 && OnPage(b, p, pageSize);
    }
    if b: nat :| s.base <= b < s.base + count && b < TWO64 && OnPage(b, p, pageSize) {
      var a := b + root.addr;
      assert OnRootPage(root, a, p, pageSize);
    }
  }

  /** A bitmap for that many bytes has a bit for each of their pages. */
  lemma TouchedHasBit(start: nat, len: nat, byteSize: nat, pageSize: nat, p: nat)
    requires pageSize > 0 && start + len <= byteSize && Touched(p, start, len, pageSize)
    ensures p < DivCeil(byteSize, pageSize)
  {
    hide DivCeil;
    var a: nat :| start <= a < start + len && a < TWO64 && OnPage(a, p, pageSize);
    DivCeilCovers(byteSize, pageSize, p);
  }

  /**
  A write of `count` bytes through a derived slice: the bytes are copied, and the pages of the root
  that hold one of them are marked, and no others.  So every page on which a byte changed is
  dirty.
   */
  method CopyToVolatileSlice(mem: array<byte>, bitmap: AtomicBitmap, ghost root: VolatileSlice,
                             ghost how: seq<Derivation>, s: VolatileSlice, src: nat, count: nat)
    requires bitmap.Valid() && IsRoot(root) && root.size <= bitmap.byteSize
    requires DeriveAll(root, how) == Ok(s) && count <= s.size
    requires mem.Length <= C.Pow2(C.USIZE_BITS) && src < C.Pow2(C.USIZE_BITS) && s.addr < C.Pow2(C.USIZE_BITS)
    requires src + count <= mem.Length && s.addr + count <= mem.Length && C.Disjoint(s.addr, src, count)
    modifies mem, bitmap`words
    ensures bitmap.Valid() && Within(root, s)
    ensures count > C.WORD || (src != 0 && s.addr != 0) ==> mem[..] == C.Moved(old(mem[..]), s.addr, src, count)
    ensures bitmap.Dirty() == iset p: nat | p in old(bitmap.Dirty()) || Written(root, s, count, bitmap.pageSize, p)
    ensures forall a, p :: 0 <= a < mem.Length && mem[a] != old(mem[a]) && OnRootPage(root, a, p, bitmap.pageSize) ==>
      p in bitmap.Dirty()
  {
    hide *;
    DerivedWithin(root, how);
    AllWrittenMarked(bitmap, root, s, count);
    ghost var was := mem[..];
    var n := C.CopySlice(mem, s.addr, src, count);
    ChangedIsWritten(was, mem[..], src, root, s, count, bitmap.pageSize);
    bitmap.SetResetAddrRange(s.SliceAt(0), count, true);
  }

  /** Only bytes of the slice change. */
  lemma ChangedIsWritten(was: seq<byte>, now: seq<byte>, src: nat, root: VolatileSlice, s: VolatileSlice,
                         count: nat, pageSize: nat)
    requires Within(root, s) && pageSize > 0 && src + count <= |was| && s.addr + count <= |was|
    requires now == was || now == C.Moved(was, s.addr, src, count)
    ensures |now| == |was| && root.addr <= s.addr
    ensures forall a, p :: 0 <= a < |was| && now[a] != was[a] && OnRootPage(root, a, p, pageSize) ==>
      Written(root, s, count, pageSize, p)
  {
    hide Splice, OnRootPage;
  }

  /** The pages written are pages of the bitmap, at the offset where the slice marks them. */
  lemma AllWrittenMarked(bitmap: AtomicBitmap, root: VolatileSlice, s: VolatileSlice, count: nat)
    requires bitmap.Valid() && IsRoot(root) && Within(root, s) && root.size <= bitmap.byteSize && count <= s.size
    ensures s.SliceAt(0) == s.base < TWO64 && bitmap.pageSize > 0 && root.addr <= s.addr
    ensures forall p: nat ::
      Written(root, s, count, bitmap.pageSize, p) <==> p < bitmap.size && Touched(p, s.base, count, bitmap.pageSize)
  {
    hide Bit, DivCeil, Touched, Written;
    forall p: nat
      ensures Written(root, s, count, bitmap.pageSize, p)
         <==> p < bitmap.size && Touched(p, s.base, count, bitmap.pageSize)
    {
      WrittenIsTouched(root, s, count, bitmap.pageSize, p);
      if Touched(p, s.base, count, bitmap.pageSize) {
        TouchedHasBit(s.base, count, bitmap.byteSize, bitmap.pageSize, p);
      }
    }
  }
}
