/** Copying in the widest aligned words, against copying byte by byte. */
module VolatileCopy {
  import opened Wrappers
  import Wrapping

  const USIZE_BITS: nat := 64
  const WORD: nat := 8

  // Alignment of an address

  function Pow2(k: nat): (r: nat)
    ensures r >= 1
  {
    if k == 0 then 1 else 2 * Pow2(k - 1)
  }

  /** Bitwise and of the low `k` bits. */
  function And(x: nat, y: nat, k: nat): nat
    decreases k
  {
    if k == 0 then 0 else x % 2 * (y % 2) + 2 * And(x / 2, y / 2, k - 1)
  }

  /** Bitwise not, in `k` bits. */
  function Not(x: nat, k: nat): nat
    requires x < Pow2(k)
  {
    Pow2(k) - 1 - x
  }

  /** `addr & (!addr + 1)`, where the sum wraps. */
  function BitTrick(x: nat, k: nat): nat
    requires x < Pow2(k)
  {
    And(x, (Not(x, k) + 1) % Pow2(k), k)
  }

  function Alignment(addr: nat): nat
    requires addr < Pow2(USIZE_BITS)
  {
    BitTrick(addr, USIZE_BITS)
  }

  /** The largest power of two that divides `x`. */
  function Lowest(x: nat): nat
    decreases x
  {
    if x == 0 then 0 else if x % 2 == 1 then 1 else 2 * Lowest(x / 2)
  }

  lemma {:induction false} AndNot(x: nat, k: nat)
    requires x < Pow2(k)
    ensures And(x, Not(x, k), k) == 0
    decreases k
  {
    if k > 0 {
      assert Not(x, k) / 2 == Not(x / 2, k - 1);
      assert Not(x, k) % 2 == 1 - x % 2;
      AndNot(x / 2, k - 1);
    }
  }

  lemma {:induction false} AndZero(x: nat, k: nat)
    ensures And(x, 0, k) == 0
    decreases k
  {
    if k > 0 {
      AndZero(x / 2, k - 1);
    }
  }

  /** The two's complement of `x` in `k` bits. */
  function Neg(x: nat, k: nat): nat
    requires x < Pow2(k)
  {
    if x == 0 then 0 else Pow2(k) - x
  }

  lemma NotPlusOne(x: nat, k: nat)
    requires x < Pow2(k)
    ensures (Not(x, k) + 1) % Pow2(k) == Neg(x, k)
  {
    var m := Pow2(k);
    hide Pow2;
    if x == 0 {
      Wrapping.ModUnique(m, 1, 0, m);
    } else {
      Wrapping.ModUnique(m - x, 0, m - x, m);
    }
  }

  lemma {:induction false} AndNeg(x: nat, k: nat)
    requires x < Pow2(k)
    ensures And(x, Neg(x, k), k) == Lowest(x)
    decreases k
  {
    if x == 0 {
      AndZero(0, k);
    } else if x % 2 == 1 {
      assert Neg(x, k) / 2 == Not(x / 2, k - 1);
      AndNot(x / 2, k - 1);
    } else {
      AndNeg(x / 2, k - 1);
      assert Neg(x, k) / 2 == Neg(x / 2, k - 1);
    }
  }

  lemma BitTrickLowest(x: nat, k: nat)
    requires x < Pow2(k)
    ensures BitTrick(x, k) == Lowest(x)
  {
    hide And, Lowest, Neg, Not, Pow2;
    NotPlusOne(x, k);
    AndNeg(x, k);
  }

  lemma {:induction false} LowestDivides(x: nat, j: nat)
    requires x > 0
    ensures x % Pow2(j) == 0 <==> Pow2(j) <= Lowest(x)
    decreases j
  {
    if j > 0 {
      var p := Pow2(j - 1);
      if x % 2 == 1 {
        assert x % (2 * p) != 0 by {
          assert x == (2 * p) * (x / (2 * p)) + x % (2 * p);
          assert (2 * p) * (x / (2 * p)) == 2 * (p * (x / (2 * p)));
        }
      } else {
        LowestDivides(x / 2, j - 1);
        DoubleMod(x / 2, p);
      }
    } else {
      LowestPositive(x);
    }
  }

  lemma {:induction false} LowestPositive(x: nat)
    requires x > 0
    ensures Lowest(x) >= 1
  {
    if x % 2 == 0 {
      LowestPositive(x / 2);
    }
  }

  lemma DoubleMod(y: nat, p: nat)
    requires p > 0
    ensures (2 * y) % (2 * p) == 2 * (y % p)
  {
    var q := y / p;
    assert 2 * y == (2 * p) * q + 2 * (y % p);
    assert (2 * p) * q == q * (2 * p);
    Wrapping.ModUnique(2 * y, q, 2 * (y % p), 2 * p);
  }

  /** An address is a multiple of a power of two exactly up to its alignment; null has none. */
  lemma AlignmentExact(addr: nat, j: nat)
    requires addr < Pow2(USIZE_BITS)
    ensures addr > 0 ==> (addr % Pow2(j) == 0 <==> Pow2(j) <= Alignment(addr))
    ensures addr == 0 ==> Alignment(addr) == 0
  {
    assert Lowest(0) == 0;
    hide Pow2, BitTrick, Lowest;
    BitTrickLowest(addr, USIZE_BITS);
    if addr > 0 {
      LowestDivides(addr, j);
    }
  }

  // Copying

  /** Memory after `n` bytes are copied from `src` to `dst`. */
  function Moved(mem: seq<byte>, dst: nat, src: nat, n: nat): (r: seq<byte>)
    requires src + n <= |mem| && dst + n <= |mem|
    ensures |r| == |mem|
    ensures forall j :: 0 <= j < |mem| ==> r[j] == if dst <= j < dst + n then mem[src + (j - dst)] else mem[j]
  {
    Splice(mem, dst, mem[src..src + n])
  }

  predicate Disjoint(dst: nat, src: nat, n: nat) { src + n <= dst || dst + n <= src }

  lemma MovedMore(mem: seq<byte>, dst: nat, src: nat, k: nat, n: nat)
    requires src + k + n <= |mem| && dst + k + n <= |mem| && Disjoint(dst, src, k + n)
    ensures Moved(Moved(mem, dst, src, k), dst + k, src + k, n) == Moved(mem, dst, src, k + n)
  {
    hide Splice;
  }

  predicate Width(n: nat) { n == 8 || n == 4 || n == 2 || n == 1 }

  /** One load and one store of `n` bytes, both naturally aligned. */
  method CopySingle(mem: array<byte>, n: nat, dst: nat, src: nat)
    requires Width(n) && src % n == 0 && dst % n == 0
    requires src + n <= mem.Length && dst + n <= mem.Length
    modifies mem
    ensures mem[..] == Moved(old(mem[..]), dst, src, n)
  {
    hide Splice;
    var word := mem[src..src + n];
    for i := 0 to n
      invariant mem[..] == Splice(old(mem[..]), dst, word[..i])
    {
      mem[dst + i] := word[i];
    }
    assert word[..n] == word;
  }

  datatype Access = Access(at: nat, width: nat)

  /** The accesses follow one another, from 0 to `n`, each aligned at both ends. */
  predicate Tiles(trace: seq<Access>, dst: nat, src: nat, n: nat) {
    if trace == [] then n == 0
    else
      var last := trace[|trace| - 1];
      && Width(last.width)
      && last.at + last.width == n
      && (src + last.at) % last.width == 0 && (dst + last.at) % last.width == 0
      && Tiles(trace[..|trace| - 1], dst, src, last.at)
  }

  lemma TilesNext(trace: seq<Access>, dst: nat, src: nat, n: nat, width: nat)
    requires Tiles(trace, dst, src, n) && Width(width) && (src + n) % width == 0 && (dst + n) % width == 0
    ensures Tiles(trace + [Access(n, width)], dst, src, n + width)
  {
    assert (trace + [Access(n, width)])[..|trace|] == trace;
  }

  lemma SumAligned(a: nat, b: nat, n: nat)
    requires Width(n) && a % n == 0 && b % n == 0
    ensures (a + b) % n == 0
  {
    var p, q := a / n, b / n;
    assert a + b == (p + q) * n;
    Wrapping.ModUnique(a + b, p + q, 0, n);
  }

  /** A copy of `total` bytes with `left` bytes to go; the pointers stay put after the last word. */
  ghost predicate Underway(was: seq<byte>, mem: seq<byte>, trace: seq<Access>,
                           dst: nat, src: nat, total: nat, d: nat, s: nat, left: nat) {
    && left <= total && src + total <= |was| && dst + total <= |was| && Disjoint(dst, src, total)
    && mem == Moved(was, dst, src, total - left)
    && Tiles(trace, dst, src, total - left)
    && (left > 0 ==> d == dst + (total - left) && s == src + (total - left))
  }

  lemma UnderwayNext(was: seq<byte>, mem: seq<byte>, trace: seq<Access>,
                     dst: nat, src: nat, total: nat, d: nat, s: nat, left: nat, n: nat)
    requires Underway(was, mem, trace, dst, src, total, d, s, left) && Width(n) && n <= left
    requires d % n == 0 && s % n == 0
    ensures left <= total && d + n <= |mem| && s + n <= |mem|
    ensures var next := trace + [Access(total - left, n)];
            && Underway(was, Moved(mem, d, s, n), next, dst, src, total, d + n, s + n, left - n)
            && (left == n ==> Underway(was, Moved(mem, d, s, n), next, dst, src, total, d, s, 0))
  {
    hide Moved, Tiles, Splice;
    TilesNext(trace, dst, src, total - left, n);
    MovedMore(was, dst, src, total - left, n);
  }

  /** Copies in words of `n` bytes while they fit, unless the addresses are not aligned for them. */
  method CopyAligned(mem: array<byte>, n: nat, align: nat, dst: nat, src: nat, left: nat,
                     ghost was: seq<byte>, ghost dst0: nat, ghost src0: nat, ghost total: nat, ghost trace: seq<Access>)
    returns (dst': nat, src': nat, left': nat, ghost trace': seq<Access>)
    requires Width(n) && Underway(was, mem[..], trace, dst0, src0, total, dst, src, left)
    requires align >= n && left > 0 ==> src % n == 0 && dst % n == 0
    modifies mem
    ensures Underway(was, mem[..], trace', dst0, src0, total, dst', src', left')
    ensures align < n ==> dst' == dst && src' == src && left' == left
    ensures align >= n ==> left' < n && (left' > 0 ==> src' % n == 0 && dst' % n == 0)
  {
    hide *;
    dst', src', left', trace' := dst, src, left, trace;
    if align < n {
      return;
    }
    WidthPositive(n);
    while left' >= n
      invariant Underway(was, mem[..], trace', dst0, src0, total, dst', src', left')
      invariant left' > 0 ==> src' % n == 0 && dst' % n == 0
    {
      UnderwayNext(was, mem[..], trace', dst0, src0, total, dst', src', left', n);
      CopySingle(mem, n, dst', src');
      trace' := trace' + [Access(total - left', n)];
      left' := left' - n;
      if left' == 0 {
        break;
      }
      SumAligned(src', n, n);
      SumAligned(dst', n, n);
      src', dst' := src' + n, dst' + n;
    }
  }

  lemma WidthPositive(n: nat)
    requires Width(n)
    ensures n > 0 && n % n == 0
  {
  }

  /** What the common alignment says about both addresses. */
  lemma BothAligned(dst: nat, src: nat, n: nat)
    requires Width(n) && src < Pow2(USIZE_BITS) && dst < Pow2(USIZE_BITS)
    ensures Min(Alignment(src), Alignment(dst)) >= n <==> src > 0 && dst > 0 && src % n == 0 && dst % n == 0
  {
    hide Alignment, Pow2;
    SmallPowers();
    var j := if n == 8 then 3 else if n == 4 then 2 else if n == 2 then 1 else 0;
    AlignmentExact(src, j);
    AlignmentExact(dst, j);
  }

  lemma SmallPowers()
    ensures Pow2(0) == 1 && Pow2(1) == 2 && Pow2(2) == 4 && Pow2(3) == 8
  {
  }

  lemma Narrower(a: nat)
    ensures a % 8 == 0 ==> a % 4 == 0
    ensures a % 4 == 0 ==> a % 2 == 0
  {
    if a % 8 == 0 {
      Halve(a, 4);
    }
    if a % 4 == 0 {
      Halve(a, 2);
    }
  }

  lemma Halve(a: nat, n: nat)
    requires n > 0 && a % (2 * n) == 0
    ensures a % n == 0
  {
    var q := a / (2 * n);
    assert a == (2 * n) * q == (2 * q) * n;
    Wrapping.ModUnique(a, 2 * q, 0, n);
  }

  lemma UnderwayStart(mem: seq<byte>, dst: nat, src: nat, total: nat)
    requires src + total <= |mem| && dst + total <= |mem| && Disjoint(dst, src, total)
    ensures Underway(mem, mem, [], dst, src, total, dst, src, total)
  {
  }

  lemma UnderwayEnd(was: seq<byte>, mem: seq<byte>, trace: seq<Access>, dst: nat, src: nat, total: nat, d: nat, s: nat)
    requires Underway(was, mem, trace, dst, src, total, d, s, 0)
    ensures src + total <= |was| && dst + total <= |was|
    ensures mem == Moved(was, dst, src, total) && Tiles(trace, dst, src, total)
  {
  }

  lemma UnderwayNone(was: seq<byte>, mem: seq<byte>, trace: seq<Access>, dst: nat, src: nat, total: nat, d: nat, s: nat)
    requires Underway(was, mem, trace, dst, src, total, d, s, total)
    ensures mem == was && trace == []
  {
  }

  /**
  For addresses other than null this is a byte copy, made of accesses that follow one another
  and are all naturally aligned at both ends.  A null address counts as aligned to nothing:
  then no byte is copied, although the full count is returned.
   */
  method CopySliceVolatile(mem: array<byte>, dst: nat, src: nat, total: nat) returns (n: nat, ghost trace: seq<Access>)
    requires mem.Length <= Pow2(USIZE_BITS) && src < Pow2(USIZE_BITS) && dst < Pow2(USIZE_BITS)
    requires src + total <= mem.Length && dst + total <= mem.Length && Disjoint(dst, src, total)
    modifies mem
    ensures n == total
    ensures src != 0 && dst != 0 ==> mem[..] == Moved(old(mem[..]), dst, src, total) && Tiles(trace, dst, src, total)
    ensures src == 0 || dst == 0 ==> mem[..] == old(mem[..]) && trace == []
  {
    hide *;
    ghost var was := mem[..];
    var d, s, left := dst, src, total;
    trace := [];
    UnderwayStart(was, dst, src, total);
    var align := Min(Alignment(src), Alignment(dst));
    Widths();
    BothAligned(dst, src, 8);
    BothAligned(dst, src, 4);
    BothAligned(dst, src, 2);
    BothAligned(dst, src, 1);
    d, s, left, trace := CopyAligned(mem, 8, align, d, s, left, was, dst, src, total, trace);
    Narrower(d);
    Narrower(s);
    d, s, left, trace := CopyAligned(mem, 4, align, d, s, left, was, dst, src, total, trace);
    Narrower(d);
    Narrower(s);
    d, s, left, trace := CopyAligned(mem, 2, align, d, s, left, was, dst, src, total, trace);
    d, s, left, trace := CopyAligned(mem, 1, align, d, s, left, was, dst, src, total, trace);
    if src != 0 && dst != 0 {
      UnderwayEnd(was, mem[..], trace, dst, src, total, d, s);
    } else {
      UnderwayNone(was, mem[..], trace, dst, src, total, d, s);
    }
    return total, trace;
  }

  lemma Widths()
    ensures Width(8) && Width(4) && Width(2) && Width(1)
  {
  }

  /** Short copies are volatile, long ones are plain. */
  method CopySlice(mem: array<byte>, dst: nat, src: nat, total: nat) returns (n: nat)
    requires mem.Length <= Pow2(USIZE_BITS) && src < Pow2(USIZE_BITS) && dst < Pow2(USIZE_BITS)
    requires src + total <= mem.Length && dst + total <= mem.Length && Disjoint(dst, src, total)
    modifies mem
    ensures n == total
    ensures total > WORD || (src != 0 && dst != 0) ==> mem[..] == Moved(old(mem[..]), dst, src, total)
    ensures total <= WORD && (src == 0 || dst == 0) ==> mem[..] == old(mem[..])
  {
    hide *;
    if total <= WORD {
      ghost var trace;
      n, trace := CopySliceVolatile(mem, dst, src, total);
    } else {
      CopyNonoverlapping(mem, dst, src, total);
    }
    n := total;
  }

  method CopyNonoverlapping(mem: array<byte>, dst: nat, src: nat, total: nat)
    requires src + total <= mem.Length && dst + total <= mem.Length && Disjoint(dst, src, total)
    modifies mem
    ensures mem[..] == Moved(old(mem[..]), dst, src, total)
  {
    hide Splice;
    var bytes := mem[src..src + total];
    for i := 0 to total
      invariant mem[..] == Splice(old(mem[..]), dst, bytes[..i])
    {
      mem[dst + i] := bytes[i];
    }
    assert bytes[..total] == bytes;
  }
}
