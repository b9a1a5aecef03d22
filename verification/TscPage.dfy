/**
The Hyper-V reference TSC page: a fixed-point scale and an offset from which the guest computes
time in 100 ns units ("Partition Reference Time Enlightenment", Hyper-V TLFS).
 */
module TscPage {
  import opened Wrappers

  const HZ: nat := 10_000_000

  type u64 = x: nat | x < TWO64

  // The arithmetic of the host

  /** Reference ticks per TSC tick, in units of 2^-64, cut to 64 bits. */
  function Scale(freq: u64): u64
    requires freq > 0
  {
    (HZ * TWO64 / freq) % TWO64
  }

  /** The upper half of a 128-bit product. */
  function High(t: u64, scale: u64): (h: u64)
    ensures h * TWO64 <= t * scale < h * TWO64 + TWO64
  {
    HighBound(t, scale);
    t * scale / TWO64
  }

  lemma HighBound(t: u64, scale: u64)
    ensures 0 <= t * scale < TWO64 * TWO64 && t * scale / TWO64 < TWO64
  {
    Times(t, scale, TWO64 - 1);
    Times(TWO64 - 1, t, TWO64 - 1);
  }

  /** The two's complement image of the negated scaled start. */
  function Offset(start: u64, scale: u64): u64 {
    (TWO64 - High(start, scale)) % TWO64
  }

  // What the guest computes

  function ReferenceTime(tsc: u64, scale: u64, offset: u64): u64 {
    (High(tsc, scale) + offset) % TWO64
  }

  /** The reading at `tsc` of a page written at `start`. */
  function Reading(freq: u64, start: u64, tsc: u64): u64
    requires freq > 0
  {
    ReferenceTime(tsc, Scale(freq), Offset(start, Scale(freq)))
  }

  lemma Times(a: nat, b: nat, c: nat)
    requires b <= c
    ensures a * b <= a * c && b * a <= c * a
  {
    assert a * c == a * b + a * (c - b);
  }

  /** The wrapping sum is the difference of the scaled counters, for every start. */
  lemma Difference(tsc: u64, start: u64, scale: u64)
    requires start <= tsc
    ensures High(start, scale) <= High(tsc, scale)
    ensures ReferenceTime(tsc, scale, Offset(start, scale)) == High(tsc, scale) - High(start, scale)
  {
    HighMonotone(start, tsc, scale);
  }

  lemma HighMonotone(a: u64, b: u64, scale: u64)
    requires a <= b
    ensures High(a, scale) <= High(b, scale)
  {
    Times(scale, a, b);
    assert High(a, scale) * TWO64 < (High(b, scale) + 1) * TWO64;
  }

  /** Time is zero when the machine starts. */
  lemma ZeroAtStart(freq: u64, start: u64)
    requires freq > 0
    ensures Reading(freq, start, start) == 0
  {
    Difference(start, start, Scale(freq));
  }

  /** Time never runs backwards. */
  lemma Monotone(freq: u64, start: u64, a: u64, b: u64)
    requires freq > 0 && start <= a <= b
    ensures Reading(freq, start, a) <= Reading(freq, start, b)
  {
    Difference(a, start, Scale(freq));
    Difference(b, start, Scale(freq));
    HighMonotone(a, b, Scale(freq));
  }

  /** Above 10 MHz the scale fits, and it is short of the exact ratio by less than one unit. */
  lemma ScaleExact(freq: u64)
    requires freq > HZ
    ensures HZ * TWO64 - freq < Scale(freq) * freq <= HZ * TWO64
  {
    QuotientBounds(HZ * TWO64, freq, TWO64);
  }

  /** A quotient that fits the modulus is not cut, and misses the exact ratio by less than one. */
  lemma QuotientBounds(n: nat, d: nat, m: nat)
    requires d > 0 && n < m * d
    ensures n - d < ((n / d) % m) * d <= n
  {
    var q := n / d;
    assert q * d <= n < q * d + d;
    if q >= m {
      Times(d, m, q);
    }
    SmallMod(q, m);
  }

  lemma SmallMod(q: nat, m: nat)
    requires q < m
    ensures q % m == q
  {
  }

  /** Less than one tick above the exact count of 100 ns units, less than two below it. */
  predicate Accurate(freq: u64, start: u64, tsc: u64)
    requires freq > 0 && start <= tsc
  {
    var exact := (tsc - start) * 10_000_000;
    Reading(freq, start, tsc) * freq < exact + freq && exact < (Reading(freq, start, tsc) + 2) * freq
  }

  lemma NoDrift(freq: u64, start: u64, tsc: u64)
    requires freq > HZ && start <= tsc
    ensures Accurate(freq, start, tsc)
  {
    var scale := Scale(freq);
    Difference(tsc, start, scale);
    ScaleExact(freq);
    var r, d := Reading(freq, start, tsc), tsc - start;
    assert tsc * scale == start * scale + d * scale;
    var lo, hi := High(start, scale) * TWO64, High(tsc, scale) * TWO64;
    assert r * TWO64 == hi - lo;
    hide Scale, High, Reading;
    Bounds(r, d, scale, freq);
  }

  lemma Bounds(r: nat, d: nat, scale: nat, freq: nat)
    requires freq > 0 && d < TWO64
    requires d * scale - TWO64 < r * TWO64 < d * scale + TWO64
    requires HZ * TWO64 - freq < scale * freq <= HZ * TWO64
    ensures r * freq < d * HZ + freq
    ensures d * HZ < (r + 2) * freq
  {
    // Both sides are compared after multiplication by 2^64.
    var short := HZ * TWO64 - scale * freq;
    var product := d * scale * freq;
    assert product == d * (scale * freq) == d * (HZ * TWO64) - d * short;
    assert 0 <= d * short <= d * freq by { Times(d, short, freq); }
    assert d * freq < TWO64 * freq by { Strict(d, TWO64, freq); }
    assert r * TWO64 * freq < product + TWO64 * freq by { Strict(r * TWO64, d * scale + TWO64, freq); }
    assert product < r * TWO64 * freq + TWO64 * freq by { Strict(d * scale, r * TWO64 + TWO64, freq); }
    assert r * TWO64 * freq == (r * freq) * TWO64;
    assert d * (HZ * TWO64) == (d * HZ) * TWO64;
    assert TWO64 * freq == freq * TWO64;
    assert (r * freq) * TWO64 < (d * HZ + freq) * TWO64;
    assert (d * HZ) * TWO64 < ((r + 2) * freq) * TWO64;
  }

  lemma Strict(a: nat, b: nat, c: nat)
    requires a < b && c > 0
    ensures a * c < b * c
  {
    assert b * c == a * c + (b - a) * c;
    Times(c, 1, b - a);
  }

  /** The bound holds for all machines that start at any time exactly when the TSC is above 10 MHz. */
  lemma NoDriftExact(freq: u64)
    requires freq > 0
    ensures (forall start: u64, tsc: u64 :: start <= tsc ==> Accurate(freq, start, tsc)) <==> freq > HZ
  {
    if freq > HZ {
      forall start: u64, tsc: u64 | start <= tsc ensures Accurate(freq, start, tsc) {
        NoDrift(freq, start, tsc);
      }
    } else {
      SlowDrifts(freq);
    }
  }

  lemma SlowDrifts(freq: u64)
    requires 0 < freq <= HZ
    ensures !Accurate(freq, 0, 2 * HZ)
  {
    var scale, tsc := Scale(freq), 2 * HZ;
    Difference(tsc, 0, scale);
    assert High(0, scale) == 0;
    var r := Reading(freq, 0, tsc);
    assert r == High(tsc, scale);
    if freq == HZ {
      assert HZ * TWO64 / freq == TWO64;
      assert scale == 0 && r == 0;
    } else {
      assert r < tsc by {
        assert tsc * scale < tsc * TWO64 by { Strict(scale, TWO64, tsc); }
        assert r * TWO64 < tsc * TWO64;
      }
      Times(freq, r + 2, tsc + 1);
      Times(tsc, freq + 1, HZ);
    }
  }

  // The page

  /** Little-endian bytes. */
  function ToLe(x: nat, n: nat): (r: seq<byte>)
    ensures |r| == n
    decreases n
  {
    if n == 0 then [] else [x % 256] + ToLe(x / 256, n - 1)
  }

  function FromLe(bytes: seq<byte>): nat {
    if bytes == [] then 0 else bytes[0] + 256 * FromLe(bytes[1..])
  }

  function Pow256(n: nat): nat { if n == 0 then 1 else 256 * Pow256(n - 1) }

  lemma {:induction false} LeRoundTrip(x: nat, n: nat)
    requires x < Pow256(n)
    ensures FromLe(ToLe(x, n)) == x
    decreases n
  {
    if n > 0 {
      LeRoundTrip(x / 256, n - 1);
      assert ToLe(x, n)[1..] == ToLe(x / 256, n - 1);
    }
  }

  lemma LeU64(x: u64)
    ensures FromLe(ToLe(x, 8)) == x
  {
    assert Pow256(4) == 0x1_0000_0000;
    assert Pow256(8) == TWO64;
    LeRoundTrip(x, 8);
  }

  lemma LeU32(x: nat)
    requires x < 0x1_0000_0000
    ensures FromLe(ToLe(x, 4)) == x
  {
    assert Pow256(4) == 0x1_0000_0000;
    LeRoundTrip(x, 4);
  }

  /** What the guest makes of the bytes of the page: an invalid page has sequence 0. */
  function ReadPage(page: seq<byte>, tsc: u64): u64
    requires |page| == 4096
    requires FromLe(page[8..16]) < TWO64 && FromLe(page[16..24]) < TWO64
  {
    ReferenceTime(tsc, FromLe(page[8..16]), FromLe(page[16..24]))
  }

  method CopyFromSlice(page: array<byte>, at: nat, bytes: seq<byte>)
    requires at + |bytes| <= page.Length
    modifies page
    ensures forall i :: 0 <= i < page.Length ==>
      page[i] == if at <= i < at + |bytes| then bytes[i - at] else old(page[i])
  {
    for k := 0 to |bytes|
      invariant forall i :: 0 <= i < page.Length ==>
        page[i] == if at <= i < at + k then bytes[i - at] else old(page[i])
    {
      page[at + k] := bytes[k];
    }
  }

  /** The page holds sequence 1, scale and offset; through its bytes the guest gets the reading. */
  method TscReferencePage(freq: u64, start: u64) returns (page: array<byte>)
    requires freq > 0
    ensures fresh(page) && page.Length == 4096
    ensures FromLe(page[0..4]) == 1
    ensures FromLe(page[8..16]) == Scale(freq) && FromLe(page[16..24]) == Offset(start, Scale(freq))
    ensures forall tsc: u64 :: ReadPage(page[..], tsc) == Reading(freq, start, tsc)
    ensures forall i :: 4 <= i < 8 || 24 <= i < 4096 ==> page[i] == 0
  {
    hide *;
    var scale := Scale(freq);
    var offset := Offset(start, scale);
    page := new byte[4096](_ => 0);
    CopyFromSlice(page, 0, ToLe(1, 4));
    CopyFromSlice(page, 8, ToLe(scale, 8));
    CopyFromSlice(page, 16, ToLe(offset, 8));
    LeU32(1);
    PartIs(page[..], 0, ToLe(1, 4));
    PartIs(page[..], 8, ToLe(scale, 8));
    PartIs(page[..], 16, ToLe(offset, 8));
    assert page[0..4] == page[..][0..4] && page[8..16] == page[..][8..16] && page[16..24] == page[..][16..24];
    PageReads(page[..], freq, start);
  }

  lemma PartIs(page: seq<byte>, at: nat, bytes: seq<byte>)
    requires at + |bytes| <= |page| && forall i :: at <= i < at + |bytes| ==> page[i] == bytes[i - at]
    ensures page[at..at + |bytes|] == bytes
  {
  }

  lemma PageReads(page: seq<byte>, freq: u64, start: u64)
    requires |page| == 4096 && freq > 0
    requires page[8..16] == ToLe(Scale(freq), 8) && page[16..24] == ToLe(Offset(start, Scale(freq)), 8)
    ensures FromLe(page[8..16]) == Scale(freq) && FromLe(page[16..24]) == Offset(start, Scale(freq))
    ensures forall tsc: u64 :: ReadPage(page, tsc) == Reading(freq, start, tsc)
  {
    LeU64(Scale(freq));
    LeU64(Offset(start, Scale(freq)));
    hide Scale, Offset, ReferenceTime, ToLe, FromLe;
  }
}
