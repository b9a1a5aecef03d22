/** Sixteen-bit wrapping counters, seen as unbounded counters taken modulo 2^16. */
module Wrapping {

  const M: nat := 0x1_0000

  type u16 = x: nat | x < M

  function Wrap(x: int): u16 { x % M }

  /** Two positions less than 2^16 apart with the same 16-bit image are the same position. */
  lemma WrapInjective(a: int, b: int)
    requires Wrap(a) == Wrap(b) && a - b < M && b - a < M
    ensures a == b
  {
  }

  lemma WrapSmall(x: int)
    requires 0 <= x < M
    ensures Wrap(x) == x
  {
  }

  lemma WrapShift(x: int, q: int)
    ensures Wrap(x + M * q) == Wrap(x)
  {
  }

  lemma WrapAdd(a: int, b: int)
    ensures Wrap(Wrap(a) + b) == Wrap(a + b)
  {
    WrapShift(Wrap(a) + b, a / M);
  }

  lemma WrapSub(a: int, b: int)
    ensures Wrap(a - Wrap(b)) == Wrap(a - b)
  {
    WrapShift(a - b, b / M);
  }

  lemma WrapDiff(a: int, b: int)
    ensures Wrap(Wrap(a) - Wrap(b)) == Wrap(a - b)
  {
    WrapAdd(a, -(Wrap(b) as int));
    WrapSub(a, b);
  }

  /**
  Taking a wrapped counter modulo the ring size gives the slot of the unwrapped one, for every
  counter, exactly when the size divides 2^16.
   */
  lemma SlotExact(size: nat)
    requires 0 < size
    ensures (forall k: nat :: Wrap(k) % size == k % size) <==> M % size == 0
  {
    if M % size == 0 {
      forall k: nat ensures Wrap(k) % size == k % size {
        Slot(k, size);
      }
    } else {
      assert Wrap(M) % size == 0;
    }
  }

  lemma Slot(k: nat, size: nat)
    requires 0 < size && M % size == 0
    ensures Wrap(k) % size == k % size
  {
    var q := M / size;
    var w := k / M;
    assert M == q * size;
    assert k == (w * q) * size + Wrap(k) by {
      assert w * M == (w * q) * size;
    }
    ModMultiple(w * q, Wrap(k), size);
  }

  lemma {:induction false} ModMultiple(n: nat, r: nat, size: nat)
    requires 0 < size
    ensures (n * size + r) % size == r % size
  {
    if n > 0 {
      assert n * size + r == ((n - 1) * size + r) + size;
      ModMultiple(n - 1, r, size);
      ModStep((n - 1) * size + r, size);
    }
  }

  lemma ModStep(a: nat, size: nat)
    requires 0 < size
    ensures (a + size) % size == a % size
  {
    var q, r := a / size, a % size;
    assert a + size == (q + 1) * size + r;
    ModUnique(a + size, q + 1, r, size);
  }

  lemma AtLeastOnce(n: nat, size: nat)
    requires n >= 1
    ensures n * size >= size
  {
    assert n * size == (n - 1) * size + size;
  }

  lemma ModUnique(a: nat, q: nat, r: nat, size: nat)
    requires a == q * size + r && r < size
    ensures a % size == r
  {
    var q', r' := a / size, a % size;
    if q > q' {
      assert (q - q') * size == q * size - q' * size;
      AtLeastOnce(q - q', size);
    } else if q < q' {
      assert (q' - q) * size == q' * size - q * size;
      AtLeastOnce(q' - q, size);
    }
  }

  /** Slots of distinct positions less than `size` apart are distinct. */
  lemma DistinctSlots(a: nat, b: nat, size: nat)
    requires a < b < a + size
    ensures a % size != b % size
  {
    var d := b / size - a / size;
    assert a % size == b % size ==> b - a == d * size by {
      assert b / size * size - a / size * size == d * size;
    }
    if d >= 1 {
      AtLeastOnce(d, size);
    } else if d <= -1 {
      AtLeastOnce(-d, size);
      assert d * size == -(-d * size);
    }
  }

  /**
  The wrapped comparison behind event suppression: with `added` positions before `now`, it asks
  whether one of them has the 16-bit image `event`.
   */
  predicate Crossed(now: int, event: u16, added: u16) {
    Wrap(Wrap(now) - event - 1) < added
  }

  lemma CrossedExact(now: nat, event: u16, added: u16)
    requires added <= now
    ensures Crossed(now, event, added)
       <==> exists k :: now - added <= k < now && Wrap(k) == event
  {
    var r := Wrap(now - event - 1);
    WrapAdd(now, -1 - event);
    var k0 := now - 1 - r;
    assert Wrap(k0) == event;
    if k :| now - added <= k < now && Wrap(k) == event {
      WrapInjective(k, k0);
    }
  }

  /** The 16-bit sizes accepted by the power-of-two test divide 2^16, and only one is above 2^14. */
  lemma PowerOfTwo(size: bv16)
    requires size != 0 && size & (size - 1) == 0
    ensures M % (size as nat) == 0 && 0 < size as nat
    ensures size as nat <= 16384 || size as nat == 32768
  {
    OneBit(size);
  }

  lemma OneBit(x: bv16)
    requires x != 0 && x & (x - 1) == 0
    ensures x in {1, 2, 4, 8, 16, 32, 64, 128, 256, 512, 1024, 2048, 4096, 8192, 16384, 32768}
  {
  }
}
