/**
Words as sets of bits: every mask operation of the code is an operation on the set of one bits,
and two words with the same one bits are the same word.
 */
module BitWords {

  type BitNumber = i: nat | i < 64

  function Mask(i: BitNumber): bv64 { (1 as bv64) << i }

  function And(a: bv64, b: bv64): bv64 { a & b }

  function Or(a: bv64, b: bv64): bv64 { a | b }

  function AndNot(a: bv64, b: bv64): bv64 { a & !b }

  predicate HasBit(w: bv64, i: BitNumber) { And(w, Mask(i)) != 0 }

  /** What the code compares with zero to test a bit. */
  function Tested(w: bv64, i: BitNumber): bv64 { w & ((1 as bv64) << i) }

  lemma MaskedIsTested(w: bv64, i: BitNumber)
    ensures And(w, Mask(i)) == Tested(w, i)
  {
  }

  /** The one bits of a word. */
  function Bits(w: bv64): set<nat> {
    set i: nat | i < 64 && HasBit(w, i)
  }

  // A mask is a single bit

  predicate Single(m: bv64) { m != 0 && m & (m - 1) == 0 }

  lemma MaskSingle(i: BitNumber)
    ensures Single(Mask(i))
  {
  }

  lemma MasksApart(i: BitNumber, j: BitNumber)
    requires i != j
    ensures And(Mask(i), Mask(j)) == 0
  {
  }

  lemma AllOrNothing(w: bv64, m: bv64)
    requires Single(m)
    ensures And(w, m) == 0 || And(w, m) == m
  {
  }

  lemma AndParts(a: bv64, b: bv64, m: bv64)
    ensures And(And(a, b), m) == And(And(a, m), And(b, m))
  {
  }

  lemma OrNone(a: bv64, b: bv64, m: bv64)
    requires And(b, m) == 0
    ensures And(Or(a, b), m) == And(a, m)
  {
  }

  lemma OrAll(a: bv64, b: bv64, m: bv64)
    requires And(b, m) == m
    ensures And(Or(a, b), m) == m
  {
  }

  lemma AndNotNone(a: bv64, b: bv64, m: bv64)
    requires And(b, m) == 0
    ensures And(AndNot(a, b), m) == And(a, m)
  {
  }

  lemma AndNotAll(a: bv64, b: bv64, m: bv64)
    requires And(b, m) == m
    ensures And(AndNot(a, b), m) == 0
  {
  }

  lemma Corners(m: bv64)
    ensures And(0, 0) == And(0, m) == And(m, 0) == 0 && And(m, m) == m
  {
  }

  /** Bit by bit: and, or, and-not, and a single mask. */
  lemma BitLaws(a: bv64, b: bv64, i: BitNumber)
    ensures HasBit(And(a, b), i) <==> HasBit(a, i) && HasBit(b, i)
    ensures HasBit(Or(a, b), i) <==> HasBit(a, i) || HasBit(b, i)
    ensures HasBit(AndNot(a, b), i) <==> HasBit(a, i) && !HasBit(b, i)
    ensures !HasBit(0, i)
  {
    hide Mask, And, Or, AndNot;
    var m := Mask(i);
    MaskSingle(i);
    AllOrNothing(a, m);
    AllOrNothing(b, m);
    AndParts(a, b, m);
    Corners(m);
    SingleNonzero(m);
    if And(b, m) == 0 {
      OrNone(a, b, m);
      AndNotNone(a, b, m);
    } else {
      OrAll(a, b, m);
      AndNotAll(a, b, m);
    }
  }

  lemma SingleNonzero(m: bv64)
    requires Single(m)
    ensures m != 0
  {
  }

  lemma MaskBit(i: BitNumber, j: BitNumber)
    ensures HasBit(Mask(i), j) <==> i == j
  {
    hide Mask, And;
    MaskSingle(i);
    Corners(Mask(i));
    if i != j {
      MasksApart(i, j);
    }
  }

  // Sets

  lemma BitsOfAnd(a: bv64, b: bv64)
    ensures Bits(And(a, b)) == Bits(a) * Bits(b)
  {
    hide HasBit, And;
    forall i: nat | i < 64 ensures HasBit(And(a, b), i) <==> HasBit(a, i) && HasBit(b, i) {
      BitLaws(a, b, i);
    }
  }

  lemma BitsOfOr(a: bv64, b: bv64)
    ensures Bits(Or(a, b)) == Bits(a) + Bits(b)
  {
    hide HasBit, Or;
    forall i: nat | i < 64 ensures HasBit(Or(a, b), i) <==> HasBit(a, i) || HasBit(b, i) {
      BitLaws(a, b, i);
    }
  }

  lemma BitsOfAndNot(a: bv64, b: bv64)
    ensures Bits(AndNot(a, b)) == Bits(a) - Bits(b)
  {
    hide HasBit, AndNot;
    forall i: nat | i < 64 ensures HasBit(AndNot(a, b), i) <==> HasBit(a, i) && !HasBit(b, i) {
      BitLaws(a, b, i);
    }
  }

  lemma BitsOfMask(i: BitNumber)
    ensures Bits(Mask(i)) == {i}
  {
    hide HasBit, Mask;
    forall j: nat | j < 64 ensures HasBit(Mask(i), j) <==> i == j {
      MaskBit(i, j);
    }
  }

  lemma BitsOfZero()
    ensures Bits(0) == {}
  {
    hide HasBit;
    forall i: nat | i < 64 ensures !HasBit(0, i) {
      BitLaws(0, 0, i);
    }
  }

  // No bit is lost

  lemma MaskNext(i: nat)
    requires i < 63
    ensures Mask(i + 1) == Mask(i) << 1
  {
  }

  lemma MaskNotTop(i: nat)
    requires i < 63
    ensures Mask(i) != 0x8000_0000_0000_0000
  {
  }

  lemma BelowNext(m: bv64)
    requires Single(m) && m != 0x8000_0000_0000_0000
    ensures (m << 1) - 1 == (m - 1) | m
  {
  }

  lemma OrZero(w: bv64, a: bv64, b: bv64)
    requires w & a == 0 && w & b == 0
    ensures w & (a | b) == 0
  {
  }

  function BelowMask(i: BitNumber): bv64 { Mask(i) - 1 }

  lemma {:induction false} NothingBelow(w: bv64, i: nat)
    requires i < 64 && forall j: nat :: j < i ==> !HasBit(w, j)
    ensures And(w, BelowMask(i)) == 0
  {
    if i == 0 {
      NothingBelowBitZero(w);
    } else {
      NothingBelow(w, i - 1);
      assert !HasBit(w, i - 1);
      MaskNext(i - 1);
      MaskNotTop(i - 1);
      MaskSingle(i - 1);
      hide Mask;
      NothingBelowStep(w, Mask(i - 1), Mask(i));
    }
  }

  lemma NothingBelowBitZero(w: bv64)
    ensures And(w, BelowMask(0)) == 0
  {
    assert Mask(0) == 1;
    assert BelowMask(0) == 0;
  }

  lemma NothingBelowStep(w: bv64, m: bv64, next: bv64)
    requires Single(m) && m != 0x8000_0000_0000_0000 && next == m << 1
    requires And(w, m) == 0 && And(w, m - 1) == 0
    ensures And(w, next - 1) == 0
  {
    BelowNext(m);
    OrZero(w, m - 1, m);
  }

  lemma TopMask()
    ensures Mask(63) == 0x8000_0000_0000_0000
  {
  }

  lemma TopAndBelow(w: bv64)
    requires And(w, 0x8000_0000_0000_0000) == 0 && And(w, 0x7fff_ffff_ffff_ffff) == 0
    ensures w == 0
  {
  }

  lemma ZeroExact(w: bv64)
    ensures Bits(w) == {} <==> w == 0
  {
    if w == 0 {
      BitsOfZero();
    }
    if Bits(w) == {} {
      forall j: nat | j < 64 ensures !HasBit(w, j) {
        assert j !in Bits(w);
      }
      NothingBelow(w, 63);
      assert !HasBit(w, 63);
      TopMask();
      hide Mask, And;
      TopAndBelow(w);
    }
  }

  lemma NoDifference(a: bv64, b: bv64)
    requires AndNot(a, b) == 0 && AndNot(b, a) == 0
    ensures a == b
  {
  }

  /** The one bits determine the word. */
  lemma BitsInjective(a: bv64, b: bv64)
    requires Bits(a) == Bits(b)
    ensures a == b
  {
    hide Bits, AndNot;
    BitsOfAndNot(a, b);
    BitsOfAndNot(b, a);
    ZeroExact(AndNot(a, b));
    ZeroExact(AndNot(b, a));
    NoDifference(a, b);
  }

  // 32-bit words

  function Wide(v: bv32): bv64 { v as bv64 }

  /** The one bits of a 32-bit word. */
  function Bits32(v: bv32): set<nat> { Bits(Wide(v)) }

  function And32(a: bv32, b: bv32): bv32 { a & b }

  function Or32(a: bv32, b: bv32): bv32 { a | b }

  function AndNot32(a: bv32, b: bv32): bv32 { a & !b }

  function Raised(w: bv64): bv64 { w << 32 }

  lemma WideAnd(a: bv32, b: bv32)
    ensures Wide(And32(a, b)) == And(Wide(a), Wide(b))
  {
  }

  lemma WideOr(a: bv32, b: bv32)
    ensures Wide(Or32(a, b)) == Or(Wide(a), Wide(b))
  {
  }

  lemma WideAndNot(a: bv32, b: bv32)
    ensures Wide(AndNot32(a, b)) == AndNot(Wide(a), Wide(b))
  {
  }

  lemma WideInjective(a: bv32, b: bv32)
    requires Wide(a) == Wide(b)
    ensures a == b
  {
  }

  lemma Bits32Ops(a: bv32, b: bv32)
    ensures Bits32(And32(a, b)) == Bits32(a) * Bits32(b)
    ensures Bits32(Or32(a, b)) == Bits32(a) + Bits32(b)
    ensures Bits32(AndNot32(a, b)) == Bits32(a) - Bits32(b)
  {
    hide Bits, And, Or, AndNot, Wide, And32, Or32, AndNot32;
    WideAnd(a, b);
    WideOr(a, b);
    WideAndNot(a, b);
    BitsOfAnd(Wide(a), Wide(b));
    BitsOfOr(Wide(a), Wide(b));
    BitsOfAndNot(Wide(a), Wide(b));
  }

  lemma Bits32Injective(a: bv32, b: bv32)
    ensures a == b <==> Bits32(a) == Bits32(b)
  {
    hide Bits, Wide;
    if Bits32(a) == Bits32(b) {
      BitsInjective(Wide(a), Wide(b));
      WideInjective(a, b);
    }
  }

  lemma MaskRaised(i: nat)
    requires i < 32
    ensures Mask(i + 32) == Raised(Mask(i))
  {
  }

  lemma RaisedMeets(v: bv32, m: bv64)
    ensures And(Raised(Wide(v)), Raised(m)) == 0 <==> And(Wide(v), m) == 0
  {
  }

  lemma LowMask(i: nat)
    requires i < 32
    ensures Mask(i) <= 0xffff_ffff
  {
  }

  lemma RaisedMisses(w: bv64, m: bv64)
    requires m <= 0xffff_ffff
    ensures And(Raised(w), m) == 0
  {
  }

  lemma WideMisses(v: bv32, m: bv64)
    ensures And(Wide(v), Raised(m)) == 0
  {
  }

  lemma RaisedBit(v: bv32, i: BitNumber)
    ensures HasBit(Raised(Wide(v)), i) <==> i >= 32 && HasBit(Wide(v), i - 32)
    ensures i >= 32 ==> !HasBit(Wide(v), i)
  {
    hide Mask, And, Raised, Wide;
    if i >= 32 {
      MaskRaised(i - 32);
      RaisedMeets(v, Mask(i - 32));
      WideMisses(v, Mask(i - 32));
    } else {
      LowMask(i);
      RaisedMisses(Wide(v), Mask(i));
    }
  }

  /** Bit positions moved up by 32. */
  function Up(bits: set<nat>): set<nat> {
    set i: nat | i < 64 && IsUp(bits, i)
  }

  predicate IsUp(bits: set<nat>, i: nat) { i >= 32 && i - 32 in bits }

  /** Shifting a 32-bit word up by 32 moves its one bits up. */
  lemma BitsOfRaised(v: bv32)
    ensures Bits(Raised(Wide(v))) == Up(Bits32(v))
  {
    hide HasBit, Raised, Wide;
    forall i: nat | i < 64
      ensures i in Bits(Raised(Wide(v))) <==> i in Up(Bits32(v))
    {
      RaisedBit(v, i);
    }
  }
}
