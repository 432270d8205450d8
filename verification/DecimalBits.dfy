/** Bit operations on decimal fields: SUBITAND of krnlsupa.cbl and the low-level bit paragraphs
    and PCI address packing of kernel.cbl. An unsigned field of eight digits keeps the last eight
    digits of what is stored in it. */
module DecimalBits {
  import opened Numerals

  type Pic8 = n: int | 0 <= n < 100_000_000
  type Pic16 = n: int | 0 <= n < 1_0000_0000_0000_0000

  function Store8(x: nat): (r: Pic8)
  {
    x % 100_000_000
  }

  // ----- bits of a number

  predicate Bit(x: nat, k: nat)
  {
    if k == 0 then x % 2 == 1 else Bit(x / 2, k - 1)
  }

  function BitLen(x: nat): nat
  {
    if x == 0 then 0 else 1 + BitLen(x / 2)
  }

  function And(a: nat, b: nat): (r: nat)
    ensures r <= a && r <= b
  {
    if a == 0 || b == 0 then 0
    else 2 * And(a / 2, b / 2) + (if a % 2 == 1 && b % 2 == 1 then 1 else 0)
  }

  function Or(a: nat, b: nat): (r: nat)
    ensures r >= a && r >= b
  {
    if a == 0 then b
    else if b == 0 then a
    else 2 * Or(a / 2, b / 2) + (if a % 2 == 1 || b % 2 == 1 then 1 else 0)
  }

  /** What the OR loop adds up: it ends as soon as either operand has run out. */
  function LowOr(a: nat, b: nat): nat
  {
    if a == 0 || b == 0 then 0
    else 2 * LowOr(a / 2, b / 2) + (if a % 2 == 1 || b % 2 == 1 then 1 else 0)
  }

  /** A number is its bits. */
  lemma {:induction false} BitsDetermine(a: nat, b: nat)
    requires forall k: nat :: Bit(a, k) == Bit(b, k)
    ensures a == b
    decreases a + b
  {
    if a + b > 0 {
      assert Bit(a, 0) == Bit(b, 0);
      forall k: nat
        ensures Bit(a / 2, k) == Bit(b / 2, k)
      {
        assert Bit(a, k + 1) == Bit(b, k + 1);
      }
      BitsDetermine(a / 2, b / 2);
    }
  }

  lemma {:induction false} ZeroBits(k: nat)
    ensures !Bit(0, k)
  {
    if k > 0 {
      ZeroBits(k - 1);
    }
  }

  /** `And` is the bitwise AND. */
  lemma {:induction false} AndBits(a: nat, b: nat, k: nat)
    ensures Bit(And(a, b), k) <==> Bit(a, k) && Bit(b, k)
  {
    if a == 0 || b == 0 {
      ZeroBits(k);
    } else if k > 0 {
      AndBits(a / 2, b / 2, k - 1);
    }
  }

  /** `Or` is the bitwise OR. */
  lemma {:induction false} OrBits(a: nat, b: nat, k: nat)
    ensures Bit(Or(a, b), k) <==> Bit(a, k) || Bit(b, k)
  {
    if a == 0 || b == 0 {
      ZeroBits(k);
    } else if k > 0 {
      OrBits(a / 2, b / 2, k - 1);
    }
  }

  /** The bits the OR loop gets: those below the length of the shorter operand. */
  lemma {:induction false} LowOrBits(a: nat, b: nat, k: nat)
    ensures Bit(LowOr(a, b), k) <==>
            k < BitLen(a) && k < BitLen(b) && (Bit(a, k) || Bit(b, k))
  {
    if a == 0 || b == 0 {
      ZeroBits(k);
    } else if k > 0 {
      LowOrBits(a / 2, b / 2, k - 1);
    }
  }

  /** What the OR loop adds up is the OR modulo a power of two. */
  lemma LowOrIsOrModulo(a: nat, b: nat)
    ensures LowOr(a, b) == Or(a, b) % Pow(2, if BitLen(a) < BitLen(b) then BitLen(a) else BitLen(b))
  {
    hide LowOr, Or, BitLen, Pow;
    LowOrIsRest(a, b);
  }

  /** Remainders by name. */
  function Rest(x: nat, p: nat): nat
    requires p > 0
  {
    x % p
  }

  function Shorter(a: nat, b: nat): nat
  {
    if BitLen(a) < BitLen(b) then BitLen(a) else BitLen(b)
  }

  lemma {:induction false} LowOrIsRest(a: nat, b: nat)
    ensures LowOr(a, b) == Rest(Or(a, b), Pow(2, Shorter(a, b)))
  {
    hide Rest, Pow, Shorter, LowOr, Or;
    ShorterStep(a, b);
    LowOrStep(a, b);
    OrStep(a, b);
    if a > 0 && b > 0 {
      LowOrIsRest(a / 2, b / 2);
      var m := Shorter(a / 2, b / 2);
      PowStep(2, m);
      HalfRest(Or(a, b), Pow(2, m));
    } else {
      PowZero(2);
      RestByOne(Or(a, b));
    }
  }

  lemma ShorterStep(a: nat, b: nat)
    ensures a == 0 || b == 0 ==> Shorter(a, b) == 0
    ensures a > 0 && b > 0 ==> Shorter(a, b) == 1 + Shorter(a / 2, b / 2)
  {
  }

  /** Halving an OR, and its last bit. */
  lemma OrStep(a: nat, b: nat)
    ensures a > 0 && b > 0 ==>
              Or(a, b) / 2 == Or(a / 2, b / 2) &&
              Or(a, b) % 2 == (if a % 2 == 1 || b % 2 == 1 then 1 else 0)
  {
  }

  lemma RestByOne(x: nat)
    ensures Rest(x, 1) == 0
  {
  }

  lemma HalfRest(x: nat, p: nat)
    requires p > 0
    ensures Rest(x, 2 * p) == 2 * Rest(x / 2, p) + x % 2
  {
    HalfModulo(x, p);
  }

  lemma HalfModulo(x: nat, p: nat)
    requires p > 0
    ensures x % (2 * p) == 2 * ((x / 2) % p) + x % 2
  {
    var q, r := (x / 2) / p, (x / 2) % p;
    assert x == (2 * p) * q + (2 * r + x % 2);
    DivUnique(x, 2 * p, q, 2 * r + x % 2);
  }

  lemma {:induction false} LengthBounds(x: nat)
    ensures x < Pow(2, BitLen(x))
    ensures x > 0 ==> Pow(2, BitLen(x) - 1) <= x
  {
    if x > 0 {
      LengthBounds(x / 2);
    }
  }

  lemma {:induction false} PowGrows(m: nat, n: nat)
    requires m <= n
    ensures Pow(2, m) <= Pow(2, n)
  {
    if m < n {
      PowGrows(m, n - 1);
    }
  }

  lemma ModSmall(x: nat, p: nat)
    requires p > 0
    ensures x % p < p && (x < p ==> x % p == x) && x % p <= x
  {
    if x < p {
      DivUnique(x, p, 0, x);
    } else {
      assert x % p < p;
    }
  }

  /** The OR paragraph gives the bitwise OR exactly when both operands have the same number of
      binary digits and the result fits the field. */
  lemma OrParagraphCorrectIff(a: Pic8, b: Pic8)
    ensures Store8(LowOr(a, b)) == Or(a, b) <==>
            BitLen(a) == BitLen(b) && Or(a, b) < 100_000_000
  {
    hide Or, LowOr, BitLen, Pow;
    var m := if BitLen(a) < BitLen(b) then BitLen(a) else BitLen(b);
    var x := Or(a, b);
    LowOrIsOrModulo(a, b);
    OrLength(a, b);
    LengthBounds(x);
    ModSmall(x, Pow(2, m));
    if BitLen(a) != BitLen(b) {
      LongerIsPositive(x);
      PowGrows(m, BitLen(x) - 1);
    }
  }

  /** 1 OR 2 comes out as 1. */
  lemma OrLostExample()
    ensures LowOr(1, 2) == 1 && Or(1, 2) == 3
  {
  }

  lemma LongerIsPositive(x: nat)
    ensures BitLen(x) > 0 <==> x > 0
  {
  }

  lemma {:induction false} OrLength(a: nat, b: nat)
    ensures BitLen(Or(a, b)) == if BitLen(a) < BitLen(b) then BitLen(b) else BitLen(a)
  {
    if a > 0 && b > 0 {
      OrLength(a / 2, b / 2);
    }
  }

  // ----- the paragraphs

  /** The weight of a bit an eight-digit operand has never outgrows its field. */
  lemma WeightFits(x: nat, n: nat)
    requires 0 < x && x * Pow(2, n) < 100_000_000
    ensures n <= 26 && Pow(2, n) <= 67_108_864 && Store8(Pow(2, n)) == Pow(2, n)
  {
    hide Pow;
    AtLeast(Pow(2, n), x);
    assert Pow(2, n) <= x * Pow(2, n);
    Pow27();
    if n >= 27 {
      PowGrows(27, n);
    }
    PowGrows(n, 26);
  }

  lemma Pow27()
    ensures Pow(2, 26) == 67_108_864 && Pow(2, 27) == 134_217_728
  {
    assert Pow(2, 5) == 32;
    assert Pow(2, 10) == 1024;
    assert Pow(2, 15) == 32_768;
    assert Pow(2, 20) == 1_048_576;
    assert Pow(2, 25) == 33_554_432;
  }

  lemma HalvingStep(x: nat, p: nat)
    ensures (x / 2) * (2 * p) <= x * p
  {
    assert (x / 2) * (2 * p) == (2 * (x / 2)) * p;
    assert (2 * (x / 2)) * p <= x * p by { MulMono(2 * (x / 2), x, p); }
  }

  /** Splitting off the lowest bit of what is still to be added. */
  lemma NextWeight(n: nat, rest: nat, bit: nat)
    ensures Pow(2, n + 1) == 2 * Pow(2, n)
    ensures Pow(2, n) * (2 * rest + bit) == Pow(2, n + 1) * rest + Pow(2, n) * bit
    ensures Pow(2, n + 1) * rest >= 0
  {
  }

  lemma AndStep(a: nat, b: nat)
    ensures And(a, b) == 2 * And(a / 2, b / 2) + (if a % 2 == 1 && b % 2 == 1 then 1 else 0)
    ensures a == 0 || b == 0 ==> And(a, b) == 0
  {
  }

  lemma LowOrStep(a: nat, b: nat)
    ensures a == 0 || b == 0 ==> LowOr(a, b) == 0
    ensures a > 0 && b > 0 ==>
              LowOr(a, b) == 2 * LowOr(a / 2, b / 2) + (if a % 2 == 1 || b % 2 == 1 then 1 else 0)
  {
  }

  lemma SmallStays(x: Pic8)
    ensures Store8(x) == x
  {
  }

  lemma StoreStep(x: nat, y: nat, z: nat)
    ensures Store8(Store8(x + y) + z) == Store8(x + y + z)
  {
  }

  /** The AND loop after `n` rounds: `x` and `y` are what is left of the operands `a` and `b`,
      `w` is the weight and `acc` the sum so far. */
  ghost predicate AndSoFar(a: Pic8, b: Pic8, x: Pic8, y: Pic8, n: nat, w: Pic8, acc: Pic8)
  {
    n <= 27 && w == Store8(Pow(2, n)) && x * Pow(2, n) <= a && acc + Pow(2, n) * And(x, y) == And(a, b)
  }

  lemma AndStarts(a: Pic8, b: Pic8)
    ensures AndSoFar(a, b, a, b, 0, 1, 0)
  {
  }

  lemma AndGoesOn(a: Pic8, b: Pic8, x: Pic8, y: Pic8, n: nat, w: Pic8, acc: Pic8)
    requires AndSoFar(a, b, x, y, n, w, acc) && x > 0 && y > 0
    ensures AndSoFar(a, b, x / 2, y / 2, n + 1, Store8(w * 2),
                     if x % 2 == 1 && y % 2 == 1 then Store8(acc + w) else acc)
  {
    hide And, Pow, Store8;
    WeightFits(x, n);
    HalvingStep(x, Pow(2, n));
    AndStep(x, y);
    NextWeight(n, And(x / 2, y / 2), if x % 2 == 1 && y % 2 == 1 then 1 else 0);
    if x % 2 == 1 && y % 2 == 1 {
      SmallStays(acc + w);
    }
  }

  lemma AndEnds(a: Pic8, b: Pic8, x: Pic8, y: Pic8, n: nat, w: Pic8, acc: Pic8)
    requires AndSoFar(a, b, x, y, n, w, acc) && (x == 0 || y == 0)
    ensures acc == And(a, b) && n <= 27
  {
    hide Pow;
    AndStep(x, y);
  }

  /** The OR loop after `n` rounds. */
  ghost predicate OrSoFar(a: Pic8, b: Pic8, x: Pic8, y: Pic8, n: nat, w: Pic8, acc: Pic8)
  {
    n <= 27 && w == Store8(Pow(2, n)) && x * Pow(2, n) <= a &&
    Store8(acc + Pow(2, n) * LowOr(x, y)) == Store8(LowOr(a, b))
  }

  lemma OrStarts(a: Pic8, b: Pic8)
    ensures OrSoFar(a, b, a, b, 0, 1, 0)
  {
  }

  lemma OrGoesOn(a: Pic8, b: Pic8, x: Pic8, y: Pic8, n: nat, w: Pic8, acc: Pic8)
    requires OrSoFar(a, b, x, y, n, w, acc) && x > 0 && y > 0
    ensures OrSoFar(a, b, x / 2, y / 2, n + 1, Store8(w * 2),
                    if x % 2 == 1 || y % 2 == 1 then Store8(acc + w) else acc)
  {
    hide LowOr, Pow, Store8;
    WeightFits(x, n);
    HalvingStep(x, Pow(2, n));
    LowOrStep(x, y);
    var rest := LowOr(x / 2, y / 2);
    NextWeight(n, rest, if x % 2 == 1 || y % 2 == 1 then 1 else 0);
    StoreStep(acc, w, Pow(2, n + 1) * rest);
  }

  lemma OrEnds(a: Pic8, b: Pic8, x: Pic8, y: Pic8, n: nat, w: Pic8, acc: Pic8)
    requires OrSoFar(a, b, x, y, n, w, acc) && (x == 0 || y == 0)
    ensures acc == Store8(LowOr(a, b)) && n <= 27
  {
    hide Pow;
    LowOrStep(x, y);
  }

  /** The working storage of kernel.cbl the bit and PCI paragraphs share. */
  class WorkingStorage {
    var and1: Pic8
    var andBy: Pic8
    var andRes: Pic8
    var or1: Pic8
    var orBy: Pic8
    var orRes: Pic8
    var tmp: Pic8
    var tmp2: Pic8
    var i: Pic8
    var mulBy: Pic8
    var mulRes: Pic8
    var pciBus: Pic8
    var pciSlot: Pic8
    var pciFunc: Pic8
    var pciOffset: Pic8
    var pciAddress: Pic16

    constructor ()
    {
      and1, andBy, andRes, or1, orBy, orRes := 0, 0, 0, 0, 0, 0;
      tmp, tmp2, i, mulBy, mulRes := 0, 0, 0, 0, 0;
      pciBus, pciSlot, pciFunc, pciOffset, pciAddress := 0, 0, 0, 0, 0;
    }

    /** BITWISE-AND, and SUBITAND on its argument record: true for all operands the fields can
        hold, in at most 27 rounds; the operands are used up. */
    method BitwiseAnd() returns (ghost rounds: nat)
      modifies `and1, `andBy, `andRes, `i, `mulBy, `tmp, `tmp2
      ensures andRes == And(old(and1), old(andBy))
      ensures rounds <= 27 && (and1 == 0 || andBy == 0)
    {
      hide And, Pow, Store8, AndSoFar;
      AndStarts(and1, andBy);
      andRes := 0;
      i := 1;
      rounds := 0;
      while !(and1 == 0 || andBy == 0)
        invariant AndSoFar(old(and1), old(andBy), and1, andBy, rounds, i, andRes)
        decreases and1
      {
        AndGoesOn(old(and1), old(andBy), and1, andBy, rounds, i, andRes);
        and1, tmp := and1 / 2, and1 % 2;
        andBy, tmp2 := andBy / 2, andBy % 2;
        if tmp == 1 && tmp2 == 1 {
          andRes := Store8(andRes + i);
        }
        mulBy := 2;
        i := Store8(i * mulBy);
        rounds := rounds + 1;
      }
      AndEnds(old(and1), old(andBy), and1, andBy, rounds, i, andRes);
    }

    /** BITWISE-OR: the low bits of the OR, as many as the shorter operand has, and of those the
        last eight decimal digits. */
    method BitwiseOr() returns (ghost rounds: nat)
      modifies `or1, `orBy, `orRes, `i, `mulBy, `tmp, `tmp2
      ensures orRes == Store8(LowOr(old(or1), old(orBy)))
      ensures rounds <= 27 && (or1 == 0 || orBy == 0)
    {
      hide LowOr, Pow, Store8, OrSoFar;
      OrStarts(or1, orBy);
      orRes := 0;
      i := 1;
      rounds := 0;
      while !(or1 == 0 || orBy == 0)
        invariant OrSoFar(old(or1), old(orBy), or1, orBy, rounds, i, orRes)
        decreases or1
      {
        OrGoesOn(old(or1), old(orBy), or1, orBy, rounds, i, orRes);
        or1, tmp := or1 / 2, or1 % 2;
        orBy, tmp2 := orBy / 2, orBy % 2;
        if tmp == 1 || tmp2 == 1 {
          orRes := Store8(orRes + i);
        }
        mulBy := 2;
        i := Store8(i * mulBy);
        rounds := rounds + 1;
      }
      OrEnds(old(or1), old(orBy), or1, orBy, rounds, i, orRes);
    }

    /** PCI-COMPUTE-ADDR. */
    method PciComputeAddr()
      modifies `and1, `andBy, `andRes, `i, `mulBy, `tmp, `tmp2, `mulRes, `pciAddress
      ensures pciAddress == PciAddress(old(pciBus), old(pciSlot), old(pciFunc), old(pciOffset))
    {
      pciAddress := 0x8000_0000;
      and1 := pciOffset;
      andBy := 0xFC;
      ghost var rounds := BitwiseAnd();
      pciAddress := pciAddress + andRes;
      mulBy := 0x100;
      mulRes := Store8(pciFunc * mulBy);
      pciAddress := pciAddress + mulRes;
      mulBy := 0x800;
      mulRes := Store8(pciSlot * mulBy);
      pciAddress := pciAddress + mulRes;
      mulBy := 0x1_0000;
      mulRes := Store8(pciBus * mulBy);
      pciAddress := pciAddress + mulRes;
    }
  }

  // ----- PCI configuration addresses

  function PciAddress(bus: Pic8, slot: Pic8, func: Pic8, offset: Pic8): (r: nat)
  {
    0x8000_0000 + And(offset, 0xFC) + Store8(func * 0x100) + Store8(slot * 0x800) +
    Store8(bus * 0x1_0000)
  }

  datatype PciTarget = PciTarget(bus: nat, slot: nat, func: nat, register: nat)

  /** What the host bridge reads out of a configuration address: mechanism #1, section 3.2.2.3.2
      of the PCI Local Bus Specification 3.0. */
  function PciDecode(address: nat): PciTarget
  {
    PciTarget(address / 0x1_0000 % 256, address / 0x800 % 32, address / 0x100 % 8, address % 0x100)
  }

  /** The register number without the bits that select a byte. */
  function Aligned(offset: nat): (r: nat)
    ensures r == offset % 256 - offset % 4
  {
    AlignedBelow(offset);
    offset % 256 - offset % 4
  }

  lemma AlignedBelow(x: nat)
    ensures x % 4 <= x % 256
  {
    var q := x / 256;
    assert x == 4 * (64 * q) + x % 256;
    DivUnique(x, 4, 64 * q + (x % 256) / 4, (x % 256) % 4);
  }

  lemma {:induction false} AndLowMask(x: nat, k: nat)
    ensures And(x, Pow(2, k) - 1) == Rest(x, Pow(2, k))
  {
    hide And, Pow, Rest;
    if k > 0 {
      PowStep(2, k - 1);
      AndLowMask(x / 2, k - 1);
      AndOddMask(x, Pow(2, k - 1));
      HalfRest(x, Pow(2, k - 1));
    } else {
      PowZero(2);
      AndStep(x, 0);
      RestByOne(x);
    }
  }

  lemma AndOddMask(x: nat, p: nat)
    requires p > 0
    ensures And(x, 2 * p - 1) == 2 * And(x / 2, p - 1) + x % 2
  {
    hide And;
    var m := 2 * p - 1;
    assert m / 2 == p - 1 && m % 2 == 1;
    AndStep(x, m);
  }

  lemma Pow6()
    ensures Pow(2, 6) == 64
  {
    assert Pow(2, 3) == 8;
  }

  lemma WordPart(x: nat)
    ensures x % 256 - x % 4 == 4 * ((x / 2 / 2) % 64)
  {
    HalfModulo(x, 128);
    HalfModulo(x / 2, 64);
    HalfModulo(x, 2);
  }

  /** The mask 0xFC drops the two bits that select a byte within a word. */
  lemma AndWordMask(x: nat)
    ensures And(x, 0xFC) == x % 256 - x % 4
  {
    hide And, Pow;
    AndStep(x, 252);
    AndStep(x / 2, 126);
    Pow6();
    AndLowMask(x / 2 / 2, 6);
    WordPart(x);
  }

  /** The packed address has the enable bit, nothing between it and the bus, and reads back as
      exactly the bus, slot, function and word-aligned register asked for, if and only if each is
      in range; so in range distinct targets have distinct addresses. */
  lemma PciRoundTripIff(bus: Pic8, slot: Pic8, func: Pic8, offset: Pic8)
    ensures PciReadsBack(bus, slot, func, offset) <==> bus < 256 && slot < 32 && func < 8
  {
    hide And, PciDecode, PciAddress;
    PciFields(bus, slot, func, offset);
    if bus < 256 && slot < 32 && func < 8 {
      var low := Aligned(offset);
      var l1 := func * 0x100 + low;
      var l2 := slot * 0x800 + l1;
      var a := 0x8000_0000 + bus * 0x1_0000 + l2;
      DivUnique(a, 0x100, 0x80_0000 + bus * 0x100 + slot * 8 + func, low);
      DivUnique(0x80_0000 + bus * 0x100 + slot * 8 + func, 8, 0x10_0000 + bus * 32 + slot, func);
      DivUnique(a, 0x800, 0x10_0000 + bus * 32 + slot, l1);
      DivUnique(0x10_0000 + bus * 32 + slot, 32, 0x8000 + bus, slot);
      DivUnique(a, 0x1_0000, 0x8000 + bus, l2);
      DivUnique(0x8000 + bus, 256, 0x80, bus);
      DivUnique(a, 0x100_0000, 0x80, bus * 0x1_0000 + l2);
      DecodeIs(a);
    }
  }

  /** The enable bit and nothing else above the bus, and the four fields. */
  predicate PciReadsBack(bus: Pic8, slot: Pic8, func: Pic8, offset: Pic8)
  {
    var a := PciAddress(bus, slot, func, offset);
    PciDecode(a) == PciTarget(bus, slot, func, Aligned(offset)) && a / 0x100_0000 == 0x80
  }

  lemma PciFields(bus: Pic8, slot: Pic8, func: Pic8, offset: Pic8)
    ensures bus < 256 && slot < 32 && func < 8 ==>
              PciAddress(bus, slot, func, offset) ==
              0x8000_0000 + bus * 0x1_0000 + (slot * 0x800 + (func * 0x100 + Aligned(offset)))
    ensures var t := PciDecode(PciAddress(bus, slot, func, offset));
      t.bus < 256 && t.slot < 32 && t.func < 8
  {
    hide And;
    AndWordMask(offset);
  }

  lemma DecodeIs(a: nat)
    ensures PciDecode(a) == PciTarget(a / 0x1_0000 % 256, a / 0x800 % 32, a / 0x100 % 8, a % 0x100)
  {
  }
}
