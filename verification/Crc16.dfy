/** The CRC-16 shared by the boot server and the nodes: polynomial 0xA001, start 0xFFFF, low bit first. */
module Crc16 {
  const POLY: bv16 := 0xA001
  const START: bv16 := 0xFFFF

  function Xor(x: bv16, y: bv16): bv16 { x ^ y }

  function Half(c: bv16): bv16 { c >> 1 }

  predicate Odd(c: bv16) { c & 1 != 0 }

  /** One bit: shift right, and subtract the polynomial if a one fell out. */
  function Shift(c: bv16): bv16 { if Odd(c) then Xor(Half(c), POLY) else Half(c) }

  function Shift4(c: bv16): bv16 { Shift(Shift(Shift(Shift(c)))) }

  function Shift8(c: bv16): bv16 { Shift4(Shift4(c)) }

  /** One byte, bit by bit. */
  function Update(crc: bv16, b: bv8): bv16 { Shift8(Xor(crc, b as bv16)) }

  /** The bitwise reference, folded over a byte sequence. */
  function Fold(crc: bv16, s: seq<bv8>): bv16 {
    if s == [] then crc else Update(Fold(crc, s[..|s|-1]), s[|s|-1])
  }

  function Crc(s: seq<bv8>): bv16 { Fold(START, s) }

  // ----- Exclusive or -----

  lemma XorAssoc(x: bv16, y: bv16, z: bv16)
    ensures Xor(Xor(x, y), z) == Xor(x, Xor(y, z))
  {
  }

  lemma XorSwap(x: bv16, y: bv16)
    ensures Xor(x, y) == Xor(y, x)
  {
  }

  lemma XorTwice(x: bv16, y: bv16)
    ensures Xor(Xor(x, y), y) == x
  {
  }

  lemma XorSelf(x: bv16)
    ensures Xor(x, x) == 0
  {
  }

  lemma XorZero(x: bv16)
    ensures Xor(x, 0) == x
  {
  }

  // ----- Shifting is linear -----

  lemma HalfOfXor(a: bv16, b: bv16)
    ensures Half(Xor(a, b)) == Xor(Half(a), Half(b))
  {
  }

  lemma OddXor(a: bv16, b: bv16)
    ensures Odd(Xor(a, b)) <==> (Odd(a) != Odd(b))
  {
  }

  lemma ShiftIsLinear(a: bv16, b: bv16)
    ensures Shift(Xor(a, b)) == Xor(Shift(a), Shift(b))
  {
    var x, y := Half(a), Half(b);
    HalfOfXor(a, b);
    OddXor(a, b);
    XorAssoc(x, y, POLY);
    XorAssoc(x, POLY, y);
    XorSwap(POLY, y);
    XorAssoc(Xor(x, POLY), y, POLY);
    XorTwice(Xor(x, y), POLY);
    hide Xor, Half, Odd;
  }

  lemma Shift4IsLinear(a: bv16, b: bv16)
    ensures Shift4(Xor(a, b)) == Xor(Shift4(a), Shift4(b))
  {
    var a1, b1 := Shift(a), Shift(b);
    var a2, b2 := Shift(a1), Shift(b1);
    var a3, b3 := Shift(a2), Shift(b2);
    ShiftIsLinear(a, b);
    ShiftIsLinear(a1, b1);
    ShiftIsLinear(a2, b2);
    ShiftIsLinear(a3, b3);
    hide Shift, Xor;
  }

  lemma Shift8IsLinear(a: bv16, b: bv16)
    ensures Shift8(Xor(a, b)) == Xor(Shift8(a), Shift8(b))
  {
    Shift4IsLinear(a, b);
    Shift4IsLinear(Shift4(a), Shift4(b));
    hide Shift4, Xor;
  }

  // ----- Shifting without anything falling out -----

  function Quarter(c: bv16): bv16 { c >> 4 }

  function LowNibble(c: bv16): bv16 { c & 0x0F }

  function HighNibbles(c: bv16): bv16 { c & 0xFFF0 }

  lemma FourTimesEven(c: bv16)
    ensures var h := HighNibbles(c);
            && !Odd(h) && !Odd(Half(h)) && !Odd(Half(Half(h))) && !Odd(Half(Half(Half(h))))
            && Half(Half(Half(Half(h)))) == Quarter(c)
  {
  }

  /** With the low nibble clear nothing falls out. */
  lemma Shift4OfHighNibbles(c: bv16)
    ensures Shift4(HighNibbles(c)) == Quarter(c)
  {
    FourTimesEven(c);
    hide Odd, Half, HighNibbles, Quarter, Xor;
  }

  lemma NibblesMakeUp(c: bv16)
    ensures Xor(HighNibbles(c), LowNibble(c)) == c
  {
  }

  /** Looking up the low nibble replaces four shifts. */
  lemma LookupIsShift4(c: bv16)
    ensures Shift4(c) == Xor(Quarter(c), Shift4(LowNibble(c)))
  {
    NibblesMakeUp(c);
    Shift4OfHighNibbles(c);
    Shift4IsLinear(HighNibbles(c), LowNibble(c));
    hide Shift4, Xor, HighNibbles, LowNibble, Quarter;
  }

  // ----- The table form -----

  const TABLE: seq<bv16> := [
    0x0000, 0xCC01, 0xD801, 0x1400, 0xF001, 0x3C00, 0x2800, 0xE401,
    0xA001, 0x6C00, 0x7800, 0xB401, 0x5000, 0x9C01, 0x8801, 0x4400]

  /** Every table entry is four bits' worth of shifting, so the table is linear as well. */
  lemma TableEntry(i: nat)
    requires i < 16
    ensures TABLE[i] == Shift4(i as bv16)
  {
  }

  /** The entry for the low four bits of x. */
  function Lookup(x: bv16): (r: bv16)
    ensures r == Shift4(LowNibble(x))
  {
    assert LowNibble(x) < 16;
    TableEntry(LowNibble(x) as nat);
    TABLE[LowNibble(x) as nat]
  }

  function LoNibble(b: bv8): bv16 { (b & 0x0F) as bv16 }

  function HiNibble(b: bv8): bv16 { (b >> 4) as bv16 }

  function Times16(c: bv16): bv16 { c << 4 }

  lemma NibblesOfByte(b: bv8)
    ensures Xor(LoNibble(b), Times16(HiNibble(b))) == b as bv16
    ensures LowNibble(LoNibble(b)) == LoNibble(b) && LowNibble(HiNibble(b)) == HiNibble(b)
    ensures HighNibbles(Times16(HiNibble(b))) == Times16(HiNibble(b))
    ensures Quarter(Times16(HiNibble(b))) == HiNibble(b)
  {
  }

  /** Two table steps on the nibbles of a byte are one bitwise update. */
  lemma TwoNibblesAreOneByte(crc: bv16, b: bv8)
    ensures var c := Xor(Shift4(crc), Shift4(LoNibble(b)));
            Xor(Shift4(c), Shift4(HiNibble(b))) == Update(crc, b)
  {
    var lo, hi := LoNibble(b), HiNibble(b);
    var c := Xor(Shift4(crc), Shift4(lo));
    NibblesOfByte(b);
    Shift4OfHighNibbles(Times16(hi));
    Shift4IsLinear(crc, lo);
    Shift4IsLinear(Xor(crc, lo), Times16(hi));
    Shift4IsLinear(c, hi);
    XorAssoc(crc, lo, Times16(hi));
    hide Shift4, Xor, LoNibble, HiNibble, Times16, Quarter, HighNibbles;
  }

  /** One byte as the boot server takes it in, a nibble at a time. */
  method TableUpdate(crc: bv16, b: bv8) returns (r: bv16)
    ensures r == Update(crc, b)
  {
    NibblesOfByte(b);
    TwoNibblesAreOneByte(crc, b);
    LookupIsShift4(crc);
    hide Shift4, Xor, LoNibble, HiNibble, Quarter, LowNibble, Update, Lookup;
    r := Xor(Xor(Quarter(crc), Lookup(crc)), Lookup(LoNibble(b)));
    LookupIsShift4(r);
    r := Xor(Xor(Quarter(r), Lookup(r)), Lookup(HiNibble(b)));
  }

  /** The checksum as the boot server computes it equals the bitwise reference. */
  method TableCrc(s: seq<bv8>) returns (crc: bv16)
    ensures crc == Crc(s)
  {
    hide Update;
    crc := START;
    for i := 0 to |s|
      invariant crc == Fold(START, s[..i])
    {
      assert s[..i+1][..i] == s[..i];
      crc := TableUpdate(crc, s[i]);
    }
    assert s[..|s|] == s;
  }

  // ----- Every byte step is a bijection of the 16-bit state -----

  function Double(c: bv16): bv16 { c << 1 }

  function MakeOdd(c: bv16): bv16 { c | 1 }

  predicate Top(c: bv16) { c & 0x8000 != 0 }

  /** Undo one bit: the top bit tells whether the polynomial was subtracted. */
  function Unshift(c: bv16): bv16 { if Top(c) then MakeOdd(Double(Xor(c, POLY))) else Double(c) }

  lemma Halved(c: bv16)
    ensures !Top(Half(c)) && Top(Xor(Half(c), POLY))
    ensures if Odd(c) then MakeOdd(Double(Half(c))) == c else Double(Half(c)) == c
  {
  }

  lemma Doubled(c: bv16)
    ensures Odd(MakeOdd(c)) && !Odd(Double(c))
    ensures Top(c) ==> !Top(Xor(c, POLY))
  {
  }

  lemma HalvedAgain(c: bv16)
    requires !Top(c)
    ensures Half(Double(c)) == c && Half(MakeOdd(Double(c))) == c
  {
  }

  lemma UnshiftUndoes(c: bv16)
    ensures Unshift(Shift(c)) == c && Shift(Unshift(c)) == c
  {
    Halved(c);
    Doubled(Double(Xor(c, POLY)));
    Doubled(c);
    if Top(c) {
      HalvedAgain(Xor(c, POLY));
    } else {
      HalvedAgain(c);
    }
    XorTwice(Half(c), POLY);
    XorTwice(c, POLY);
    hide Odd, Top, Half, Double, MakeOdd, Xor;
  }

  function Unshift4(c: bv16): bv16 { Unshift(Unshift(Unshift(Unshift(c)))) }

  lemma Unshift4Undoes(c: bv16)
    ensures Unshift4(Shift4(c)) == c && Shift4(Unshift4(c)) == c
  {
    UnshiftUndoes(c);
    UnshiftUndoes(Shift(c));
    UnshiftUndoes(Shift(Shift(c)));
    UnshiftUndoes(Shift(Shift(Shift(c))));
    UnshiftUndoes(c);
    UnshiftUndoes(Unshift(c));
    UnshiftUndoes(Unshift(Unshift(c)));
    UnshiftUndoes(Unshift(Unshift(Unshift(c))));
    hide Shift, Unshift;
  }

  /** The state before a byte, from the state after it. */
  function Downdate(crc: bv16, b: bv8): bv16 { Xor(Unshift4(Unshift4(crc)), b as bv16) }

  lemma UpdateIsBijective(crc: bv16, b: bv8)
    ensures Downdate(Update(crc, b), b) == crc && Update(Downdate(crc, b), b) == crc
  {
    var x := b as bv16;
    Unshift4Undoes(Xor(crc, x));
    Unshift4Undoes(Shift4(Xor(crc, x)));
    Unshift4Undoes(crc);
    Unshift4Undoes(Unshift4(crc));
    XorTwice(crc, x);
    XorTwice(Unshift4(Unshift4(crc)), x);
    hide Shift4, Unshift4, Xor;
  }

  lemma {:induction false} FoldAppend(crc: bv16, a: seq<bv8>, b: seq<bv8>)
    ensures Fold(crc, a + b) == Fold(Fold(crc, a), b)
  {
    hide Update;
    if b == [] {
      assert a + b == a;
    } else {
      var c := b[..|b|-1];
      assert (a + b)[..|a + b|-1] == a + c;
      FoldAppend(crc, a, c);
    }
  }

  /** Different states stay different whatever bytes follow. */
  lemma {:induction false} FoldIsInjective(c: bv16, d: bv16, s: seq<bv8>)
    ensures Fold(c, s) == Fold(d, s) <==> c == d
  {
    hide Update, Downdate;
    if s == [] {
    } else {
      var rest, b := s[..|s|-1], s[|s|-1];
      FoldIsInjective(c, d, rest);
      UpdateIsBijective(Fold(c, rest), b);
      UpdateIsBijective(Fold(d, rest), b);
    }
  }

  // ----- Two bytes and the state determine each other -----

  function Lo(c: bv16): bv8 { (c & 0xFF) as bv8 }

  function Hi(c: bv16): bv8 { (c >> 8) as bv8 }

  lemma {:induction false} FoldTwo(crc: bv16, a: bv8, b: bv8)
    ensures Fold(crc, [a, b]) == Update(Update(crc, a), b)
  {
    hide Update;
    assert [a, b][..1] == [a] && [a][..0] == [];
    assert Fold(crc, []) == crc;
    assert Fold(crc, [a]) == Update(crc, a);
  }

  function HighByte(c: bv16): bv16 { c & 0xFF00 }

  lemma BytesOfState(c: bv16)
    ensures Xor(c, Lo(c) as bv16) == HighByte(c) && HighNibbles(HighByte(c)) == HighByte(c)
    ensures HighNibbles(Quarter(HighByte(c))) == Quarter(HighByte(c))
    ensures Quarter(Quarter(HighByte(c))) == Hi(c) as bv16
  {
  }

  /** With the low byte gone, a byte's worth of shifting leaves the high byte. */
  lemma LowByteOff(c: bv16)
    ensures Update(c, Lo(c)) == Hi(c) as bv16
  {
    BytesOfState(c);
    Shift4OfHighNibbles(HighByte(c));
    Shift4OfHighNibbles(Quarter(HighByte(c)));
    hide Shift4, HighNibbles, HighByte, Quarter, Xor, Lo, Hi;
  }

  lemma ZeroStaysZero()
    ensures Shift8(0) == 0
  {
  }

  /** A state followed by its own two bytes, low byte first, leaves nothing. */
  lemma {:induction false} ResidueIsZero(crc: bv16)
    ensures Fold(crc, [Lo(crc), Hi(crc)]) == 0
  {
    LowByteOff(crc);
    FoldTwo(crc, Lo(crc), Hi(crc));
    XorSelf(Hi(crc) as bv16);
    ZeroStaysZero();
    hide Shift8, Lo, Hi, Fold, Xor;
  }

  // The states reached from small values: eight shifts of a byte leave a zero high byte only for zero.

  lemma SmallKernel(x: bv8)
    ensures Shift8(x as bv16) & 0xFF00 == 0 ==> x == 0
  {
  }

  lemma XorOfBytes(a: bv8, b: bv8)
    ensures Xor(a as bv16, b as bv16) == (a ^ b) as bv16
  {
  }

  lemma ByteIsSmall(a: bv8)
    ensures (a as bv16) & 0xFF00 == 0
  {
  }

  lemma EqualBytes(a: bv8, b: bv8)
    requires a ^ b == 0
    ensures a == b
  {
  }

  lemma SameByte(a: bv8, b: bv8)
    requires a as bv16 == b as bv16
    ensures a == b
  {
  }

  lemma Shift8IsInjective(x: bv16, y: bv16)
    requires Shift8(x) == Shift8(y)
    ensures x == y
  {
    Unshift4Undoes(x);
    Unshift4Undoes(Shift4(x));
    Unshift4Undoes(y);
    Unshift4Undoes(Shift4(y));
    hide Shift4, Unshift4;
  }

  /** From x ^ b == y ^ d follows x ^ y == b ^ d. */
  lemma XorMoves(x: bv16, b: bv16, y: bv16, d: bv16)
    requires Xor(x, b) == Xor(y, d)
    ensures Xor(x, y) == Xor(b, d)
  {
    XorTwice(x, b);
    XorAssoc(y, d, b);
    XorSwap(y, Xor(d, b));
    XorTwice(Xor(d, b), y);
    XorSwap(d, b);
    hide Xor;
  }

  lemma CommonPart(c: bv16, x: bv16, y: bv16)
    ensures Xor(Xor(c, x), Xor(c, y)) == Xor(x, y)
  {
    XorSwap(c, x);
    XorAssoc(x, c, Xor(c, y));
    XorAssoc(c, c, y);
    XorSelf(c);
    XorSwap(0, y);
    XorZero(y);
    hide Xor;
  }

  lemma SecondByteIsDetermined(x: bv16, b: bv8, d: bv8)
    requires Update(x, b) == Update(x, d)
    ensures b == d
  {
    Shift8IsInjective(Xor(x, b as bv16), Xor(x, d as bv16));
    XorSwap(x, b as bv16);
    XorSwap(x, d as bv16);
    XorTwice(b as bv16, x);
    XorTwice(d as bv16, x);
    SameByte(b, d);
    hide Shift8, Xor;
  }

  lemma FirstByteIsDetermined(crc: bv16, a: bv8, b: bv8, c: bv8, d: bv8)
    requires Update(Update(crc, a), b) == Update(Update(crc, c), d)
    ensures a == c
  {
    var x, y := Update(crc, a), Update(crc, c);
    Shift8IsInjective(Xor(x, b as bv16), Xor(y, d as bv16));
    XorMoves(x, b as bv16, y, d as bv16);
    Shift8IsLinear(Xor(crc, a as bv16), Xor(crc, c as bv16));
    CommonPart(crc, a as bv16, c as bv16);
    XorOfBytes(a, c);
    XorOfBytes(b, d);
    ByteIsSmall(b ^ d);
    SmallKernel(a ^ c);
    hide Shift8, Xor;
    EqualBytes(a, c);
  }

  /** Two bytes map injectively to the state after them. */
  lemma {:induction false} TwoBytesAreDetermined(crc: bv16, a: bv8, b: bv8, c: bv8, d: bv8)
    requires Fold(crc, [a, b]) == Fold(crc, [c, d])
    ensures a == c && b == d
  {
    FoldTwo(crc, a, b);
    FoldTwo(crc, c, d);
    hide Fold, Update;
    FirstByteIsDetermined(crc, a, b, c, d);
    SecondByteIsDetermined(Update(crc, a), b, d);
  }

  /** Data followed by two bytes checks exactly when those are its checksum, low byte first. */
  lemma ChecksIff(data: seq<bv8>, a: bv8, b: bv8)
    ensures Crc(data + [a, b]) == 0 <==> a == Lo(Crc(data)) && b == Hi(Crc(data))
  {
    var crc := Crc(data);
    FoldAppend(START, data, [a, b]);
    ResidueIsZero(crc);
    hide Fold, Lo, Hi;
    if Fold(crc, [a, b]) == 0 {
      TwoBytesAreDetermined(crc, a, b, Lo(crc), Hi(crc));
    }
  }

  /** Changing the first two bytes of anything changes its checksum. */
  lemma FirstTwoBytesMatter(a: bv8, b: bv8, c: bv8, d: bv8, rest: seq<bv8>)
    requires Crc([a, b] + rest) == Crc([c, d] + rest)
    ensures a == c && b == d
  {
    FoldAppend(START, [a, b], rest);
    FoldAppend(START, [c, d], rest);
    FoldIsInjective(Fold(START, [a, b]), Fold(START, [c, d]), rest);
    hide Fold;
    TwoBytesAreDetermined(START, a, b, c, d);
  }
}
