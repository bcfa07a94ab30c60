/**
 What the masks, ors and shifts of a machine word do to its value.
 */
module Bits {
  /** `unsigned long` */
  type Word = bv64

  const TWO_TO_THE_64 := 0x1_0000_0000_0000_0000

  function ValueOf(x: Word): nat {
    x as int
  }

  function Half(x: Word): Word {
    x >> 1
  }

  function Twice(x: Word): Word {
    x << 1
  }

  function TwicePlusOne(x: Word): Word {
    (x << 1) | 1
  }

  function LowBit(x: Word): nat {
    if x & 1 == 0 then 0 else 1
  }

  function LowSix(x: Word): Word {
    x & 0x3F
  }

  function Shift(x: Word): Word {
    x >> 6
  }

  predicate HasRoom(x: Word) {
    x < 0x8000_0000_0000_0000
  }

  lemma TwiceValue(x: Word)
    requires HasRoom(x)
    ensures ValueOf(Twice(x)) == 2 * ValueOf(x) && ValueOf(TwicePlusOne(x)) == 2 * ValueOf(x) + 1
  {
  }

  lemma HalfAndBit(x: Word)
    ensures HasRoom(Half(x)) && LowBit(x) < 2
    ensures x == if LowBit(x) == 0 then Twice(Half(x)) else TwicePlusOne(Half(x))
  {
  }

  lemma HalfValue(x: Word)
    ensures ValueOf(x) == 2 * ValueOf(Half(x)) + LowBit(x) && LowBit(x) < 2
  {
    hide ValueOf, Half, Twice, TwicePlusOne, LowBit, HasRoom;
    HalfAndBit(x);
    TwiceValue(Half(x));
  }

  /** The value of the six low bits. */
  function Six(x: Word): nat {
    var (x1, x2, x3) := (Half(x), Half(Half(x)), Half(Half(Half(x))));
    LowBit(x) + 2 * LowBit(x1) + 4 * LowBit(x2) + 8 * LowBit(x3) + 16 * LowBit(Half(x3)) + 32 * LowBit(Half(Half(x3)))
  }

  lemma ShiftIsHalves(x: Word)
    ensures Half(Half(Half(Half(Half(Half(x)))))) == Shift(x)
    ensures Six(LowSix(x)) == Six(x) && ValueOf(Shift(LowSix(x))) == 0
  {
  }

  lemma SixAndShift(x: Word)
    ensures ValueOf(x) == 64 * ValueOf(Shift(x)) + Six(x) && Six(x) < 64
  {
    hide ValueOf, Half, Shift, LowBit;
    var x1 := Half(x);
    var x2 := Half(x1);
    var x3 := Half(x2);
    var x4 := Half(x3);
    ShiftIsHalves(x);
    HalfValue(x);
    HalfValue(x1);
    HalfValue(x2);
    HalfValue(x3);
    HalfValue(x4);
    HalfValue(Half(x4));
  }

  /** The six low bits are the remainder of the division by 64, and shifting them out is the
      quotient. */
  lemma ShiftDivides(x: Word)
    ensures ValueOf(LowSix(x)) == ValueOf(x) % 64 && ValueOf(Shift(x)) == ValueOf(x) / 64
  {
    hide ValueOf, Shift, LowSix, Six;
    ShiftIsHalves(x);
    SixAndShift(x);
    SixAndShift(LowSix(x));
  }

  lemma WordRoom(x: Word)
    ensures ValueOf(x) < TWO_TO_THE_64 / 2 ==> HasRoom(x)
    ensures ValueOf(0) == 0
  {
  }

  lemma WordOf(x: Word, n: nat)
    requires ValueOf(x) == n
    ensures n < TWO_TO_THE_64 && n as Word == x
  {
  }

  /** Turning a number into a word keeps its value. */
  lemma {:induction false} WordValue(n: nat) returns (x: Word)
    requires n < TWO_TO_THE_64
    ensures x == n as Word && ValueOf(x) == n
  {
    hide ValueOf, HasRoom, Twice, TwicePlusOne;
    if n == 0 {
      x := 0;
      WordRoom(x);
    } else {
      var h := WordValue(n / 2);
      WordRoom(h);
      TwiceValue(h);
      x := if n % 2 == 0 then Twice(h) else TwicePlusOne(h);
    }
    WordOf(x, n);
  }
}
