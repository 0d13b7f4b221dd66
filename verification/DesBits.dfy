/** Single bits of 32-bit words, and what the operations of DES do to each. */
module DesBits {
  import opened Des

  /** One bit of a word, the lowest first. */
  function Mask(i: nat): bv32 {
    match i
    case 0 => 0x1
    case 1 => 0x2
    case 2 => 0x4
    case 3 => 0x8
    case 4 => 0x10
    case 5 => 0x20
    case 6 => 0x40
    case 7 => 0x80
    case 8 => 0x100
    case 9 => 0x200
    case 10 => 0x400
    case 11 => 0x800
    case 12 => 0x1000
    case 13 => 0x2000
    case 14 => 0x4000
    case 15 => 0x8000
    case 16 => 0x10000
    case 17 => 0x20000
    case 18 => 0x40000
    case 19 => 0x80000
    case 20 => 0x100000
    case 21 => 0x200000
    case 22 => 0x400000
    case 23 => 0x800000
    case 24 => 0x1000000
    case 25 => 0x2000000
    case 26 => 0x4000000
    case 27 => 0x8000000
    case 28 => 0x10000000
    case 29 => 0x20000000
    case 30 => 0x40000000
    case 31 => 0x80000000
    case _ => 0
  }

  function And(x: bv32, y: bv32): bv32 { x & y }

  function Has(x: bv32, p: bv32): bool { And(x, p) != 0 }

  function Bit(x: bv32, i: nat): bool { Has(x, Mask(i)) }

  // ---- bits of words -----------------------------------------------------------------------------------

  function Up(x: bv32): bv32 { x << 1 }
  function Down(x: bv32): bv32 { x >> 1 }

  predicate Single(p: bv32) { p & (p - 1) == 0 }

  lemma SingleMask(i: nat)
    ensures Single(Mask(i))
  {}

  lemma SomeMask(i: nat)
    ensures i < 32 <==> Mask(i) != 0
    ensures Mask(0) == 1
  {}

  lemma NextMask(i: nat)
    ensures Mask(i + 1) == Mask(i) << 1
  {}

  lemma UpIs(x: bv32)
    ensures Up(x) == x << 1
  {}

  lemma XorIs(x: bv32, y: bv32)
    ensures XorWord(x, y) == x ^ y
  {}

  lemma AndIs(x: bv32, y: bv32)
    ensures And(x, y) == x & y
  {}

  lemma HasXor(x: bv32, y: bv32, p: bv32)
    requires Single(p)
    ensures Has(x ^ y, p) == (Has(x, p) != Has(y, p))
  {}

  lemma HasAnd(x: bv32, y: bv32, p: bv32)
    requires Single(p)
    ensures Has(x & y, p) == (Has(x, p) && Has(y, p))
  {}

  lemma AndOfOr(x: bv32, y: bv32, p: bv32)
    ensures And(Or(x, y), p) == Or(And(x, p), And(y, p))
  {}

  lemma OrZero(x: bv32, y: bv32)
    ensures Or(x, y) == 0 <==> x == 0 && y == 0
  {}

  lemma HasDown(x: bv32, p: bv32)
    ensures Has(Down(x), p) == Has(x, Up(p))
  {}

  lemma HasUp(x: bv32, p: bv32)
    requires Single(p) && Up(p) != 0
    ensures Has(Up(x), Up(p)) == Has(x, p)
  {}

  lemma HasUpLowest(x: bv32)
    ensures !Has(Up(x), 1)
  {}

  lemma BitXor(x: bv32, y: bv32, i: nat)
    ensures Bit(XorWord(x, y), i) == (Bit(x, i) != Bit(y, i))
  {
    hide Mask, Single, Has, XorWord;
    SingleMask(i);
    HasXor(x, y, Mask(i));
    XorIs(x, y);
  }

  lemma BitAnd(x: bv32, y: bv32, i: nat)
    ensures Bit(And(x, y), i) == (Bit(x, i) && Bit(y, i))
  {
    hide Mask, Single, Has, And;
    SingleMask(i);
    HasAnd(x, y, Mask(i));
    AndIs(x, y);
  }

  lemma BitOr(x: bv32, y: bv32, i: nat)
    ensures Bit(Or(x, y), i) == (Bit(x, i) || Bit(y, i))
  {
    hide And, Or, Mask;
    AndOfOr(x, y, Mask(i));
    OrZero(And(x, Mask(i)), And(y, Mask(i)));
  }

  lemma BitDown(x: bv32, i: nat)
    ensures Bit(Down(x), i) == Bit(x, i + 1)
  {
    hide Mask, Has, Down, Up;
    NextMask(i);
    UpIs(Mask(i));
    HasDown(x, Mask(i));
  }

  lemma BitUp(x: bv32, i: nat)
    requires i < 32
    ensures Bit(Up(x), i) == (i > 0 && Bit(x, i - 1))
  {
    hide Mask, Has, Up, Single;
    SomeMask(i);
    if i > 0 {
      SingleMask(i - 1);
      NextMask(i - 1);
      UpIs(Mask(i - 1));
      HasUp(x, Mask(i - 1));
    } else {
      HasUpLowest(x);
    }
  }

  // ---- shifts by several places ------------------------------------------------------------------------

  function DownBy(x: bv32, k: nat): bv32 { if k == 0 then x else Down(DownBy(x, k - 1)) }
  function UpBy(x: bv32, k: nat): bv32 { if k == 0 then x else Up(UpBy(x, k - 1)) }

  lemma {:induction false} BitDownBy(x: bv32, k: nat, i: nat)
    ensures Bit(DownBy(x, k), i) == Bit(x, i + k)
  {
    hide Bit, Down;
    if k > 0 {
      BitDown(DownBy(x, k - 1), i);
      BitDownBy(x, k - 1, i + 1);
    }
  }

  lemma {:induction false} BitUpBy(x: bv32, k: nat, i: nat)
    requires i < 32
    ensures Bit(UpBy(x, k), i) == (i >= k && Bit(x, i - k))
  {
    hide Bit, Up;
    if k > 0 {
      BitUp(UpBy(x, k - 1), i);
      if i > 0 { BitUpBy(x, k - 1, i - 1); }
    }
  }

  lemma {:induction false} Summed(x: bv32, j: nat, k: nat)
    ensures DownBy(x, j + k) == DownBy(DownBy(x, j), k) && UpBy(x, j + k) == UpBy(UpBy(x, j), k)
  {
    hide Down, Up;
    if k > 0 { Summed(x, j, k - 1); }
  }

  lemma By1(x: bv32)
    ensures DownBy(x, 1) == Down(x) && UpBy(x, 1) == Up(x)
  {
    hide Down, Up;
    assert DownBy(x, 0) == x && UpBy(x, 0) == x;
  }

  function Down2(x: bv32): bv32 { x >> 2 }
  function Up2(x: bv32): bv32 { x << 2 }

  lemma Double2(x: bv32)
    ensures Down2(x) == Down(Down(x)) && Up2(x) == Up(Up(x))
  {}

  lemma By2(x: bv32)
    ensures DownBy(x, 2) == Down2(x) && UpBy(x, 2) == Up2(x)
  {
    hide *;
    Double2(x);
    Summed(x, 1, 1);
    By1(x);
    By1(Down(x));
    By1(Up(x));
  }

  function Down4(x: bv32): bv32 { x >> 4 }
  function Up4(x: bv32): bv32 { x << 4 }

  lemma Double4(x: bv32)
    ensures Down4(x) == Down2(Down2(x)) && Up4(x) == Up2(Up2(x))
  {}

  lemma By4(x: bv32)
    ensures DownBy(x, 4) == Down4(x) && UpBy(x, 4) == Up4(x)
  {
    hide *;
    Double4(x);
    Summed(x, 2, 2);
    By2(x);
    By2(Down2(x));
    By2(Up2(x));
  }

  function Down8(x: bv32): bv32 { x >> 8 }
  function Up8(x: bv32): bv32 { x << 8 }

  lemma Double8(x: bv32)
    ensures Down8(x) == Down4(Down4(x)) && Up8(x) == Up4(Up4(x))
  {}

  lemma By8(x: bv32)
    ensures DownBy(x, 8) == Down8(x) && UpBy(x, 8) == Up8(x)
  {
    hide *;
    Double8(x);
    Summed(x, 4, 4);
    By4(x);
    By4(Down4(x));
    By4(Up4(x));
  }

  function Down16(x: bv32): bv32 { x >> 16 }
  function Up16(x: bv32): bv32 { x << 16 }

  lemma Double16(x: bv32)
    ensures Down16(x) == Down8(Down8(x)) && Up16(x) == Up8(Up8(x))
  {}

  lemma By16(x: bv32)
    ensures DownBy(x, 16) == Down16(x) && UpBy(x, 16) == Up16(x)
  {
    hide *;
    Double16(x);
    Summed(x, 8, 8);
    By8(x);
    By8(Down8(x));
    By8(Up8(x));
  }
}
