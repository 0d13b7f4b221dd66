/**
 * The block operation as FIPS 46-3 states it: the bits of a block numbered from 1, sixteen equal rounds, and tables of
 * which bit goes where. The S-boxes, each with the permutation P behind it, are the tables of the program, and a key of
 * 48 bits is two words of its schedule; bit 1 of a half is the lowest bit of a word.
 */
module DesTextbook {
  import opened Des
  import opened DesBits

  // ---- the standard --------------------------------------------------------------------------------

  /** The initial permutation: output bit k + 1 is input bit IP(k). Its rows descend by 8. */
  function IP(k: nat): (n: nat)
    requires k < 64
    ensures 1 <= n <= 64
  {
    [58, 60, 62, 64, 57, 59, 61, 63][k / 8] - k % 8 * 8
  }

  /** Its inverse, whose columns descend by 1. */
  function FP(k: nat): (n: nat)
    requires k < 64
    ensures 1 <= n <= 64
  {
    [40, 8, 48, 16, 56, 24, 64, 32][k % 8] - k / 8
  }

  /** The bits of a half that the eight S-boxes look at, six for each: the row 32, 1, 2, 3, 4, 5 and so on by 4. */
  function E(k: nat): (n: nat)
    requires k < 48
    ensures 1 <= n <= 32
  {
    (k / 6 * 4 + k % 6 + 31) % 32 + 1
  }

  function XorBits(x: seq<bool>, y: seq<bool>): (r: seq<bool>)
    requires |x| == |y|
    ensures |r| == |x|
  {
    seq(|x|, i requires 0 <= i < |x| => x[i] != y[i])
  }

  function When(b: bool, m: bv32): bv32 { if b then m else 0 }

  /** Six bits as a table index, the first one lowest. */
  function Six(b0: bool, b1: bool, b2: bool, b3: bool, b4: bool, b5: bool): bv32 {
    Or(Or(Or(Or(Or(When(b0, 0x1), When(b1, 0x2)), When(b2, 0x4)), When(b3, 0x8)), When(b4, 0x10)), When(b5, 0x20))
  }

  /** What S-box `j`, from 0, yields for 48 bits. */
  function Box(sp: Tables, x: seq<bool>, j: nat): bv32
    requires |x| == 48 && j < 8
  {
    sp(j, Six(x[6 * j], x[6 * j + 1], x[6 * j + 2], x[6 * j + 3], x[6 * j + 4], x[6 * j + 5]))
  }

  /** What the S-boxes see of a half and a key. */
  function Seen(half: seq<bool>, key: seq<bool>): (x: seq<bool>)
    requires |half| == 32 && |key| == 48
    ensures |x| == 48
  {
    XorBits(seq(48, k requires 0 <= k < 48 => half[E(k) - 1]), key)
  }

  /** f (R, K). The entries of the tables stand one place to the left of the half they go into. */
  function Feistel(sp: Tables, half: seq<bool>, key: seq<bool>): (r: seq<bool>)
    requires |half| == 32 && |key| == 48
    ensures |r| == 32
  {
    seq(32, i requires 0 <= i < 32 => exists j: nat | j < 8 :: Bit(Box(sp, Seen(half, key), j), (i + 1) % 32))
  }

  /** The 48 bits of a key: the first word has those for S-boxes 0, 2, 4 and 6, the second one the others. */
  function Key(k0: bv32, k1: bv32): (r: seq<bool>)
    ensures |r| == 48
  {
    seq(48, n requires 0 <= n < 48 => Bit(if n / 6 % 2 == 0 then k0 else k1, (n / 6 * 4 + n % 6) % 32))
  }

  datatype Halves = Halves(l: seq<bool>, r: seq<bool>)

  /** The halves after `n` rounds, which take the keys from the first on, or from the last back. */
  function SingleRounds(sp: Tables, s: Schedule, start: Halves, encrypt: bool, n: nat): (h: Halves)
    requires n <= 16 && |start.l| == |start.r| == 32
    ensures |h.l| == |h.r| == 32
  {
    if n == 0 then start
    else
      var h := SingleRounds(sp, s, start, encrypt, n - 1);
      var k := if encrypt then n - 1 else 16 - n;
      Halves(h.r, XorBits(h.l, Feistel(sp, h.r, Key(s[2 * k], s[2 * k + 1]))))
  }

  /** The whole operation on 64 bits. */
  function Textbook(sp: Tables, s: Schedule, bits: seq<bool>, encrypt: bool): (r: seq<bool>)
    requires |bits| == 64
    ensures |r| == 64
  {
    var p := seq(64, k requires 0 <= k < 64 => bits[IP(k) - 1]);
    var h := SingleRounds(sp, s, Halves(p[..32], p[32..]), encrypt, 16);
    seq(64, k requires 0 <= k < 64 => (h.r + h.l)[FP(k) - 1])
  }

  /** Bit `n` of a block of octets, counted from 0: the first octet and the highest bit come first. */
  function Place(n: nat): nat {
    n / 8 * 8 + 7 - n % 8
  }

  function At(b: Block, p: nat): bool { if p < 32 then Bit(b.w0, p) else Bit(b.w1, p - 32) }

  function BitsOf(b: Block): (r: seq<bool>)
    ensures |r| == 64
  {
    seq(64, n requires 0 <= n < 64 => At(b, Place(n)))
  }

  function Plain(x: bv32): (r: seq<bool>)
    ensures |r| == 32
  {
    seq(32, i requires 0 <= i < 32 => Bit(x, i))
  }

  // ---- the permutations ----------------------------------------------------------------------------------

  /** The lower half of a stripe. */
  predicate Low(i: nat, k: nat)
    requires k > 0
  {
    i % (k + k) < k
  }

  /** PERM_OP works on stripes `k` bits wide: bit `i` of what it exchanges, and of that in its other place. */
  ghost predicate ExchangesAt(a: bv32, b: bv32, n: bv6, m: bv32, k: nat, i: nat)
    requires n <= 32 && k > 0
  {
    var t := Selected(a, b, n, m);
    && (Bit(t, i) <==> (Low(i, k) && Bit(a, i + k) != Bit(b, i)))
    && (Bit(Raised(t, n), i) <==> (i >= k && Bit(t, i - k)))
  }

  ghost predicate Exchanges(a: bv32, b: bv32, n: bv6, m: bv32, k: nat)
    requires n <= 32 && k > 0
  {
    forall i: nat | i < 32 :: ExchangesAt(a, b, n, m, k, i)
  }

  lemma FlipIs(a: bv32, b: bv32, t: bv32, n: bv6)
    requires n <= 32
    ensures Flip(a, b, t, n) == Block(XorWord(a, Raised(t, n)), XorWord(b, t))
  {
    hide Raised;
  }

  lemma Exchanged(a: bv32, b: bv32, n: bv6, m: bv32, k: nat, i: nat)
    requires n <= 32 && i < 32 && (k == 1 || k == 2 || k == 4 || k == 8 || k == 16) && Exchanges(a, b, n, m, k)
    ensures Bit(PermOp(a, b, n, m).w0, i) == if Low(i, k) then Bit(a, i) else Bit(b, i - k)
    ensures Bit(PermOp(a, b, n, m).w1, i) == if Low(i, k) then Bit(a, i + k) else Bit(b, i)
  {
    hide Bit, Low, Selected, Raised, Flip, XorWord;
    var t := Selected(a, b, n, m);
    assert ExchangesAt(a, b, n, m, k, i) && (i >= k ==> ExchangesAt(a, b, n, m, k, i - k));
    FlipIs(a, b, t, n);
    BitXor(a, Raised(t, n), i);
    BitXor(b, t, i);
    Stripe(i, k);
  }

  lemma Stripe(i: nat, k: nat)
    requires k == 1 || k == 2 || k == 4 || k == 8 || k == 16
    ensures !Low(i, k) ==> i >= k && Low(i - k, k)
    ensures Low(i, k) ==> i < k || !Low(i - k, k)
  {
    match k
    case 1 => Stripe1(i);
    case 2 => Stripe2(i);
    case 4 => Stripe4(i);
    case 8 => Stripe8(i);
    case _ => Stripe16(i);
  }

  lemma Stripe1(i: nat)
    ensures !Low(i, 1) ==> i >= 1 && Low(i - 1, 1)
    ensures Low(i, 1) ==> i < 1 || !Low(i - 1, 1)
  {}

  lemma Stripe2(i: nat)
    ensures !Low(i, 2) ==> i >= 2 && Low(i - 2, 2)
    ensures Low(i, 2) ==> i < 2 || !Low(i - 2, 2)
  {}

  lemma Stripe4(i: nat)
    ensures !Low(i, 4) ==> i >= 4 && Low(i - 4, 4)
    ensures Low(i, 4) ==> i < 4 || !Low(i - 4, 4)
  {}

  lemma Stripe8(i: nat)
    ensures !Low(i, 8) ==> i >= 8 && Low(i - 8, 8)
    ensures Low(i, 8) ==> i < 8 || !Low(i - 8, 8)
  {}

  lemma Stripe16(i: nat)
    ensures !Low(i, 16) ==> i >= 16 && Low(i - 16, 16)
    ensures Low(i, 16) ==> i < 16 || !Low(i - 16, 16)
  {}

  lemma Selected1Is(a: bv32, b: bv32)
    ensures Selected(a, b, 1, 0x55555555) == And(XorWord(Down(a), b), 0x55555555)
  {}

  lemma Raised1Is(t: bv32)
    ensures Raised(t, 1) == Up(t)
  {}

  lemma Stripes1(i: nat)
    requires i < 32
    ensures Bit(0x55555555, i) <==> Low(i, 1)
  {}

  lemma Exchanges1(a: bv32, b: bv32)
    ensures Exchanges(a, b, 1, 0x55555555, 1)
  {
    hide Bit, Low, Selected, Raised, And, XorWord, Down, Up, DownBy, UpBy;
    var t := Selected(a, b, 1, 0x55555555);
    Selected1Is(a, b);
    Raised1Is(t);
    By1(a);
    By1(t);
    forall i: nat | i < 32 ensures ExchangesAt(a, b, 1, 0x55555555, 1, i)
    {
      BitAnd(XorWord(Down(a), b), 0x55555555, i);
      BitXor(Down(a), b, i);
      BitDownBy(a, 1, i);
      Stripes1(i);
      BitUpBy(t, 1, i);
    }
  }

  lemma Selected2Is(a: bv32, b: bv32)
    ensures Selected(a, b, 2, 0x33333333) == And(XorWord(Down2(a), b), 0x33333333)
  {}

  lemma Raised2Is(t: bv32)
    ensures Raised(t, 2) == Up2(t)
  {}

  lemma Stripes2(i: nat)
    requires i < 32
    ensures Bit(0x33333333, i) <==> Low(i, 2)
  {}

  lemma Exchanges2(a: bv32, b: bv32)
    ensures Exchanges(a, b, 2, 0x33333333, 2)
  {
    hide Bit, Low, Selected, Raised, And, XorWord, Down2, Up2, DownBy, UpBy;
    var t := Selected(a, b, 2, 0x33333333);
    Selected2Is(a, b);
    Raised2Is(t);
    By2(a);
    By2(t);
    forall i: nat | i < 32 ensures ExchangesAt(a, b, 2, 0x33333333, 2, i)
    {
      BitAnd(XorWord(Down2(a), b), 0x33333333, i);
      BitXor(Down2(a), b, i);
      BitDownBy(a, 2, i);
      Stripes2(i);
      BitUpBy(t, 2, i);
    }
  }

  lemma Selected4Is(a: bv32, b: bv32)
    ensures Selected(a, b, 4, 0x0f0f0f0f) == And(XorWord(Down4(a), b), 0x0f0f0f0f)
  {}

  lemma Raised4Is(t: bv32)
    ensures Raised(t, 4) == Up4(t)
  {}

  lemma Stripes4(i: nat)
    requires i < 32
    ensures Bit(0x0f0f0f0f, i) <==> Low(i, 4)
  {}

  lemma Exchanges4(a: bv32, b: bv32)
    ensures Exchanges(a, b, 4, 0x0f0f0f0f, 4)
  {
    hide Bit, Low, Selected, Raised, And, XorWord, Down4, Up4, DownBy, UpBy;
    var t := Selected(a, b, 4, 0x0f0f0f0f);
    Selected4Is(a, b);
    Raised4Is(t);
    By4(a);
    By4(t);
    forall i: nat | i < 32 ensures ExchangesAt(a, b, 4, 0x0f0f0f0f, 4, i)
    {
      BitAnd(XorWord(Down4(a), b), 0x0f0f0f0f, i);
      BitXor(Down4(a), b, i);
      BitDownBy(a, 4, i);
      Stripes4(i);
      BitUpBy(t, 4, i);
    }
  }

  lemma Selected8Is(a: bv32, b: bv32)
    ensures Selected(a, b, 8, 0x00ff00ff) == And(XorWord(Down8(a), b), 0x00ff00ff)
  {}

  lemma Raised8Is(t: bv32)
    ensures Raised(t, 8) == Up8(t)
  {}

  lemma Stripes8(i: nat)
    requires i < 32
    ensures Bit(0x00ff00ff, i) <==> Low(i, 8)
  {}

  lemma Exchanges8(a: bv32, b: bv32)
    ensures Exchanges(a, b, 8, 0x00ff00ff, 8)
  {
    hide Bit, Low, Selected, Raised, And, XorWord, Down8, Up8, DownBy, UpBy;
    var t := Selected(a, b, 8, 0x00ff00ff);
    Selected8Is(a, b);
    Raised8Is(t);
    By8(a);
    By8(t);
    forall i: nat | i < 32 ensures ExchangesAt(a, b, 8, 0x00ff00ff, 8, i)
    {
      BitAnd(XorWord(Down8(a), b), 0x00ff00ff, i);
      BitXor(Down8(a), b, i);
      BitDownBy(a, 8, i);
      Stripes8(i);
      BitUpBy(t, 8, i);
    }
  }

  lemma Selected16Is(a: bv32, b: bv32)
    ensures Selected(a, b, 16, 0x0000ffff) == And(XorWord(Down16(a), b), 0x0000ffff)
  {}

  lemma Raised16Is(t: bv32)
    ensures Raised(t, 16) == Up16(t)
  {}

  lemma Stripes16(i: nat)
    requires i < 32
    ensures Bit(0x0000ffff, i) <==> Low(i, 16)
  {}

  lemma Exchanges16(a: bv32, b: bv32)
    ensures Exchanges(a, b, 16, 0x0000ffff, 16)
  {
    hide Bit, Low, Selected, Raised, And, XorWord, Down16, Up16, DownBy, UpBy;
    var t := Selected(a, b, 16, 0x0000ffff);
    Selected16Is(a, b);
    Raised16Is(t);
    By16(a);
    By16(t);
    forall i: nat | i < 32 ensures ExchangesAt(a, b, 16, 0x0000ffff, 16, i)
    {
      BitAnd(XorWord(Down16(a), b), 0x0000ffff, i);
      BitXor(Down16(a), b, i);
      BitDownBy(a, 16, i);
      Stripes16(i);
      BitUpBy(t, 16, i);
    }
  }

  /** Where the bit at `p` comes from when the halves exchange stripes: PermLR, and PermRL. */
  function FromLR(p: nat, k: nat): (q: nat)
    requires p < 64 && (k == 1 || k == 2 || k == 4 || k == 8 || k == 16)
    ensures q < 64
  {
    if p < 32 then if Low(p, k) then p else 32 + p - k
    else if Low(p - 32, k) then p - 32 + k else p
  }

  function FromRL(p: nat, k: nat): (q: nat)
    requires p < 64 && (k == 1 || k == 2 || k == 4 || k == 8 || k == 16)
    ensures q < 64
  {
    if p < 32 then if Low(p, k) then 32 + p + k else p
    else if Low(p - 32, k) then p else p - 32 - k
  }

  lemma MovedLR(b: Block, n: bv6, m: bv32, k: nat, p: nat)
    requires n <= 32 && p < 64 && (k == 1 || k == 2 || k == 4 || k == 8 || k == 16) && Exchanges(b.w0, b.w1, n, m, k)
    ensures At(PermLR(b, n, m), p) == At(b, FromLR(p, k))
  {
    hide Bit, PermOp, Exchanges;
    Stripe(p % 32, k);
    Exchanged(b.w0, b.w1, n, m, k, p % 32);
    hide Low;
  }

  lemma MovedRL(b: Block, n: bv6, m: bv32, k: nat, p: nat)
    requires n <= 32 && p < 64 && (k == 1 || k == 2 || k == 4 || k == 8 || k == 16) && Exchanges(b.w1, b.w0, n, m, k)
    ensures At(PermRL(b, n, m), p) == At(b, FromRL(p, k))
  {
    hide Bit, PermOp, Exchanges;
    Stripe(p % 32, k);
    Exchanged(b.w1, b.w0, n, m, k, p % 32);
    hide Low;
  }

  function FromIP(p: nat): (q: nat)
    requires p < 64
    ensures q < 64
  {
    FromRL(FromLR(FromRL(FromLR(FromRL(p, 1), 8), 2), 16), 4)
  }

  lemma MovedIP(b: Block, p: nat)
    requires p < 64
    ensures At(InitialPermutation(b), p) == At(b, FromIP(p))
  {
    hide At, PermLR, PermRL, Exchanges, FromLR, FromRL;
    var b1 := PermRL(b, 4, 0x0f0f0f0f);
    var b2 := PermLR(b1, 16, 0x0000ffff);
    var b3 := PermRL(b2, 2, 0x33333333);
    var b4 := PermLR(b3, 8, 0x00ff00ff);
    var p4 := FromRL(p, 1);
    var p3 := FromLR(p4, 8);
    var p2 := FromRL(p3, 2);
    var p1 := FromLR(p2, 16);
    Exchanges4(b.w1, b.w0);
    Exchanges16(b1.w0, b1.w1);
    Exchanges2(b2.w1, b2.w0);
    Exchanges8(b3.w0, b3.w1);
    Exchanges1(b4.w1, b4.w0);
    MovedRL(b, 4, 0x0f0f0f0f, 4, p1);
    MovedLR(b1, 16, 0x0000ffff, 16, p2);
    MovedRL(b2, 2, 0x33333333, 2, p3);
    MovedLR(b3, 8, 0x00ff00ff, 8, p4);
    MovedRL(b4, 1, 0x55555555, 1, p);
  }

  /** The bits of the halves, that of the second word first. */
  function HalvesOf(b: Block): (r: seq<bool>)
    ensures |r| == 64
  {
    Plain(b.w1) + Plain(b.w0)
  }

  /** A place among 64, by its six binary digits. */
  function Pack(w: nat, a: nat, b: nat, c: nat, d: nat, e: nat): (p: nat)
    requires w < 2 && a < 2 && b < 2 && c < 2 && d < 2 && e < 2
    ensures p < 64
  {
    32 * w + 16 * a + 8 * b + 4 * c + 2 * d + e
  }

  lemma Unpacked(p: nat) returns (w: nat, a: nat, b: nat, c: nat, d: nat, e: nat)
    requires p < 64
    ensures w < 2 && a < 2 && b < 2 && c < 2 && d < 2 && e < 2 && p == Pack(w, a, b, c, d, e)
  {
    var p1 := p / 2;
    var p2 := p1 / 2;
    var p3 := p2 / 2;
    var p4 := p3 / 2;
    w, a, b, c, d, e := p4 / 2, p4 % 2, p3 % 2, p2 % 2, p1 % 2, p % 2;
  }

  // An exchange of stripes exchanges the highest digit with another one, in RL with both complemented.

  lemma Digit1(w: nat, a: nat, b: nat, c: nat, d: nat, e: nat)
    requires w < 2 && a < 2 && b < 2 && c < 2 && d < 2 && e < 2
    ensures FromRL(Pack(w, a, b, c, d, e), 1) == Pack(1 - e, a, b, c, d, 1 - w)
  {
    var i := 16 * a + 8 * b + 4 * c + 2 * d + e;
    assert i % 2 == e && (Low(i, 1) <==> e == 0);
    hide Low;
  }

  lemma Digit8(w: nat, a: nat, b: nat, c: nat, d: nat, e: nat)
    requires w < 2 && a < 2 && b < 2 && c < 2 && d < 2 && e < 2
    ensures FromLR(Pack(w, a, b, c, d, e), 8) == Pack(b, a, w, c, d, e)
  {
    var i := 16 * a + (8 * b + 4 * c + 2 * d + e);
    assert i % 16 == 8 * b + 4 * c + 2 * d + e && (Low(i, 8) <==> b == 0);
    hide Low;
  }

  lemma Digit2(w: nat, a: nat, b: nat, c: nat, d: nat, e: nat)
    requires w < 2 && a < 2 && b < 2 && c < 2 && d < 2 && e < 2
    ensures FromRL(Pack(w, a, b, c, d, e), 2) == Pack(1 - d, a, b, c, 1 - w, e)
  {
    var i := 16 * a + 8 * b + 4 * c + 2 * d + e;
    assert i % 4 == 2 * d + e && (Low(i, 2) <==> d == 0);
    hide Low;
  }

  lemma Digit16(w: nat, a: nat, b: nat, c: nat, d: nat, e: nat)
    requires w < 2 && a < 2 && b < 2 && c < 2 && d < 2 && e < 2
    ensures FromLR(Pack(w, a, b, c, d, e), 16) == Pack(a, w, b, c, d, e)
  {
    var i := 16 * a + (8 * b + 4 * c + 2 * d + e);
    assert i % 32 == i && (Low(i, 16) <==> a == 0);
    hide Low;
  }

  lemma Digit4(w: nat, a: nat, b: nat, c: nat, d: nat, e: nat)
    requires w < 2 && a < 2 && b < 2 && c < 2 && d < 2 && e < 2
    ensures FromRL(Pack(w, a, b, c, d, e), 4) == Pack(1 - c, a, b, 1 - w, d, e)
  {
    var i := 16 * a + 8 * b + 4 * c + 2 * d + e;
    assert i % 8 == 4 * c + 2 * d + e && (Low(i, 4) <==> c == 0);
    hide Low;
  }

  lemma DigitsOfIP(w: nat, a: nat, b: nat, c: nat, d: nat, e: nat)
    requires w < 2 && a < 2 && b < 2 && c < 2 && d < 2 && e < 2
    ensures FromIP(Pack(w, a, b, c, d, e)) == 63 - Pack(c, d, e, a, b, w)
  {
    hide FromLR, FromRL;
    Digit1(w, a, b, c, d, e);
    Digit8(1 - e, a, b, c, d, 1 - w);
    Digit2(b, a, 1 - e, c, d, 1 - w);
    Digit16(1 - d, a, 1 - e, c, 1 - b, 1 - w);
    Digit4(a, 1 - d, 1 - e, c, 1 - b, 1 - w);
  }

  lemma RowOfIP(r: nat, c: nat)
    requires r < 8 && c < 8
    ensures Place(IP(8 * r + c) - 1) == 63 - 8 * c - (if r < 4 then 1 + 2 * r else 2 * r - 8)
  {
    var k := 8 * r + c;
    assert k / 8 == r && k % 8 == c;
  }

  /** The exchanges bring the bits to where the table says. */
  lemma TableOfIP(k: nat)
    requires k < 64
    ensures FromIP((k + 32) % 64) == Place(IP(k) - 1)
  {
    hide FromIP, IP, Place;
    var w, a, b, c, d, e := Unpacked(k);
    DigitsOfIP(1 - w, a, b, c, d, e);
    assert (k + 32) % 64 == Pack(1 - w, a, b, c, d, e);
    RowOfIP(4 * w + 2 * a + b, 4 * c + 2 * d + e);
  }

  lemma TableOfFP(k: nat)
    requires k < 64
    ensures IP(FP(k) - 1) == k + 1
  {}

  lemma HalvesAt(b: Block, k: nat)
    requires k < 64
    ensures HalvesOf(b)[k] == At(b, (k + 32) % 64)
  {
    hide Bit;
  }

  lemma SelectsIP(b: Block)
    ensures HalvesOf(InitialPermutation(b)) == seq(64, k requires 0 <= k < 64 => BitsOf(b)[IP(k) - 1])
  {
    hide InitialPermutation, Bit, At, Place, IP, FromIP;
    forall k | 0 <= k < 64 ensures HalvesOf(InitialPermutation(b))[k] == BitsOf(b)[IP(k) - 1] {
      MovedIP(b, (k + 32) % 64);
      TableOfIP(k);
      HalvesAt(InitialPermutation(b), k);
    }
  }

  lemma SelectsFP(b: Block)
    ensures BitsOf(FinalPermutation(b)) == seq(64, k requires 0 <= k < 64 => HalvesOf(b)[FP(k) - 1])
  {
    hide InitialPermutation, FinalPermutation, BitsOf, HalvesOf, IP, FP;
    SelectsIP(FinalPermutation(b));
    PermutationsInverse(b);
    forall k | 0 <= k < 64 ensures BitsOf(FinalPermutation(b))[k] == HalvesOf(b)[FP(k) - 1] {
      TableOfFP(k);
    }
  }

  // ---- the rounds ------------------------------------------------------------------------------------------

  /** The half that a word holds between the rotations, one place to the left. */
  function Turn(x: bv32): (r: seq<bool>)
    ensures |r| == 32
  {
    seq(32, i requires 0 <= i < 32 => Bit(x, (i + 1) % 32))
  }

  lemma HasRotL(x: bv32, p: bv32)
    requires Single(p) && Up(p) != 0
    ensures Has(RotL(x), Up(p)) == Has(x, p)
  {}

  lemma HasRotLLowest(x: bv32)
    ensures Has(RotL(x), 1) == Has(x, 0x8000_0000)
  {}

  lemma TopMask()
    ensures Mask(31) == 0x8000_0000
  {}

  lemma BitRotL(x: bv32, i: nat)
    requires i < 32
    ensures Bit(RotL(x), (i + 1) % 32) == Bit(x, i)
  {
    hide RotL, Has, Mask, Single, Up;
    SomeMask(i + 1);
    if i == 31 {
      TopMask();
      HasRotLLowest(x);
    } else {
      SingleMask(i);
      NextMask(i);
      UpIs(Mask(i));
      HasRotL(x, Mask(i));
    }
  }

  lemma BitRotR(x: bv32, i: nat)
    requires i < 32
    ensures Bit(RotR(x), i) == Bit(x, (i + 1) % 32)
  {
    hide RotL, RotR, Bit;
    BitRotL(RotR(x), i);
    RotationsInverse(x);
  }

  lemma TurnsIn(x: bv32)
    ensures Turn(RotL(x)) == Plain(x) && Plain(RotR(x)) == Turn(x)
  {
    hide RotL, RotR, Bit;
    forall i | 0 <= i < 32 ensures Turn(RotL(x))[i] == Plain(x)[i] && Plain(RotR(x))[i] == Turn(x)[i] {
      BitRotL(x, i);
      BitRotR(x, i);
    }
  }

  lemma TurnedIs(x: bv32)
    ensures Turned(x) == RotR(RotR(RotR(RotR(x))))
  {}

  lemma BitTurned(x: bv32, i: nat)
    requires i < 32
    ensures Bit(Turned(x), i) == Bit(x, (i + 4) % 32)
  {
    hide RotR, Bit, Turned;
    TurnedIs(x);
    var r1 := RotR(x);
    var r2 := RotR(r1);
    var r3 := RotR(r2);
    BitRotR(r3, i);
    BitRotR(r2, (i + 1) % 32);
    BitRotR(r1, (i + 2) % 32);
    BitRotR(x, (i + 3) % 32);
  }

  // ---- the S-boxes -----------------------------------------------------------------------------------------

  function SixBits(x: bv32, n: nat): bv32 {
    Six(Bit(x, n), Bit(x, n + 1), Bit(x, n + 2), Bit(x, n + 3), Bit(x, n + 4), Bit(x, n + 5))
  }

  lemma WhenHas(x: bv32, p: bv32)
    requires Single(p)
    ensures When(Has(x, p), p) == And(x, p)
  {}

  lemma LowMasks()
    ensures Mask(0) == 0x1 && Mask(1) == 0x2 && Mask(2) == 0x4 && Mask(3) == 0x8 && Mask(4) == 0x10 && Mask(5) == 0x20
  {}

  lemma SixAnds(x: bv32)
    ensures Or(Or(Or(Or(Or(And(x, 0x1), And(x, 0x2)), And(x, 0x4)), And(x, 0x8)), And(x, 0x10)), And(x, 0x20)) ==
            And(x, 0x3f)
  {}

  lemma LowestSix(x: bv32)
    ensures SixBits(x, 0) == And(x, 0x3f)
  {
    hide Mask, Has, And, Or, When;
    LowMasks();
    WhenHas(x, 0x1);
    WhenHas(x, 0x2);
    WhenHas(x, 0x4);
    WhenHas(x, 0x8);
    WhenHas(x, 0x10);
    WhenHas(x, 0x20);
    SixAnds(x);
  }

  lemma IndexIs(x: bv32)
    ensures Index(x, 0) == And(x, 0x3f) && Index(x, 8) == And(Down8(x), 0x3f)
    ensures Index(x, 16) == And(Down16(x), 0x3f) && Index(x, 24) == And(Down8(Down16(x)), 0x3f)
  {}

  lemma ShiftedSix(x: bv32, k: nat, n: nat)
    ensures SixBits(DownBy(x, k), n) == SixBits(x, n + k)
  {
    hide Bit, Six, DownBy;
    BitDownBy(x, k, n);
    BitDownBy(x, k, n + 1);
    BitDownBy(x, k, n + 2);
    BitDownBy(x, k, n + 3);
    BitDownBy(x, k, n + 4);
    BitDownBy(x, k, n + 5);
  }

  /** A table index is six bits in a row. */
  lemma Indices(x: bv32)
    ensures Index(x, 0) == SixBits(x, 0) && Index(x, 8) == SixBits(x, 8)
    ensures Index(x, 16) == SixBits(x, 16) && Index(x, 24) == SixBits(x, 24)
  {
    hide *;
    IndexIs(x);
    By8(x);
    By16(x);
    By8(Down16(x));
    LowestSix(x);
    LowestSix(Down8(x));
    LowestSix(Down16(x));
    LowestSix(Down8(Down16(x)));
    ShiftedSix(x, 8, 0);
    ShiftedSix(x, 16, 0);
    ShiftedSix(Down16(x), 8, 0);
    ShiftedSix(x, 16, 8);
  }

  lemma TurnAt(r: bv32, j: nat, b: nat)
    requires j < 8 && b < 6
    ensures Turn(r)[E(6 * j + b) - 1] == Bit(r, (4 * j + b) % 32)
  {
    hide Bit;
    var k := 6 * j + b;
    assert k / 6 == j && k % 6 == b;
    var q := 4 * j + b;
    assert E(k) - 1 == (q + 31) % 32 && (if q < 32 then q % 32 == q else q % 32 == q - 32);
    assert (E(k) - 1 + 1) % 32 == q % 32;
    hide E;
  }

  lemma KeyAt(k0: bv32, k1: bv32, j: nat, b: nat)
    requires j < 8 && b < 6
    ensures Key(k0, k1)[6 * j + b] == Bit(if j % 2 == 0 then k0 else k1, (4 * j + b) % 32)
  {
    hide Bit;
    var k := 6 * j + b;
    assert k / 6 == j && k % 6 == b;
  }

  lemma SeenAt(r: bv32, k0: bv32, k1: bv32, j: nat, b: nat)
    requires j < 8 && b < 6
    ensures Seen(Turn(r), Key(k0, k1))[6 * j + b] == Bit(XorWord(r, if j % 2 == 0 then k0 else k1), (4 * j + b) % 32)
  {
    hide Bit, XorWord, Turn, Key, E;
    TurnAt(r, j, b);
    KeyAt(k0, k1, j, b);
    BitXor(r, if j % 2 == 0 then k0 else k1, (4 * j + b) % 32);
  }

  /** The first key word serves the even S-boxes in place. */
  lemma SeenEven(r: bv32, k0: bv32, k1: bv32, h: nat, b: nat)
    requires h < 4 && b < 6
    ensures Seen(Turn(r), Key(k0, k1))[12 * h + b] == Bit(XorWord(r, k0), 8 * h + b)
  {
    hide Bit, XorWord, Turn, Key, Seen;
    SeenAt(r, k0, k1, 2 * h, b);
  }

  /** The second one serves the odd S-boxes four bits further. */
  lemma SeenOdd(r: bv32, k0: bv32, k1: bv32, h: nat, b: nat)
    requires h < 4 && b < 6
    ensures Seen(Turn(r), Key(k0, k1))[12 * h + 6 + b] == Bit(Turned(XorWord(r, k1)), 8 * h + b)
  {
    hide Bit, XorWord, Turn, Key, Seen, Turned;
    SeenAt(r, k0, k1, 2 * h + 1, b);
    BitTurned(XorWord(r, k1), 8 * h + b);
  }

  lemma SixEven(sp: Tables, r: bv32, k0: bv32, k1: bv32, h: nat)
    requires h < 4
    ensures Box(sp, Seen(Turn(r), Key(k0, k1)), 2 * h) == sp(2 * h, SixBits(XorWord(r, k0), 8 * h))
  {
    hide Bit, Six, Seen, Turn, Key, XorWord, Turned;
    SeenEven(r, k0, k1, h, 0);
    SeenEven(r, k0, k1, h, 1);
    SeenEven(r, k0, k1, h, 2);
    SeenEven(r, k0, k1, h, 3);
    SeenEven(r, k0, k1, h, 4);
    SeenEven(r, k0, k1, h, 5);
  }

  lemma SixOdd(sp: Tables, r: bv32, k0: bv32, k1: bv32, h: nat)
    requires h < 4
    ensures Box(sp, Seen(Turn(r), Key(k0, k1)), 2 * h + 1) == sp(2 * h + 1, SixBits(Turned(XorWord(r, k1)), 8 * h))
  {
    hide Bit, Six, Seen, Turn, Key, XorWord, Turned;
    SeenOdd(r, k0, k1, h, 0);
    SeenOdd(r, k0, k1, h, 1);
    SeenOdd(r, k0, k1, h, 2);
    SeenOdd(r, k0, k1, h, 3);
    SeenOdd(r, k0, k1, h, 4);
    SeenOdd(r, k0, k1, h, 5);
  }

  lemma RoundWordIs(sp: Tables, r: bv32, k0: bv32, k1: bv32)
    ensures var u, t := XorWord(r, k0), Turned(XorWord(r, k1));
            RoundWord(sp, r, k0, k1) ==
            Or(Or(Or(Or(Or(Or(Or(
              sp(1, Index(t, 0)), sp(3, Index(t, 8))), sp(5, Index(t, 16))), sp(7, Index(t, 24))),
              sp(0, Index(u, 0))), sp(2, Index(u, 8))), sp(4, Index(u, 16))), sp(6, Index(u, 24)))
  {
    hide Or, Index, Turned;
  }

  /** The word of a round is what all the S-boxes yield together. */
  lemma BoxesOfRound(sp: Tables, r: bv32, k0: bv32, k1: bv32, i: nat)
    ensures Bit(RoundWord(sp, r, k0, k1), i) <==> exists j: nat | j < 8 ::
              Bit(Box(sp, Seen(Turn(r), Key(k0, k1)), j), i)
  {
    hide Bit, Box, Seen, Turn, Key, XorWord, Turned, Or, Index, SixBits, RoundWord;
    var u, t := XorWord(r, k0), Turned(XorWord(r, k1));
    RoundWordIs(sp, r, k0, k1);
    Indices(u);
    Indices(t);
    SixEven(sp, r, k0, k1, 0);
    SixOdd(sp, r, k0, k1, 0);
    SixEven(sp, r, k0, k1, 1);
    SixOdd(sp, r, k0, k1, 1);
    SixEven(sp, r, k0, k1, 2);
    SixOdd(sp, r, k0, k1, 2);
    SixEven(sp, r, k0, k1, 3);
    SixOdd(sp, r, k0, k1, 3);
    var o1 := Or(sp(1, Index(t, 0)), sp(3, Index(t, 8)));
    var o2 := Or(o1, sp(5, Index(t, 16)));
    var o3 := Or(o2, sp(7, Index(t, 24)));
    var o4 := Or(o3, sp(0, Index(u, 0)));
    var o5 := Or(o4, sp(2, Index(u, 8)));
    var o6 := Or(o5, sp(4, Index(u, 16)));
    BitOr(sp(1, Index(t, 0)), sp(3, Index(t, 8)), i);
    BitOr(o1, sp(5, Index(t, 16)), i);
    BitOr(o2, sp(7, Index(t, 24)), i);
    BitOr(o3, sp(0, Index(u, 0)), i);
    BitOr(o4, sp(2, Index(u, 8)), i);
    BitOr(o5, sp(4, Index(u, 16)), i);
    BitOr(o6, sp(6, Index(u, 24)), i);
    EightBoxes(sp, Seen(Turn(r), Key(k0, k1)), i);
  }

  lemma EightBoxes(sp: Tables, x: seq<bool>, i: nat)
    requires |x| == 48
    ensures (exists j: nat | j < 8 :: Bit(Box(sp, x, j), i)) <==>
            || Bit(Box(sp, x, 0), i) || Bit(Box(sp, x, 1), i) || Bit(Box(sp, x, 2), i) || Bit(Box(sp, x, 3), i)
            || Bit(Box(sp, x, 4), i) || Bit(Box(sp, x, 5), i) || Bit(Box(sp, x, 6), i) || Bit(Box(sp, x, 7), i)
  {
    hide Bit, Box;
  }

  lemma FeistelOfRound(sp: Tables, r: bv32, k0: bv32, k1: bv32)
    ensures Turn(RoundWord(sp, r, k0, k1)) == Feistel(sp, Turn(r), Key(k0, k1))
  {
    hide Bit, Box, Seen, Key, RoundWord;
    forall i | 0 <= i < 32 ensures Turn(RoundWord(sp, r, k0, k1))[i] == Feistel(sp, Turn(r), Key(k0, k1))[i] {
      BoxesOfRound(sp, r, k0, k1, (i + 1) % 32);
    }
  }

  // ---- the operation ---------------------------------------------------------------------------------------

  lemma DEncryptIs(sp: Tables, s: Schedule, l: bv32, r: bv32, i: nat)
    requires i + 1 < 32
    ensures Turn(DEncrypt(sp, s, l, r, i)) == XorBits(Turn(l), Feistel(sp, Turn(r), Key(s[i], s[i + 1])))
  {
    hide Bit, RoundWord, Feistel, Key, XorWord;
    var w := RoundWord(sp, r, s[i], s[i + 1]);
    FeistelOfRound(sp, r, s[i], s[i + 1]);
    XorIs(l, w);
    forall k | 0 <= k < 32 ensures Turn(XorWord(l, w))[k] == (Turn(l)[k] != Turn(w)[k]) {
      BitXor(l, w, (k + 1) % 32);
    }
  }

  function Turns(b: Block): (h: Halves)
    ensures |h.l| == |h.r| == 32
  {
    Halves(Turn(b.w0), Turn(b.w1))
  }

  /** A round of the standard. */
  function OneRound(sp: Tables, h: Halves, k0: bv32, k1: bv32): (r: Halves)
    requires |h.l| == |h.r| == 32
    ensures |r.l| == |r.r| == 32
  {
    Halves(h.r, XorBits(h.l, Feistel(sp, h.r, Key(k0, k1))))
  }

  lemma TwoAreSingle(sp: Tables, s: Schedule, b: Block, i: nat, j: nat)
    requires i + 1 < 32 && j + 1 < 32
    ensures Turns(TwoRounds(sp, s, b, i, j)) == OneRound(sp, OneRound(sp, Turns(b), s[i], s[i + 1]), s[j], s[j + 1])
  {
    hide Turn, Feistel, Key, DEncrypt, XorBits;
    DEncryptIs(sp, s, b.w0, b.w1, i);
    DEncryptIs(sp, s, b.w1, DEncrypt(sp, s, b.w0, b.w1, i), j);
  }

  lemma {:induction false} EncryptingIsSingle(sp: Tables, s: Schedule, b: Block, n: nat)
    requires n <= 8
    ensures Turns(EncryptRounds(sp, s, b, n)) == SingleRounds(sp, s, Turns(b), true, 2 * n)
  {
    hide Turns, TwoRounds, OneRound, SingleRounds;
    if n == 0 {
      NoRound(sp, s, Turns(b), true);
    } else {
      EncryptingIsSingle(sp, s, b, n - 1);
      TwoAreSingle(sp, s, EncryptRounds(sp, s, b, n - 1), 4 * n - 4, 4 * n - 2);
      SingleStep(sp, s, Turns(b), true, 2 * n - 1);
      SingleStep(sp, s, Turns(b), true, 2 * n);
    }
  }

  lemma {:induction false} DecryptingIsSingle(sp: Tables, s: Schedule, b: Block, n: nat)
    requires n <= 8
    ensures Turns(DecryptRounds(sp, s, b, n)) == SingleRounds(sp, s, Turns(b), false, 2 * n)
  {
    hide Turns, TwoRounds, OneRound, SingleRounds;
    if n == 0 {
      NoRound(sp, s, Turns(b), false);
    } else {
      DecryptingIsSingle(sp, s, b, n - 1);
      TwoAreSingle(sp, s, DecryptRounds(sp, s, b, n - 1), 34 - 4 * n, 32 - 4 * n);
      SingleStep(sp, s, Turns(b), false, 2 * n - 1);
      SingleStep(sp, s, Turns(b), false, 2 * n);
    }
  }

  lemma NoRound(sp: Tables, s: Schedule, start: Halves, encrypt: bool)
    requires |start.l| == |start.r| == 32
    ensures SingleRounds(sp, s, start, encrypt, 0) == start
  {}

  lemma SingleStep(sp: Tables, s: Schedule, start: Halves, encrypt: bool, n: nat)
    requires 0 < n <= 16 && |start.l| == |start.r| == 32
    ensures var h := SingleRounds(sp, s, start, encrypt, n - 1);
            SingleRounds(sp, s, start, encrypt, n) ==
            if encrypt then OneRound(sp, h, s[2 * n - 2], s[2 * n - 1])
            else OneRound(sp, h, s[32 - 2 * n], s[33 - 2 * n])
  {
    hide Key, Feistel, XorBits;
  }

  /** des_encrypt is the block operation of the standard. */
  lemma CipherIsTextbook(sp: Tables, s: Schedule, b: Block, encrypt: bool)
    ensures BitsOf(Cipher(sp, s, b, encrypt)) == Textbook(sp, s, BitsOf(b), encrypt)
  {
    hide InitialPermutation, FinalPermutation, BitsOf, Plain, Turn, IP, FP, SingleRounds, EncryptRounds, DecryptRounds;
    hide RotL, RotR;
    var start := InitialPermutation(b);
    SelectsIP(b);
    var p := HalvesOf(start);
    assert p[..32] == Plain(start.w1) && p[32..] == Plain(start.w0);
    TurnsIn(start.w0);
    TurnsIn(start.w1);
    var entered := EnterRounds(start);
    EncryptingIsSingle(sp, s, entered, 8);
    DecryptingIsSingle(sp, s, entered, 8);
    var done := Rounds(sp, s, entered, encrypt);
    TurnsIn(done.w0);
    TurnsIn(done.w1);
    SelectsFP(LeaveRounds(done));
  }
}
