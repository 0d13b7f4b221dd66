/**
 * The DES block operation on longs of 64 bits, as the statements compute it there: shifts can leave bits
 * above the 32nd, which some statements clear and others do not look at.
 */
module DesWide {
  import opened Des

  // ---- longs -----------------------------------------------------------------------------------------

  /** A word in a long. */
  function Long(x: bv32): bv64 { x as bv64 }

  function Xor64(x: bv64, y: bv64): bv64 { x ^ y }
  function Or64(x: bv64, y: bv64): bv64 { x | y }
  function And64(x: bv64, y: bv64): bv64 { x & y }
  function Shl64(x: bv64, n: bv6): bv64 { x << n }
  function Shr64(x: bv64, n: bv6): bv64 { x >> n }

  lemma LongXor(x: bv32, y: bv32)
    ensures Xor64(Long(x), Long(y)) == Long(x ^ y)
  {}

  lemma LongOr(x: bv32, y: bv32)
    ensures Or64(Long(x), Long(y)) == Long(Or(x, y))
  {}

  // ---- permutations ----------------------------------------------------------------------------------

  datatype Wide = Wide(w0: bv64, w1: bv64) {
    function Swap(): Wide { Wide(w1, w0) }
  }

  function Widen(b: Block): Wide { Wide(Long(b.w0), Long(b.w1)) }

  function Selected64(a: bv64, b: bv64, n: bv6, m: bv32): bv64 { And64(Xor64(Shr64(a, n), b), Long(m)) }

  function Flip64(a: bv64, b: bv64, t: bv64, n: bv6): Wide { Wide(Xor64(a, Shl64(t, n)), Xor64(b, t)) }

  /** PERM_OP. */
  function PermOp64(a: bv64, b: bv64, n: bv6, m: bv32): Wide { Flip64(a, b, Selected64(a, b, n, m), n) }

  function PermLR64(b: Wide, n: bv6, m: bv32): Wide { PermOp64(b.w0, b.w1, n, m) }

  function PermRL64(b: Wide, n: bv6, m: bv32): Wide { PermOp64(b.w1, b.w0, n, m).Swap() }

  /** The selected bits are those of the words. */
  lemma WideSelected(a: bv32, b: bv32, n: bv6, m: bv32)
    requires n <= 32
    ensures Selected64(Long(a), Long(b), n, m) == Long(Selected(a, b, n, m))
    ensures Selected(a, b, n, m) & m == Selected(a, b, n, m)
  {}

  /** The shifts and masks of IP and FP. */
  predicate IsMask(n: bv6, m: bv32) {
    || (n == 4 && m == 0x0f0f0f0f) || (n == 16 && m == 0x0000ffff) || (n == 2 && m == 0x33333333)
    || (n == 8 && m == 0x00ff00ff) || (n == 1 && m == 0x55555555)
  }

  /** The shift back loses no bit that one of them selects. */
  lemma Shift4(t: bv32)
    requires t & 0x0f0f0f0f == t
    ensures Shl64(Long(t), 4) == Long(t << 4)
  {}

  lemma Shift16(t: bv32)
    requires t & 0x0000ffff == t
    ensures Shl64(Long(t), 16) == Long(t << 16)
  {}

  lemma Shift2(t: bv32)
    requires t & 0x33333333 == t
    ensures Shl64(Long(t), 2) == Long(t << 2)
  {}

  lemma Shift8(t: bv32)
    requires t & 0x00ff00ff == t
    ensures Shl64(Long(t), 8) == Long(t << 8)
  {}

  lemma Shift1(t: bv32)
    requires t & 0x55555555 == t
    ensures Shl64(Long(t), 1) == Long(t << 1)
  {}

  lemma RaisedIsShifted(t: bv32)
    ensures Raised(t, 4) == t << 4 && Raised(t, 16) == t << 16 && Raised(t, 2) == t << 2
    ensures Raised(t, 8) == t << 8 && Raised(t, 1) == t << 1
  {}

  lemma WideRaised(t: bv32, n: bv6, m: bv32)
    requires IsMask(n, m) && t & m == t
    ensures Shl64(Long(t), n) == Long(Raised(t, n))
  {
    RaisedIsShifted(t);
    hide Shl64, Long, Raised;
    match n
    case 4 => Shift4(t);
    case 16 => Shift16(t);
    case 2 => Shift2(t);
    case 8 => Shift8(t);
    case _ => Shift1(t);
  }

  lemma WideFlip(a: bv32, b: bv32, t: bv32, n: bv6)
    requires n <= 32 && Shl64(Long(t), n) == Long(Raised(t, n))
    ensures Flip64(Long(a), Long(b), Long(t), n) == Widen(Flip(a, b, t, n))
  {
    hide Raised, Long, Xor64, Shl64;
    LongXor(a, Raised(t, n));
    LongXor(b, t);
  }

  lemma WidePermOp(a: bv32, b: bv32, n: bv6, m: bv32)
    requires IsMask(n, m)
    ensures PermOp64(Long(a), Long(b), n, m) == Widen(PermOp(a, b, n, m))
  {
    WideSelected(a, b, n, m);
    WideRaised(Selected(a, b, n, m), n, m);
    hide Selected, Raised, Selected64, Long, Xor64, Shl64, Flip, Flip64, Widen;
    WideFlip(a, b, Selected(a, b, n, m), n);
  }

  lemma WidePermLR(b: Block, n: bv6, m: bv32)
    requires IsMask(n, m)
    ensures PermLR64(Widen(b), n, m) == Widen(PermLR(b, n, m))
  {
    hide PermOp, PermOp64, Long, IsMask;
    WidePermOp(b.w0, b.w1, n, m);
  }

  lemma WidePermRL(b: Block, n: bv6, m: bv32)
    requires IsMask(n, m)
    ensures PermRL64(Widen(b), n, m) == Widen(PermRL(b, n, m))
  {
    hide PermOp, PermOp64, Long, IsMask;
    WidePermOp(b.w1, b.w0, n, m);
  }

  function InitialPermutation64(b: Wide): Wide {
    var half := PermRL64(PermLR64(PermRL64(b, 4, 0x0f0f0f0f), 16, 0x0000ffff), 2, 0x33333333);
    PermRL64(PermLR64(half, 8, 0x00ff00ff), 1, 0x55555555)
  }

  function FinalPermutation64(b: Wide): Wide {
    var half := PermRL64(PermLR64(PermRL64(b, 1, 0x55555555), 8, 0x00ff00ff), 2, 0x33333333);
    PermRL64(PermLR64(half, 16, 0x0000ffff), 4, 0x0f0f0f0f)
  }

  lemma WidePermutations(b: Block)
    ensures InitialPermutation64(Widen(b)) == Widen(InitialPermutation(b))
    ensures FinalPermutation64(Widen(b)) == Widen(FinalPermutation(b))
  {
    hide PermRL, PermLR, PermRL64, PermLR64, Widen;
    var i1 := PermRL(b, 4, 0x0f0f0f0f);
    var i2 := PermLR(i1, 16, 0x0000ffff);
    var i3 := PermRL(i2, 2, 0x33333333);
    WidePermRL(b, 4, 0x0f0f0f0f);
    WidePermLR(i1, 16, 0x0000ffff);
    WidePermRL(i2, 2, 0x33333333);
    WidePermLR(i3, 8, 0x00ff00ff);
    WidePermRL(PermLR(i3, 8, 0x00ff00ff), 1, 0x55555555);
    var f1 := PermRL(b, 1, 0x55555555);
    var f2 := PermLR(f1, 8, 0x00ff00ff);
    var f3 := PermRL(f2, 2, 0x33333333);
    WidePermRL(b, 1, 0x55555555);
    WidePermLR(f1, 8, 0x00ff00ff);
    WidePermRL(f2, 2, 0x33333333);
    WidePermLR(f3, 16, 0x0000ffff);
    WidePermRL(PermLR(f3, 16, 0x0000ffff), 4, 0x0f0f0f0f);
  }

  // ---- rounds ----------------------------------------------------------------------------------------

  /** The rotations, and the statements that clear the top bits after them. */
  function RotL64(x: bv64): bv64 { ((x << 1) | (x >> 31)) & 0xffff_ffff }
  function RotR64(x: bv64): bv64 { ((x >> 1) | (x << 31)) & 0xffff_ffff }

  lemma WideRotations(x: bv32)
    ensures RotL64(Long(x)) == Long(RotL(x)) && RotR64(Long(x)) == Long(RotR(x))
  {}

  function EnterRounds64(b: Wide): Wide { Wide(RotL64(b.w1), RotL64(b.w0)) }
  function LeaveRounds64(b: Wide): Wide { Wide(RotR64(b.w0), RotR64(b.w1)) }

  /** A table index. */
  function Index64(x: bv64, n: bv6): bv32 { ((x >> n) & 0x3f) as bv32 }

  /** (t >> 4) + (t << 28), which is no rotation of a long. */
  function Turned64(t: bv64): bv64 { (t >> 4) + (t << 28) }

  lemma WideIndices(x: bv32)
    ensures Index64(Long(x), 0) == Index(x, 0) && Index64(Long(x), 8) == Index(x, 8)
    ensures Index64(Long(x), 16) == Index(x, 16) && Index64(Long(x), 24) == Index(x, 24)
  {}

  lemma TurnedIndices(x: bv32)
    ensures Index64(Turned64(Long(x)), 0) == Index(Turned(x), 0) && Index64(Turned64(Long(x)), 8) == Index(Turned(x), 8)
    ensures Index64(Turned64(Long(x)), 16) == Index(Turned(x), 16)
            && Index64(Turned64(Long(x)), 24) == Index(Turned(x), 24)
  {}

  /** The tables hold words in longs. */
  function Table(sp: Tables, k: nat, i: bv32): bv64 { Long(sp(k, i)) }

  function RoundWord64(sp: Tables, r: bv64, k0: bv32, k1: bv32): bv64 {
    var u := Xor64(r, Long(k0));
    var t := Turned64(Xor64(r, Long(k1)));
    Or64(Or64(Or64(Or64(Or64(Or64(Or64(
      Table(sp, 1, Index64(t, 0)), Table(sp, 3, Index64(t, 8))), Table(sp, 5, Index64(t, 16))),
      Table(sp, 7, Index64(t, 24))),
      Table(sp, 0, Index64(u, 0))), Table(sp, 2, Index64(u, 8))), Table(sp, 4, Index64(u, 16))),
      Table(sp, 6, Index64(u, 24)))
  }

  lemma WideRoundWord(sp: Tables, r: bv32, k0: bv32, k1: bv32)
    ensures RoundWord64(sp, Long(r), k0, k1) == Long(RoundWord(sp, r, k0, k1))
  {
    hide Long, Xor64, Or64, Or, Turned, Turned64, Index, Index64;
    LongXor(r, k0);
    LongXor(r, k1);
    var u := r ^ k0;
    var t := Turned(r ^ k1);
    WideIndices(u);
    TurnedIndices(r ^ k1);
    var o1 := Or(sp(1, Index(t, 0)), sp(3, Index(t, 8)));
    LongOr(sp(1, Index(t, 0)), sp(3, Index(t, 8)));
    var o2 := Or(o1, sp(5, Index(t, 16)));
    LongOr(o1, sp(5, Index(t, 16)));
    var o3 := Or(o2, sp(7, Index(t, 24)));
    LongOr(o2, sp(7, Index(t, 24)));
    var o4 := Or(o3, sp(0, Index(u, 0)));
    LongOr(o3, sp(0, Index(u, 0)));
    var o5 := Or(o4, sp(2, Index(u, 8)));
    LongOr(o4, sp(2, Index(u, 8)));
    var o6 := Or(o5, sp(4, Index(u, 16)));
    LongOr(o5, sp(4, Index(u, 16)));
    LongOr(o6, sp(6, Index(u, 24)));
  }

  /** D_ENCRYPT (L, R, S). */
  function DEncrypt64(sp: Tables, s: Schedule, l: bv64, r: bv64, i: nat): bv64
    requires i + 1 < 32
  {
    Xor64(l, RoundWord64(sp, r, s[i], s[i + 1]))
  }

  lemma WideDEncrypt(sp: Tables, s: Schedule, l: bv32, r: bv32, i: nat)
    requires i + 1 < 32
    ensures DEncrypt64(sp, s, Long(l), Long(r), i) == Long(DEncrypt(sp, s, l, r, i))
  {
    hide Long, Xor64, RoundWord, RoundWord64;
    WideRoundWord(sp, r, s[i], s[i + 1]);
    LongXor(l, RoundWord(sp, r, s[i], s[i + 1]));
  }

  function TwoRounds64(sp: Tables, s: Schedule, b: Wide, i: nat, j: nat): Wide
    requires i + 1 < 32 && j + 1 < 32
  {
    var l := DEncrypt64(sp, s, b.w0, b.w1, i);
    Wide(l, DEncrypt64(sp, s, b.w1, l, j))
  }

  lemma WideTwoRounds(sp: Tables, s: Schedule, b: Block, i: nat, j: nat)
    requires i + 1 < 32 && j + 1 < 32
    ensures TwoRounds64(sp, s, Widen(b), i, j) == Widen(TwoRounds(sp, s, b, i, j))
  {
    hide DEncrypt, DEncrypt64, Long;
    WideDEncrypt(sp, s, b.w0, b.w1, i);
    WideDEncrypt(sp, s, b.w1, DEncrypt(sp, s, b.w0, b.w1, i), j);
  }

  function EncryptRounds64(sp: Tables, s: Schedule, b: Wide, n: nat): Wide
    requires n <= 8
  {
    if n == 0 then b else TwoRounds64(sp, s, EncryptRounds64(sp, s, b, n - 1), 4 * n - 4, 4 * n - 2)
  }

  function DecryptRounds64(sp: Tables, s: Schedule, b: Wide, n: nat): Wide
    requires n <= 8
  {
    if n == 0 then b else TwoRounds64(sp, s, DecryptRounds64(sp, s, b, n - 1), 34 - 4 * n, 32 - 4 * n)
  }

  lemma {:induction false} WideRounds(sp: Tables, s: Schedule, b: Block, n: nat)
    requires n <= 8
    ensures EncryptRounds64(sp, s, Widen(b), n) == Widen(EncryptRounds(sp, s, b, n))
    ensures DecryptRounds64(sp, s, Widen(b), n) == Widen(DecryptRounds(sp, s, b, n))
  {
    hide TwoRounds, TwoRounds64, Widen;
    if n > 0 {
      WideRounds(sp, s, b, n - 1);
      WideTwoRounds(sp, s, EncryptRounds(sp, s, b, n - 1), 4 * n - 4, 4 * n - 2);
      WideTwoRounds(sp, s, DecryptRounds(sp, s, b, n - 1), 34 - 4 * n, 32 - 4 * n);
    }
  }

  /** des_encrypt. */
  function Cipher64(sp: Tables, s: Schedule, b: Wide, encrypt: bool): Wide {
    var entered := EnterRounds64(InitialPermutation64(b));
    var rounds := if encrypt then EncryptRounds64(sp, s, entered, 8) else DecryptRounds64(sp, s, entered, 8);
    FinalPermutation64(LeaveRounds64(rounds))
  }

  /** On longs of 64 bits the whole operation comes to the same as on words, for any tables and schedule. */
  lemma WideCipher(sp: Tables, s: Schedule, b: Block, encrypt: bool)
    ensures Cipher64(sp, s, Widen(b), encrypt) == Widen(Cipher(sp, s, b, encrypt))
  {
    hide InitialPermutation, FinalPermutation, InitialPermutation64, FinalPermutation64;
    hide EncryptRounds, DecryptRounds, EncryptRounds64, DecryptRounds64, RotL, RotR, RotL64, RotR64, Long;
    var start := InitialPermutation(b);
    WidePermutations(b);
    WideRotations(start.w0);
    WideRotations(start.w1);
    var entered := EnterRounds(start);
    WideRounds(sp, s, entered, 8);
    var rounds := Rounds(sp, s, entered, encrypt);
    WideRotations(rounds.w0);
    WideRotations(rounds.w1);
    WidePermutations(LeaveRounds(rounds));
  }
}
