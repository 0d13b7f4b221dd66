/**
 * The DES block operation, for any S-box tables and any key schedule, on words of 32 bits. DesWide
 * shows that longs of 64 bits come to the same.
 */
module Des {
  /** des_SPtrans: nibble number and six-bit index to a word. */
  type Tables = (nat, bv32) -> bv32

  type Schedule = s: seq<bv32> | |s| == 32 witness seq(32, _ => 0)

  /** The two words of a block, or the two halves the rounds work on. */
  datatype Block = Block(w0: bv32, w1: bv32) {
    function Swap(): Block { Block(w1, w0) }
    function Xor(o: Block): Block { Block(XorWord(w0, o.w0), XorWord(w1, o.w1)) }
  }

  function XorWord(x: bv32, y: bv32): bv32 { x ^ y }

  // ---- bit permutations ------------------------------------------------------------------------

  function Selected(a: bv32, b: bv32, n: bv6, m: bv32): bv32
    requires n <= 32
  {
    ((a >> n) ^ b) & m
  }

  function Raised(t: bv32, n: bv6): bv32
    requires n <= 32
  {
    t << n
  }

  function Flip(a: bv32, b: bv32, t: bv32, n: bv6): Block
    requires n <= 32
  {
    Block(a ^ Raised(t, n), b ^ t)
  }

  /** PERM_OP: exchanges the bits of `a` selected by `m << n` with the bits of `b` selected by `m`. */
  function PermOp(a: bv32, b: bv32, n: bv6, m: bv32): Block
    requires n <= 32
  {
    Flip(a, b, Selected(a, b, n, m), n)
  }

  lemma XorTwice(x: bv32, y: bv32)
    ensures x ^ y ^ y == x
  {}

  lemma FlipTwice(a: bv32, b: bv32, t: bv32, n: bv6)
    requires n <= 32
    ensures var p := Flip(a, b, t, n); Flip(p.w0, p.w1, t, n) == Block(a, b)
  {
    XorTwice(a, Raised(t, n));
    XorTwice(b, t);
  }

  /** The PERM_OPs of IP and FP: exchanging the selected bits selects the same bits again. */
  lemma SelectedAgain4(a: bv32, b: bv32)
    ensures var t := Selected(a, b, 4, 0x0f0f0f0f); var p := Flip(a, b, t, 4); Selected(p.w0, p.w1, 4, 0x0f0f0f0f) == t
  {}

  lemma SelectedAgain16(a: bv32, b: bv32)
    ensures var t := Selected(a, b, 16, 0x0000ffff); var p := Flip(a, b, t, 16);
            Selected(p.w0, p.w1, 16, 0x0000ffff) == t
  {}

  lemma SelectedAgain2(a: bv32, b: bv32)
    ensures var t := Selected(a, b, 2, 0x33333333); var p := Flip(a, b, t, 2); Selected(p.w0, p.w1, 2, 0x33333333) == t
  {}

  lemma SelectedAgain8(a: bv32, b: bv32)
    ensures var t := Selected(a, b, 8, 0x00ff00ff); var p := Flip(a, b, t, 8); Selected(p.w0, p.w1, 8, 0x00ff00ff) == t
  {}

  lemma SelectedAgain1(a: bv32, b: bv32)
    ensures var t := Selected(a, b, 1, 0x55555555); var p := Flip(a, b, t, 1); Selected(p.w0, p.w1, 1, 0x55555555) == t
  {}

  /** PERM_OP (l, r, t, n, m) on l = b.w0 and r = b.w1. */
  function PermLR(b: Block, n: bv6, m: bv32): Block
    requires n <= 32
  {
    PermOp(b.w0, b.w1, n, m)
  }

  /** PERM_OP (r, l, t, n, m). */
  function PermRL(b: Block, n: bv6, m: bv32): Block
    requires n <= 32
  {
    PermOp(b.w1, b.w0, n, m).Swap()
  }

  lemma PermTwice(b: Block)
    ensures PermRL(PermRL(b, 4, 0x0f0f0f0f), 4, 0x0f0f0f0f) == b
    ensures PermLR(PermLR(b, 16, 0x0000ffff), 16, 0x0000ffff) == b
    ensures PermRL(PermRL(b, 2, 0x33333333), 2, 0x33333333) == b
    ensures PermLR(PermLR(b, 8, 0x00ff00ff), 8, 0x00ff00ff) == b
    ensures PermRL(PermRL(b, 1, 0x55555555), 1, 0x55555555) == b
  {
    hide Flip, Selected;
    SelectedAgain4(b.w1, b.w0);
    SelectedAgain16(b.w0, b.w1);
    SelectedAgain2(b.w1, b.w0);
    SelectedAgain8(b.w0, b.w1);
    SelectedAgain1(b.w1, b.w0);
    FlipTwice(b.w1, b.w0, Selected(b.w1, b.w0, 4, 0x0f0f0f0f), 4);
    FlipTwice(b.w0, b.w1, Selected(b.w0, b.w1, 16, 0x0000ffff), 16);
    FlipTwice(b.w1, b.w0, Selected(b.w1, b.w0, 2, 0x33333333), 2);
    FlipTwice(b.w0, b.w1, Selected(b.w0, b.w1, 8, 0x00ff00ff), 8);
    FlipTwice(b.w1, b.w0, Selected(b.w1, b.w0, 1, 0x55555555), 1);
  }

  function InitialPermutation(b: Block): Block {
    var half := PermRL(PermLR(PermRL(b, 4, 0x0f0f0f0f), 16, 0x0000ffff), 2, 0x33333333);
    PermRL(PermLR(half, 8, 0x00ff00ff), 1, 0x55555555)
  }

  function FinalPermutation(b: Block): Block {
    var half := PermRL(PermLR(PermRL(b, 1, 0x55555555), 8, 0x00ff00ff), 2, 0x33333333);
    PermRL(PermLR(half, 16, 0x0000ffff), 4, 0x0f0f0f0f)
  }

  /** IP and FP are inverse to each other. */
  lemma PermutationsInverse(b: Block)
    ensures FinalPermutation(InitialPermutation(b)) == b
    ensures InitialPermutation(FinalPermutation(b)) == b
  {
    hide PermRL, PermLR;
    var i1 := PermRL(b, 4, 0x0f0f0f0f);
    var i2 := PermLR(i1, 16, 0x0000ffff);
    var i3 := PermRL(i2, 2, 0x33333333);
    var i4 := PermLR(i3, 8, 0x00ff00ff);
    PermTwice(i4);
    PermTwice(i3);
    PermTwice(i2);
    PermTwice(i1);
    PermTwice(b);
    var f1 := PermRL(b, 1, 0x55555555);
    var f2 := PermLR(f1, 8, 0x00ff00ff);
    var f3 := PermRL(f2, 2, 0x33333333);
    var f4 := PermLR(f3, 16, 0x0000ffff);
    PermTwice(f4);
    PermTwice(f3);
    PermTwice(f2);
    PermTwice(f1);
  }

  function RotL(x: bv32): bv32 { (x << 1) | (x >> 31) }
  function RotR(x: bv32): bv32 { (x >> 1) | (x << 31) }

  /** The halves rotated left and exchanged, as they enter the rounds. */
  function EnterRounds(b: Block): Block { Block(RotL(b.w1), RotL(b.w0)) }
  function LeaveRounds(b: Block): Block { Block(RotR(b.w0), RotR(b.w1)) }

  lemma RotationsInverse(x: bv32)
    ensures RotR(RotL(x)) == x && RotL(RotR(x)) == x
  {}

  lemma LeaveUndoesEnter(b: Block)
    ensures LeaveRounds(EnterRounds(b)) == b.Swap()
    ensures EnterRounds(LeaveRounds(b)) == b.Swap()
  {
    hide RotL, RotR;
    RotationsInverse(b.w0);
    RotationsInverse(b.w1);
  }

  // ---- rounds ------------------------------------------------------------------------------------

  /** Six bits of a word, which index a table. */
  function Index(x: bv32, n: bv6): bv32
    requires n <= 32
  {
    (x >> n) & 0x3f
  }

  function Turned(t: bv32): bv32 { (t >> 4) + (t << 28) }

  function Or(x: bv32, y: bv32): bv32 { x | y }

  /** What D_ENCRYPT adds to its first half, from the other half and two words of the schedule. */
  function RoundWord(sp: Tables, r: bv32, k0: bv32, k1: bv32): bv32 {
    var u := r ^ k0;
    var t := Turned(r ^ k1);
    Or(Or(Or(Or(Or(Or(Or(
      sp(1, Index(t, 0)), sp(3, Index(t, 8))), sp(5, Index(t, 16))), sp(7, Index(t, 24))),
      sp(0, Index(u, 0))), sp(2, Index(u, 8))), sp(4, Index(u, 16))), sp(6, Index(u, 24)))
  }

  /** D_ENCRYPT (L, R, S). */
  function DEncrypt(sp: Tables, s: Schedule, l: bv32, r: bv32, i: nat): bv32
    requires i + 1 < 32
  {
    l ^ RoundWord(sp, r, s[i], s[i + 1])
  }

  lemma DEncryptTwice(sp: Tables, s: Schedule, l: bv32, r: bv32, i: nat)
    requires i + 1 < 32
    ensures DEncrypt(sp, s, DEncrypt(sp, s, l, r, i), r, i) == l
  {
    hide RoundWord;
    XorTwice(l, RoundWord(sp, r, s[i], s[i + 1]));
  }

  /** Two rounds: into the left half with the words at `i`, into the right half with those at `j`. */
  function TwoRounds(sp: Tables, s: Schedule, b: Block, i: nat, j: nat): Block
    requires i + 1 < 32 && j + 1 < 32
  {
    var l := DEncrypt(sp, s, b.w0, b.w1, i);
    Block(l, DEncrypt(sp, s, b.w1, l, j))
  }

  /** With the halves exchanged and the words taken backwards, two rounds undo two rounds. */
  lemma TwoRoundsUndo(sp: Tables, s: Schedule, b: Block, i: nat, j: nat)
    requires i + 1 < 32 && j + 1 < 32
    ensures TwoRounds(sp, s, TwoRounds(sp, s, b, i, j).Swap(), j, i) == b.Swap()
  {
    hide DEncrypt;
    var c := TwoRounds(sp, s, b, i, j);
    DEncryptTwice(sp, s, b.w1, c.w0, j);
    DEncryptTwice(sp, s, b.w0, b.w1, i);
  }

  /** The state after `n` passes of the encrypting loop, and of the decrypting one. */
  function EncryptRounds(sp: Tables, s: Schedule, b: Block, n: nat): Block
    requires n <= 8
  {
    if n == 0 then b else TwoRounds(sp, s, EncryptRounds(sp, s, b, n - 1), 4 * n - 4, 4 * n - 2)
  }

  function DecryptRounds(sp: Tables, s: Schedule, b: Block, n: nat): Block
    requires n <= 8
  {
    if n == 0 then b else TwoRounds(sp, s, DecryptRounds(sp, s, b, n - 1), 34 - 4 * n, 32 - 4 * n)
  }

  /** After `n` decrypting passes the last `n` encrypting ones are undone. */
  lemma {:induction false} RoundsUndo(sp: Tables, s: Schedule, b: Block, n: nat)
    requires n <= 8
    ensures DecryptRounds(sp, s, EncryptRounds(sp, s, b, 8).Swap(), n) == EncryptRounds(sp, s, b, 8 - n).Swap()
    ensures EncryptRounds(sp, s, DecryptRounds(sp, s, b, 8).Swap(), n) == DecryptRounds(sp, s, b, 8 - n).Swap()
  {
    hide TwoRounds;
    if n > 0 {
      RoundsUndo(sp, s, b, n - 1);
      TwoRoundsUndo(sp, s, EncryptRounds(sp, s, b, 8 - n), 4 * (9 - n) - 4, 4 * (9 - n) - 2);
      TwoRoundsUndo(sp, s, DecryptRounds(sp, s, b, 8 - n), 34 - 4 * (9 - n), 32 - 4 * (9 - n));
    }
  }

  function Rounds(sp: Tables, s: Schedule, b: Block, encrypt: bool): Block {
    if encrypt then EncryptRounds(sp, s, b, 8) else DecryptRounds(sp, s, b, 8)
  }

  /** What des_encrypt does to a block. */
  function Cipher(sp: Tables, s: Schedule, b: Block, encrypt: bool): Block {
    FinalPermutation(LeaveRounds(Rounds(sp, s, EnterRounds(InitialPermutation(b)), encrypt)))
  }

  /** Decryption and encryption of a block are inverse to each other, whatever tables and schedule. */
  lemma CipherInverse(sp: Tables, s: Schedule, b: Block, encrypt: bool)
    ensures Cipher(sp, s, Cipher(sp, s, b, encrypt), !encrypt) == b
  {
    hide InitialPermutation, FinalPermutation, EnterRounds, LeaveRounds, EncryptRounds, DecryptRounds;
    var start := InitialPermutation(b);
    var entered := EnterRounds(start);
    var rounds := Rounds(sp, s, entered, encrypt);
    PermutationsInverse(LeaveRounds(rounds));
    LeaveUndoesEnter(rounds);
    RoundsUndo(sp, s, entered, 8);
    assert Rounds(sp, s, rounds.Swap(), !encrypt) == entered.Swap() by {
      NoRounds(sp, s, entered);
    }
    LeaveUndoesEnter(start);
    assert LeaveRounds(entered.Swap()) == LeaveRounds(entered).Swap() by { LeaveOfSwap(entered); }
    PermutationsInverse(b);
  }

  lemma NoRounds(sp: Tables, s: Schedule, b: Block)
    ensures EncryptRounds(sp, s, b, 0) == b && DecryptRounds(sp, s, b, 0) == b
  {}

  lemma LeaveOfSwap(b: Block)
    ensures LeaveRounds(b.Swap()) == LeaveRounds(b).Swap()
  {}

  /** des_encrypt, in place on the two words of `buf`. */
  method DesEncrypt(sp: Tables, buf: array<bv32>, s: Schedule, encrypt: bool)
    requires buf.Length == 2
    modifies buf
    ensures Block(buf[0], buf[1]) == Cipher(sp, s, old(Block(buf[0], buf[1])), encrypt)
  {
    hide InitialPermutation, FinalPermutation, DEncrypt, RotL, RotR;
    var b := InitialPermutation(Block(buf[0], buf[1]));
    var l, r := b.w0, b.w1;
    var t := RotL(r);
    r := RotL(l);
    l := t;
    ghost var entered := Block(l, r);
    if encrypt {
      var i := 0;
      while i < 32
        invariant 0 <= i <= 32 && i % 4 == 0
        invariant Block(l, r) == EncryptRounds(sp, s, entered, i / 4)
      {
        l := DEncrypt(sp, s, l, r, i);
        r := DEncrypt(sp, s, r, l, i + 2);
        i := i + 4;
      }
    } else {
      var i := 30;
      while i > 0
        invariant -2 <= i <= 30 && (30 - i) % 4 == 0
        invariant Block(l, r) == DecryptRounds(sp, s, entered, (30 - i) / 4)
      {
        l := DEncrypt(sp, s, l, r, i);
        r := DEncrypt(sp, s, r, l, i - 2);
        i := i - 4;
      }
    }
    l := RotR(l);
    r := RotR(r);
    b := FinalPermutation(Block(l, r));
    buf[0], buf[1] := b.w0, b.w1;
  }
}
