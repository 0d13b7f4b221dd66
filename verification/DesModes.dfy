/** The modes of operation (FIPS 81) over octets, on the block operation as FIPS 46-3 states it. */
module DesModes {
  import opened Des
  import opened DesBits
  import opened DesTextbook
  import opened DesCrypt

  /** One bit of an octet, the highest first. */
  function High(k: nat): bv8 {
    match k
    case 0 => 0x80
    case 1 => 0x40
    case 2 => 0x20
    case 3 => 0x10
    case 4 => 0x08
    case 5 => 0x04
    case 6 => 0x02
    case _ => 0x01
  }

  /** The bits of octets, as they are numbered on the wire. */
  function OctetBits(s: seq<bv8>): (r: seq<bool>)
    ensures |r| == 8 * |s|
  {
    seq(8 * |s|, n requires 0 <= n < 8 * |s| => Is(s[n / 8], High(n % 8)))
  }

  predicate Is(x: bv8, o: bv8) { x & o != 0 }

  /** A word's octets in a bit mask. */
  function Wide0(o: bv8): bv32 { o as bv32 }
  function Wide1(o: bv8): bv32 { (o as bv32) << 8 }
  function Wide2(o: bv8): bv32 { (o as bv32) << 16 }
  function Wide3(o: bv8): bv32 { (o as bv32) << 24 }

  lemma HasLoad0(b0: bv8, b1: bv8, b2: bv8, b3: bv8, o: bv8)
    ensures Has(LoadWord(b0, b1, b2, b3), Wide0(o)) == Is(b0, o)
  {}

  lemma HasLoad1(b0: bv8, b1: bv8, b2: bv8, b3: bv8, o: bv8)
    ensures Has(LoadWord(b0, b1, b2, b3), Wide1(o)) == Is(b1, o)
  {}

  lemma HasLoad2(b0: bv8, b1: bv8, b2: bv8, b3: bv8, o: bv8)
    ensures Has(LoadWord(b0, b1, b2, b3), Wide2(o)) == Is(b2, o)
  {}

  lemma HasLoad3(b0: bv8, b1: bv8, b2: bv8, b3: bv8, o: bv8)
    ensures Has(LoadWord(b0, b1, b2, b3), Wide3(o)) == Is(b3, o)
  {}

  lemma Masks(k: nat)
    requires k < 8
    ensures Mask(7 - k) == Wide0(High(k)) && Mask(15 - k) == Wide1(High(k))
    ensures Mask(23 - k) == Wide2(High(k)) && Mask(31 - k) == Wide3(High(k))
  {}

  lemma BitsOfWord(b0: bv8, b1: bv8, b2: bv8, b3: bv8, k: nat)
    requires k < 8
    ensures var w := LoadWord(b0, b1, b2, b3);
            && Bit(w, 7 - k) == Is(b0, High(k)) && Bit(w, 15 - k) == Is(b1, High(k))
            && Bit(w, 23 - k) == Is(b2, High(k)) && Bit(w, 31 - k) == Is(b3, High(k))
  {
    hide LoadWord, Has, Is, Mask, High, Wide0, Wide1, Wide2, Wide3;
    Masks(k);
    HasLoad0(b0, b1, b2, b3, High(k));
    HasLoad1(b0, b1, b2, b3, High(k));
    HasLoad2(b0, b1, b2, b3, High(k));
    HasLoad3(b0, b1, b2, b3, High(k));
  }

  lemma AtLoad(s: seq<bv8>, j: nat, k: nat)
    requires |s| == 8 && j < 8 && k < 8
    ensures At(LoadBlock(s), 8 * j + 7 - k) == Is(s[j], High(k))
  {
    hide LoadWord, Bit, Is, High;
    if j < 4 {
      BitsOfWord(s[0], s[1], s[2], s[3], k);
    } else {
      BitsOfWord(s[4], s[5], s[6], s[7], k);
    }
  }

  /** c2l takes the octets as they come. */
  lemma BitsOfLoad(s: seq<bv8>)
    requires |s| == 8
    ensures BitsOf(LoadBlock(s)) == OctetBits(s)
  {
    hide LoadBlock, At, Is, High;
    forall n | 0 <= n < 64 ensures BitsOf(LoadBlock(s))[n] == OctetBits(s)[n] {
      AtLoad(s, n / 8, n % 8);
    }
  }

  lemma AtXor(b: Block, c: Block, p: nat)
    ensures At(Block(XorWord(b.w0, c.w0), XorWord(b.w1, c.w1)), p) == (At(b, p) != At(c, p))
  {
    hide Bit, XorWord;
    if p < 32 { BitXor(b.w0, c.w0, p); } else { BitXor(b.w1, c.w1, p - 32); }
  }

  lemma BitsOfXor(b: Block, c: Block)
    ensures BitsOf(b.Xor(c)) == XorBits(BitsOf(b), BitsOf(c))
  {
    hide At, XorWord;
    var x := b.Xor(c);
    assert x == Block(XorWord(b.w0, c.w0), XorWord(b.w1, c.w1));
    forall n | 0 <= n < 64 ensures BitsOf(x)[n] == (BitsOf(b)[n] != BitsOf(c)[n]) {
      AtXor(b, c, Place(n));
    }
  }

  // ---- the modes -----------------------------------------------------------------------------------------

  /** The 64 bits of block `i` of a buffer. */
  function BlockBits(s: seq<bv8>, i: nat): (r: seq<bool>)
    requires 8 * i + 8 <= |s|
    ensures |r| == 64
  {
    OctetBits(s[8 * i..8 * i + 8])
  }

  lemma BitsOfBlocks(s: seq<bv8>, i: nat)
    requires |s| % 8 == 0 && 8 * i + 8 <= |s|
    ensures BitsOf(Blocks(s)[i]) == BlockBits(s, i)
  {
    hide LoadBlock, BitsOf, OctetBits;
    BitsOfLoad(s[8 * i..8 * i + 8]);
  }

  /** What is added to a block: nothing in ECB mode, the block before in CBC mode, the vector to the first one. */
  function Added(m: Mode, iv: seq<bool>, before: seq<bool>, x: seq<bool>, i: nat): (r: seq<bool>)
    requires |iv| == |before| == |x| == 64
    ensures |r| == 64
  {
    if m == Ecb then x else XorBits(x, if i == 0 then iv else before)
  }

  lemma {:induction false} ChainedBlocks(k: DesCrypt.Key, m: Mode, iv: Block, bs: seq<Block>, i: nat)
    requires i < |bs|
    ensures var cs := EncryptAll(k, m, iv, bs);
            cs[i] == EncryptBlock(k, m, if i == 0 then iv else cs[i - 1], bs[i])
    ensures DecryptAll(k, m, iv, bs)[i] == DecryptBlock(k, m, if i == 0 then iv else bs[i - 1], bs[i])
    decreases i
  {
    hide EncryptBlock, DecryptBlock;
    if i > 0 {
      ChainedBlocks(k, m, EncryptBlock(k, m, iv, bs[0]), bs[1..], i - 1);
      ChainedBlocks(k, m, bs[0], bs[1..], i - 1);
    }
  }

  lemma EncryptBlockIs(k: DesCrypt.Key, m: Mode, iv: Block, b: Block)
    ensures BitsOf(EncryptBlock(k, m, iv, b)) ==
            Textbook(k.sp, k.schedule, if m == Ecb then BitsOf(b) else XorBits(BitsOf(b), BitsOf(iv)), true)
  {
    hide Cipher, BitsOf, Textbook, XorBits;
    BitsOfXor(b, iv);
    CipherIsTextbook(k.sp, k.schedule, if m == Cbc then b.Xor(iv) else b, true);
  }

  lemma DecryptBlockIs(k: DesCrypt.Key, m: Mode, iv: Block, c: Block)
    ensures var x := Textbook(k.sp, k.schedule, BitsOf(c), false);
            BitsOf(DecryptBlock(k, m, iv, c)) == if m == Ecb then x else XorBits(x, BitsOf(iv))
  {
    hide Cipher, BitsOf, Textbook, XorBits;
    BitsOfXor(Cipher(k.sp, k.schedule, c, false), iv);
    CipherIsTextbook(k.sp, k.schedule, c, false);
  }

  lemma BlockEncrypted(k: DesCrypt.Key, m: Mode, iv: Block, bs: seq<Block>, i: nat)
    requires i < |bs|
    ensures var cs := EncryptAll(k, m, iv, bs);
            BitsOf(cs[i]) ==
            Textbook(k.sp, k.schedule,
                     if m == Ecb then BitsOf(bs[i])
                     else XorBits(BitsOf(bs[i]), if i == 0 then BitsOf(iv) else BitsOf(cs[i - 1])), true)
  {
    hide BitsOf, Textbook, XorBits, EncryptBlock, EncryptAll;
    ChainedBlocks(k, m, iv, bs, i);
    EncryptBlockIs(k, m, if i == 0 then iv else EncryptAll(k, m, iv, bs)[i - 1], bs[i]);
  }

  lemma BlockDecrypted(k: DesCrypt.Key, m: Mode, iv: Block, bs: seq<Block>, i: nat)
    requires i < |bs|
    ensures var x := Textbook(k.sp, k.schedule, BitsOf(bs[i]), false);
            BitsOf(DecryptAll(k, m, iv, bs)[i]) ==
            if m == Ecb then x else XorBits(x, if i == 0 then BitsOf(iv) else BitsOf(bs[i - 1]))
  {
    hide BitsOf, Textbook, XorBits, DecryptBlock, DecryptAll;
    ChainedBlocks(k, m, iv, bs, i);
    DecryptBlockIs(k, m, if i == 0 then iv else bs[i - 1], bs[i]);
  }

  /**
   * What the code makes of a buffer, octet by octet: each block encrypted after what is added, or decrypted before it.
   */
  lemma EncryptedIs(k: DesCrypt.Key, m: Mode, iv: seq<bv8>, was: seq<bv8>, now: seq<bv8>, i: nat)
    requires |iv| == 8 && |was| == |now| && |was| % 8 == 0 && 8 * i + 8 <= |was|
    requires Blocks(now) == Crypted(k, m, Encrypt, LoadBlock(iv), Blocks(was))
    ensures BlockBits(now, i) ==
            Textbook(k.sp, k.schedule,
                     Added(m, OctetBits(iv), BlockBits(now, if i == 0 then 0 else i - 1), BlockBits(was, i), i), true)
  {
    hide Blocks, BitsOf, OctetBits, BlockBits, Textbook, XorBits, LoadBlock, EncryptAll, DecryptAll;
    BlockEncrypted(k, m, LoadBlock(iv), Blocks(was), i);
    BitsOfBlocks(was, i);
    BitsOfBlocks(now, i);
    if i == 0 { BitsOfLoad(iv); } else { BitsOfBlocks(now, i - 1); }
  }

  lemma DecryptedIs(k: DesCrypt.Key, m: Mode, iv: seq<bv8>, was: seq<bv8>, now: seq<bv8>, i: nat)
    requires |iv| == 8 && |was| == |now| && |was| % 8 == 0 && 8 * i + 8 <= |was|
    requires Blocks(now) == Crypted(k, m, Decrypt, LoadBlock(iv), Blocks(was))
    ensures BlockBits(now, i) ==
            Added(m, OctetBits(iv), BlockBits(was, if i == 0 then 0 else i - 1),
                  Textbook(k.sp, k.schedule, BlockBits(was, i), false), i)
  {
    hide Blocks, BitsOf, OctetBits, BlockBits, Textbook, XorBits, LoadBlock, EncryptAll, DecryptAll;
    BlockDecrypted(k, m, LoadBlock(iv), Blocks(was), i);
    BitsOfBlocks(was, i);
    BitsOfBlocks(now, i);
    if i == 0 { BitsOfLoad(iv); } else { BitsOfBlocks(was, i - 1); }
  }
}
