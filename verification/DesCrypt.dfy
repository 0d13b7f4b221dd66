/** ECB and CBC chaining of the block operation over a buffer, in place. */
module DesCrypt {
  import opened Des

  const DES_MAXDATA := 8192

  datatype Mode = Ecb | Cbc
  datatype Direction = Encrypt | Decrypt
  datatype Status = NoError | NoHwDevice | HwError | BadParam

  // ---- octets and blocks -------------------------------------------------------------------------

  function LoadWord(b0: bv8, b1: bv8, b2: bv8, b3: bv8): bv32 {
    (b0 as bv32) | ((b1 as bv32) << 8) | ((b2 as bv32) << 16) | ((b3 as bv32) << 24)
  }

  function Octet(l: bv32, shift: bv6): bv8
    requires shift <= 32
  {
    ((l >> shift) & 0xff) as bv8
  }

  lemma LoadOfStore(l: bv32)
    ensures LoadWord(Octet(l, 0), Octet(l, 8), Octet(l, 16), Octet(l, 24)) == l
  {}

  lemma StoreOfLoad(b0: bv8, b1: bv8, b2: bv8, b3: bv8)
    ensures var l := LoadWord(b0, b1, b2, b3);
            Octet(l, 0) == b0 && Octet(l, 8) == b1 && Octet(l, 16) == b2 && Octet(l, 24) == b3
  {}

  /** c2l twice. */
  function LoadBlock(s: seq<bv8>): Block
    requires |s| == 8
  {
    Block(LoadWord(s[0], s[1], s[2], s[3]), LoadWord(s[4], s[5], s[6], s[7]))
  }

  /** l2c twice. */
  function StoreBlock(b: Block): (s: seq<bv8>)
    ensures |s| == 8
  {
    [Octet(b.w0, 0), Octet(b.w0, 8), Octet(b.w0, 16), Octet(b.w0, 24),
     Octet(b.w1, 0), Octet(b.w1, 8), Octet(b.w1, 16), Octet(b.w1, 24)]
  }

  lemma LoadStore(b: Block)
    ensures LoadBlock(StoreBlock(b)) == b
  {
    hide LoadWord, Octet;
    LoadOfStore(b.w0);
    LoadOfStore(b.w1);
  }

  lemma StoreLoad(s: seq<bv8>)
    requires |s| == 8
    ensures StoreBlock(LoadBlock(s)) == s
  {
    hide LoadWord, Octet;
    StoreOfLoad(s[0], s[1], s[2], s[3]);
    StoreOfLoad(s[4], s[5], s[6], s[7]);
  }

  function Blocks(s: seq<bv8>): (bs: seq<Block>)
    requires |s| % 8 == 0
    ensures |bs| == |s| / 8
  {
    seq(|s| / 8, i requires 0 <= i < |s| / 8 => LoadBlock(s[8 * i..8 * i + 8]))
  }

  /** A buffer is determined by its blocks. */
  lemma BlocksInjective(s: seq<bv8>, t: seq<bv8>)
    requires |s| % 8 == 0 && |t| == |s| && Blocks(s) == Blocks(t)
    ensures s == t
  {
    hide LoadBlock, StoreBlock;
    forall k | 0 <= k < |s| ensures s[k] == t[k] {
      var i := k / 8;
      assert Blocks(s)[i] == Blocks(t)[i];
      StoreLoad(s[8 * i..8 * i + 8]);
      StoreLoad(t[8 * i..8 * i + 8]);
      assert s[k] == s[8 * i..8 * i + 8][k % 8];
      assert t[k] == t[8 * i..8 * i + 8][k % 8];
    }
  }

  // ---- chaining ------------------------------------------------------------------------------------

  /** A key's effect: the tables and the schedule des_set_key makes of it. */
  datatype Key = Key(sp: Tables, schedule: Schedule)

  /** One block on the way in, chained with the previous ciphertext block in CBC mode. */
  function EncryptBlock(k: Key, m: Mode, iv: Block, b: Block): Block {
    Cipher(k.sp, k.schedule, if m == Cbc then b.Xor(iv) else b, true)
  }

  function DecryptBlock(k: Key, m: Mode, iv: Block, c: Block): Block {
    var b := Cipher(k.sp, k.schedule, c, false);
    if m == Cbc then b.Xor(iv) else b
  }

  function EncryptAll(k: Key, m: Mode, iv: Block, bs: seq<Block>): (cs: seq<Block>)
    ensures |cs| == |bs|
    decreases |bs|
  {
    if bs == [] then [] else
      var c := EncryptBlock(k, m, iv, bs[0]);
      [c] + EncryptAll(k, m, c, bs[1..])
  }

  function DecryptAll(k: Key, m: Mode, iv: Block, cs: seq<Block>): (bs: seq<Block>)
    ensures |bs| == |cs|
    decreases |cs|
  {
    if cs == [] then [] else [DecryptBlock(k, m, iv, cs[0])] + DecryptAll(k, m, cs[0], cs[1..])
  }

  /** The last ciphertext block, or `none` when there is not one. */
  function LastOr(cs: seq<Block>, none: Block): Block {
    if cs == [] then none else cs[|cs| - 1]
  }

  const ZERO := Block(0, 0)

  lemma XorBlockTwice(b: Block, iv: Block)
    ensures b.Xor(iv).Xor(iv) == b
  {
    XorTwice(b.w0, iv.w0);
    XorTwice(b.w1, iv.w1);
  }

  /** Decryption undoes encryption of a buffer under the same initial vector, in both modes. */
  lemma {:induction false} DecryptEncrypted(k: Key, m: Mode, iv: Block, bs: seq<Block>)
    ensures DecryptAll(k, m, iv, EncryptAll(k, m, iv, bs)) == bs
    decreases |bs|
  {
    hide Cipher;
    if bs != [] {
      var c := EncryptBlock(k, m, iv, bs[0]);
      DecryptEncrypted(k, m, c, bs[1..]);
      CipherInverse(k.sp, k.schedule, if m == Cbc then bs[0].Xor(iv) else bs[0], true);
      XorBlockTwice(bs[0], iv);
      assert EncryptAll(k, m, iv, bs)[1..] == EncryptAll(k, m, c, bs[1..]);
    }
  }

  /** And encryption undoes decryption. */
  lemma {:induction false} EncryptDecrypted(k: Key, m: Mode, iv: Block, cs: seq<Block>)
    ensures EncryptAll(k, m, iv, DecryptAll(k, m, iv, cs)) == cs
    decreases |cs|
  {
    hide Cipher;
    if cs != [] {
      var b := DecryptBlock(k, m, iv, cs[0]);
      var raw := Cipher(k.sp, k.schedule, cs[0], false);
      CipherInverse(k.sp, k.schedule, cs[0], false);
      XorBlockTwice(raw, iv);
      assert EncryptBlock(k, m, iv, b) == cs[0];
      EncryptDecrypted(k, m, cs[0], cs[1..]);
      assert DecryptAll(k, m, iv, cs)[1..] == DecryptAll(k, m, cs[0], cs[1..]);
    }
  }

  /** Encrypting two parts one after the other, the second from where the first left the vector. */
  lemma {:induction false} EncryptSplit(k: Key, m: Mode, iv: Block, a: seq<Block>, b: seq<Block>)
    ensures var ca := EncryptAll(k, m, iv, a);
            var cb := EncryptAll(k, m, LastOr(ca, iv), b);
            && EncryptAll(k, m, iv, a + b) == ca + cb
            && LastOr(ca + cb, iv) == LastOr(cb, LastOr(ca, iv))
    decreases |a|
  {
    hide EncryptBlock, LastOr;
    LastOrConcat(EncryptAll(k, m, iv, a), EncryptAll(k, m, LastOr(EncryptAll(k, m, iv, a), iv), b), iv);
    if a == [] {
      assert a + b == b;
      LastOrConcat([], [], iv);
    } else {
      var c := EncryptBlock(k, m, iv, a[0]);
      var rest := EncryptAll(k, m, c, a[1..]);
      EncryptSplit(k, m, c, a[1..], b);
      LastOrConcat([c], rest, iv);
      assert (a + b)[1..] == a[1..] + b;
      assert [c] + (rest + EncryptAll(k, m, LastOr(rest, c), b)) == [c] + rest + EncryptAll(k, m, LastOr(rest, c), b);
    }
  }

  lemma LastOrConcat(a: seq<Block>, b: seq<Block>, none: Block)
    ensures LastOr(a + b, none) == LastOr(b, LastOr(a, none))
    ensures LastOr([], none) == none
    ensures |a| == 1 ==> LastOr(a, none) == a[0]
  {
    if b == [] {
      assert a + b == a;
    }
  }

  /**
   * Decrypting in two parts. An empty first part leaves a vector of zeroes behind, so the two parts
   * yield the whole exactly when CBC does not have to chain across an empty part.
   */
  lemma DecryptSplit(k: Key, m: Mode, iv: Block, a: seq<Block>, b: seq<Block>)
    ensures var pa := DecryptAll(k, m, iv, a);
            var pb := DecryptAll(k, m, LastOr(a, ZERO), b);
            DecryptAll(k, m, iv, a + b) == pa + pb <==> a != [] || b == [] || m == Ecb || iv == ZERO
    ensures b != [] ==> LastOr(a + b, ZERO) == LastOr(b, ZERO)
  {
    hide Cipher;
    if a == [] {
      assert a + b == b;
      assert DecryptAll(k, m, iv, a) + DecryptAll(k, m, ZERO, b) == DecryptAll(k, m, ZERO, b);
      if b != [] {
        FirstBlockShowsVector(k, m, iv, b);
      }
    } else {
      DecryptSplitAfter(k, m, iv, a, b);
    }
  }

  lemma {:induction false} DecryptSplitAfter(k: Key, m: Mode, iv: Block, a: seq<Block>, b: seq<Block>)
    requires a != []
    ensures DecryptAll(k, m, iv, a + b) == DecryptAll(k, m, iv, a) + DecryptAll(k, m, a[|a| - 1], b)
    decreases |a|
  {
    hide DecryptBlock;
    assert (a + b)[1..] == a[1..] + b;
    if |a| > 1 {
      DecryptSplitAfter(k, m, a[0], a[1..], b);
    } else {
      assert (a + b)[1..] == b;
    }
  }

  lemma FirstBlockShowsVector(k: Key, m: Mode, iv: Block, b: seq<Block>)
    requires b != []
    ensures DecryptAll(k, m, iv, b) == DecryptAll(k, m, ZERO, b) <==> m == Ecb || iv == ZERO
  {
    hide Cipher;
    var raw := Cipher(k.sp, k.schedule, b[0], false);
    var rest := DecryptAll(k, m, b[0], b[1..]);
    XorShows(raw, iv);
    assert DecryptAll(k, m, iv, b)[0] == DecryptBlock(k, m, iv, b[0]);
    assert DecryptAll(k, m, ZERO, b)[0] == DecryptBlock(k, m, ZERO, b[0]);
  }

  lemma XorShows(b: Block, iv: Block)
    ensures b.Xor(iv) == b.Xor(ZERO) <==> iv == ZERO
  {
    XorWordShows(b.w0, iv.w0);
    XorWordShows(b.w1, iv.w1);
  }

  lemma XorWordShows(x: bv32, y: bv32)
    ensures x ^ y == x ^ 0 <==> y == 0
  {}

  lemma BlocksSnoc(s: seq<bv8>, t: seq<bv8>)
    requires |s| % 8 == 0 && |t| == 8
    ensures Blocks(s + t) == Blocks(s) + [LoadBlock(t)]
  {
    hide LoadBlock;
    var n := |s| / 8;
    assert (s + t)[8 * n..8 * n + 8] == t;
    forall i | 0 <= i < n ensures Blocks(s + t)[i] == Blocks(s)[i] {
      assert (s + t)[8 * i..8 * i + 8] == s[8 * i..8 * i + 8];
    }
  }

  // ---- in place --------------------------------------------------------------------------------------

  /** The two l2c at `at`. */
  method PutBlock(buf: array<bv8>, at: nat, b: Block)
    requires at + 8 <= buf.Length
    modifies buf
    ensures buf[..at] == old(buf[..at]) && buf[at + 8..] == old(buf[at + 8..])
    ensures buf[at..at + 8] == StoreBlock(b)
    ensures LoadBlock(buf[at..at + 8]) == b
  {
    hide Octet, LoadBlock;
    var s := StoreBlock(b);
    LoadStore(b);
    forall i | 0 <= i < 8 {
      buf[at + i] := s[i];
    }
    assert buf[at..at + 8] == s;
  }

  /** One call of des_encrypt on the words of a block. */
  method RunCipher(k: Key, b: Block, encrypt: bool) returns (c: Block)
    ensures c == Cipher(k.sp, k.schedule, b, encrypt)
  {
    hide Cipher;
    var tbuf := new bv32[2];
    tbuf[0], tbuf[1] := b.w0, b.w1;
    DesEncrypt(k.sp, tbuf, k.schedule, encrypt);
    c := Block(tbuf[0], tbuf[1]);
  }

  /** What _des_crypt makes of the blocks of the buffer. */
  function Crypted(k: Key, m: Mode, d: Direction, iv: Block, bs: seq<Block>): (out: seq<Block>)
    ensures |out| == |bs|
  {
    if d == Encrypt then EncryptAll(k, m, iv, bs) else DecryptAll(k, m, iv, bs)
  }

  /** And of the initial vector. */
  function NextVector(k: Key, m: Mode, d: Direction, iv: Block, bs: seq<Block>): Block {
    if d == Encrypt then LastOr(EncryptAll(k, m, iv, bs), iv) else LastOr(bs, ZERO)
  }

  /** The state of both loops at octet `pos`: what stands before it is done, the rest is as it was. */
  ghost predicate Halfway(now: seq<bv8>, was: seq<bv8>, len: nat, pos: nat, all: seq<Block>, rest: seq<Block>)
  {
    && pos <= len <= |now| == |was| && pos % 8 == 0 && len % 8 == 0
    && now[pos..] == was[pos..]
    && all == Blocks(now[..pos]) + rest
  }

  lemma AtStart(was: seq<bv8>, len: nat, all: seq<Block>)
    requires len <= |was| && len % 8 == 0
    ensures Halfway(was, was, len, 0, all, all)
    ensures Blocks(was[..len])[0..] == Blocks(was[..len]) && Blocks(was[..0]) == []
  {
    NoBlocks();
    assert was[..0] == [];
  }

  lemma AtEnd(now: seq<bv8>, was: seq<bv8>, len: nat, all: seq<Block>, rest: seq<Block>)
    requires Halfway(now, was, len, len, all, rest)
    ensures now[len..] == was[len..] && all == Blocks(now[..len]) + rest
    ensures Blocks(was[..len])[len / 8..] == [] && Blocks(was[..len])[..len / 8] == Blocks(was[..len])
  {}

  lemma SliceOfRest<T>(s: seq<T>, t: seq<T>, at: nat, n: nat)
    requires at + n <= |s| && at + n <= |t| && s[at..] == t[at..]
    ensures s[at..at + n] == t[at..at + n]
  {
    assert s[at..at + n] == s[at..][..n];
    assert t[at..at + n] == t[at..][..n];
  }

  lemma SliceOfFront<T>(s: seq<T>, len: nat, a: nat, b: nat)
    requires a <= b <= len <= |s|
    ensures s[..len][a..b] == s[a..b]
  {}

  lemma BlockAt(now: seq<bv8>, was: seq<bv8>, len: nat, pos: nat)
    requires pos < len <= |now| == |was| && pos % 8 == 0 && len % 8 == 0 && now[pos..] == was[pos..]
    ensures pos + 8 <= len
    ensures LoadBlock(now[pos..pos + 8]) == Blocks(was[..len])[pos / 8]
    ensures Blocks(was[..len])[pos / 8..] == [Blocks(was[..len])[pos / 8]] + Blocks(was[..len])[pos / 8 + 1..]
  {
    hide LoadBlock;
    SliceOfRest(now, was, pos, 8);
    SliceOfFront(was, len, pos, pos + 8);
  }

  lemma OneFurther(before: seq<bv8>, now: seq<bv8>, was: seq<bv8>, len: nat, pos: nat, all: seq<Block>, c: Block,
                   rest: seq<Block>)
    requires pos + 8 <= len && Halfway(before, was, len, pos, all, [c] + rest)
    requires |now| == |before| && now[..pos] == before[..pos] && now[pos + 8..] == before[pos + 8..]
    requires LoadBlock(now[pos..pos + 8]) == c
    ensures Halfway(now, was, len, pos + 8, all, rest)
    ensures Blocks(now[..pos + 8]) == Blocks(before[..pos]) + [c]
  {
    hide LoadBlock, Blocks;
    assert now[..pos + 8] == now[..pos] + now[pos..pos + 8];
    BlocksSnoc(now[..pos], now[pos..pos + 8]);
    assert before[pos + 8..] == before[pos..][8..];
    assert was[pos + 8..] == was[pos..][8..];
  }

  /** _des_crypt: runs the chaining over the first `len` octets of `buf` and updates the vector. */
  method DesCryptBuffer(k: Key, buf: array<bv8>, len: nat, iv: array<bv8>, m: Mode, d: Direction)
    requires len % 8 == 0 && len <= buf.Length && iv.Length == 8 && buf != iv
    modifies buf, iv
    ensures buf[len..] == old(buf[len..])
    ensures Blocks(buf[..len]) == Crypted(k, m, d, LoadBlock(old(iv[..])), Blocks(old(buf[..len])))
    ensures LoadBlock(iv[..]) == NextVector(k, m, d, LoadBlock(old(iv[..])), Blocks(old(buf[..len])))
  {
    if d == Encrypt {
      EncryptBuffer(k, buf, len, iv, m);
    } else {
      DecryptBuffer(k, buf, len, iv, m);
    }
  }

  /** One turn of the loop over the buffer. */
  method EncryptTurn(k: Key, buf: array<bv8>, len: nat, m: Mode, pos: nat, tout: Block, ghost was: seq<bv8>,
                     ghost all: seq<Block>)
    returns (c: Block)
    requires len % 8 == 0 && pos < len <= buf.Length == |was|
    requires Halfway(buf[..], was, len, pos, all, EncryptAll(k, m, tout, Blocks(was[..len])[pos / 8..]))
    modifies buf
    ensures Halfway(buf[..], was, len, pos + 8, all, EncryptAll(k, m, c, Blocks(was[..len])[pos / 8 + 1..]))
    ensures Blocks(buf[..][..pos + 8]) == Blocks(old(buf[..])[..pos]) + [c]
  {
    hide LoadBlock, Cipher, Blocks;
    BlockAt(buf[..], was, len, pos);
    ghost var before := buf[..];
    var tin := LoadBlock(buf[pos..pos + 8]);
    if m == Cbc {
      tin := tin.Xor(tout);
    }
    c := RunCipher(k, tin, true);
    PutBlock(buf, pos, c);
    OneFurther(before, buf[..], was, len, pos, all, c, EncryptAll(k, m, c, Blocks(was[..len])[pos / 8 + 1..]));
  }

  method DecryptTurn(k: Key, buf: array<bv8>, len: nat, m: Mode, pos: nat, xor: Block, ghost chain: Block,
                     ghost was: seq<bv8>, ghost all: seq<Block>)
    returns (tin: Block)
    requires len % 8 == 0 && pos < len <= buf.Length == |was| && (m == Cbc ==> xor == chain)
    requires Halfway(buf[..], was, len, pos, all, DecryptAll(k, m, chain, Blocks(was[..len])[pos / 8..]))
    modifies buf
    ensures Halfway(buf[..], was, len, pos + 8, all, DecryptAll(k, m, tin, Blocks(was[..len])[pos / 8 + 1..]))
    ensures tin == Blocks(was[..len])[pos / 8]
  {
    hide LoadBlock, Cipher, Blocks;
    BlockAt(buf[..], was, len, pos);
    ghost var before := buf[..];
    tin := LoadBlock(buf[pos..pos + 8]);
    var tout := RunCipher(k, tin, false);
    if m == Cbc {
      tout := tout.Xor(xor);
    }
    PutBlock(buf, pos, tout);
    OneFurther(before, buf[..], was, len, pos, all, tout, DecryptAll(k, m, tin, Blocks(was[..len])[pos / 8 + 1..]));
  }

  /** The loop that encrypts; `tout` is left as the next vector. */
  method EncryptBlocks(k: Key, buf: array<bv8>, len: nat, m: Mode, start: Block) returns (tout: Block)
    requires len % 8 == 0 && len <= buf.Length
    modifies buf
    ensures buf[len..] == old(buf[len..])
    ensures Blocks(buf[..len]) == EncryptAll(k, m, start, Blocks(old(buf[..len])))
    ensures tout == LastOr(Blocks(buf[..len]), start)
  {
    hide LoadBlock, Cipher, Blocks;
    ghost var was := buf[..];
    ghost var all := EncryptAll(k, m, start, Blocks(was[..len]));
    assert buf[..len] == was[..len];
    tout := start;
    var pos := 0;
    AtStart(was, len, all);
    hide Halfway;
    while pos < len
      invariant 0 <= pos <= len && pos % 8 == 0
      invariant Halfway(buf[..], was, len, pos, all, EncryptAll(k, m, tout, Blocks(was[..len])[pos / 8..]))
      invariant tout == LastOr(Blocks(buf[..][..pos]), start)
    {
      tout := EncryptTurn(k, buf, len, m, pos, tout, was, all);
      pos := pos + 8;
    }
    AtEnd(buf[..], was, len, all, EncryptAll(k, m, tout, Blocks(was[..len])[len / 8..]));
    assert buf[..][..len] == buf[..len];
  }

  method EncryptBuffer(k: Key, buf: array<bv8>, len: nat, iv: array<bv8>, m: Mode)
    requires len % 8 == 0 && len <= buf.Length && iv.Length == 8 && buf != iv
    modifies buf, iv
    ensures buf[len..] == old(buf[len..])
    ensures Blocks(buf[..len]) == EncryptAll(k, m, LoadBlock(old(iv[..])), Blocks(old(buf[..len])))
    ensures LoadBlock(iv[..]) == LastOr(EncryptAll(k, m, LoadBlock(old(iv[..])), Blocks(old(buf[..len]))),
                                        LoadBlock(old(iv[..])))
  {
    hide LoadBlock, Blocks, EncryptAll, LastOr;
    var tout := EncryptBlocks(k, buf, len, m, LoadBlock(iv[..]));
    PutBlock(iv, 0, tout);
    assert iv[..] == iv[0..8];
  }

  /** The loop that decrypts; `tin` is left as the next vector, zeroes if there is no block. */
  method DecryptBlocks(k: Key, buf: array<bv8>, len: nat, m: Mode, start: Block) returns (tin: Block)
    requires len % 8 == 0 && len <= buf.Length
    modifies buf
    ensures buf[len..] == old(buf[len..])
    ensures Blocks(buf[..len]) == DecryptAll(k, m, start, Blocks(old(buf[..len])))
    ensures tin == LastOr(Blocks(old(buf[..len])), ZERO)
  {
    hide LoadBlock, Cipher, Blocks;
    ghost var was := buf[..];
    ghost var all := DecryptAll(k, m, start, Blocks(was[..len]));
    assert buf[..len] == was[..len];
    var xor := start;
    tin := ZERO;
    ghost var chain := xor;
    var pos := 0;
    AtStart(was, len, all);
    hide Halfway;
    while pos < len
      invariant 0 <= pos <= len && pos % 8 == 0
      invariant Halfway(buf[..], was, len, pos, all, DecryptAll(k, m, chain, Blocks(was[..len])[pos / 8..]))
      invariant m == Cbc ==> xor == chain
      invariant tin == LastOr(Blocks(was[..len])[..pos / 8], ZERO)
    {
      tin := DecryptTurn(k, buf, len, m, pos, xor, chain, was, all);
      if m == Cbc { xor := tin; }
      chain := tin;
      pos := pos + 8;
    }
    AtEnd(buf[..], was, len, all, DecryptAll(k, m, chain, Blocks(was[..len])[len / 8..]));
    assert buf[..][..len] == buf[..len];
  }

  method DecryptBuffer(k: Key, buf: array<bv8>, len: nat, iv: array<bv8>, m: Mode)
    requires len % 8 == 0 && len <= buf.Length && iv.Length == 8 && buf != iv
    modifies buf, iv
    ensures buf[len..] == old(buf[len..])
    ensures Blocks(buf[..len]) == DecryptAll(k, m, LoadBlock(old(iv[..])), Blocks(old(buf[..len])))
    ensures LoadBlock(iv[..]) == LastOr(Blocks(old(buf[..len])), ZERO)
  {
    hide LoadBlock, Blocks, DecryptAll, LastOr;
    var tin := DecryptBlocks(k, buf, len, m, LoadBlock(iv[..]));
    PutBlock(iv, 0, tin);
    assert iv[..] == iv[0..8];
  }

  lemma NoBlocks()
    ensures Blocks([]) == []
  {}

  /**
   * common_crypt: refuses what is not whole blocks or too long. The software cipher always succeeds;
   * the status only tells whether hardware was asked for.
   */
  method CommonCrypt(k: Key, buf: array<bv8>, len: nat, hardware: bool, d: Direction, m: Mode, iv: array<bv8>)
    returns (status: Status)
    requires len <= buf.Length && iv.Length == 8 && buf != iv
    modifies buf, iv
    ensures status == BadParam <==> len % 8 != 0 || len > 8192
    ensures status == BadParam ==> buf[..] == old(buf[..]) && iv[..] == old(iv[..])
    ensures status != BadParam ==>
              && status == (if hardware then NoHwDevice else NoError)
              && buf[len..] == old(buf[len..])
              && Blocks(buf[..len]) == Crypted(k, m, d, LoadBlock(old(iv[..])), Blocks(old(buf[..len])))
              && LoadBlock(iv[..]) == NextVector(k, m, d, LoadBlock(old(iv[..])), Blocks(old(buf[..len])))
  {
    hide Blocks, LoadBlock, Crypted, NextVector;
    if len % 8 != 0 || len > DES_MAXDATA {
      return BadParam;
    }
    DesCryptBuffer(k, buf, len, iv, m, d);
    return if hardware then NoHwDevice else NoError;
  }

  /** COPY8. */
  method Copy8(src: array<bv8>, dst: array<bv8>)
    requires src.Length == 8 && dst.Length == 8
    modifies dst
    ensures dst[..] == old(src[..])
  {
    forall i | 0 <= i < 8 {
      dst[i] := src[i];
    }
    assert dst[..] == old(src[..]);
  }

  /** cbc_crypt: works on a copy of the caller's vector and copies it back. */
  method CbcCrypt(k: Key, buf: array<bv8>, len: nat, hardware: bool, d: Direction, ivec: array<bv8>)
    returns (status: Status)
    requires len <= buf.Length && ivec.Length == 8 && buf != ivec
    modifies buf, ivec
    ensures status == BadParam <==> len % 8 != 0 || len > 8192
    ensures status == BadParam ==> buf[..] == old(buf[..]) && ivec[..] == old(ivec[..])
    ensures status != BadParam ==>
              && status == (if hardware then NoHwDevice else NoError)
              && buf[len..] == old(buf[len..])
              && Blocks(buf[..len]) == Crypted(k, Cbc, d, LoadBlock(old(ivec[..])), Blocks(old(buf[..len])))
              && LoadBlock(ivec[..]) == NextVector(k, Cbc, d, LoadBlock(old(ivec[..])), Blocks(old(buf[..len])))
  {
    hide Blocks, LoadBlock, Crypted, NextVector;
    var iv := new bv8[8];
    Copy8(ivec, iv);
    status := CommonCrypt(k, buf, len, hardware, d, Cbc, iv);
    Copy8(iv, ivec);
  }

  /** ecb_crypt: the vector is scratch. */
  method EcbCrypt(k: Key, buf: array<bv8>, len: nat, hardware: bool, d: Direction) returns (status: Status)
    requires len <= buf.Length
    modifies buf
    ensures status == BadParam <==> len % 8 != 0 || len > 8192
    ensures status == BadParam ==> buf[..] == old(buf[..])
    ensures status != BadParam ==>
              && status == (if hardware then NoHwDevice else NoError)
              && buf[len..] == old(buf[len..])
              && Blocks(buf[..len]) == Crypted(k, Ecb, d, ZERO, Blocks(old(buf[..len])))
  {
    hide Blocks, LoadBlock, Crypted, NextVector;
    var iv := new bv8[8];
    ghost var start := LoadBlock(iv[..]);
    ghost var bs := if len % 8 == 0 then Blocks(buf[..len]) else [];
    status := CommonCrypt(k, buf, len, hardware, d, Ecb, iv);
    EcbIgnoresVector(k, d, start, bs);
  }

  lemma EcbIgnoresVector(k: Key, d: Direction, iv: Block, bs: seq<Block>)
    ensures Crypted(k, Ecb, d, iv, bs) == Crypted(k, Ecb, d, ZERO, bs)
  {
    hide Cipher;
  }

  /** The round trip on octets: a buffer encrypted and then decrypted under the same vector is restored. */
  method CbcRoundTrip(k: Key, buf: array<bv8>, len: nat, first: Direction, ivec: array<bv8>)
    requires len <= buf.Length && ivec.Length == 8 && buf != ivec
    modifies buf, ivec
    ensures buf[..] == old(buf[..])
  {
    hide Blocks, LoadBlock, EncryptAll, DecryptAll, NextVector;
    ghost var was := buf[..];
    ghost var iv := LoadBlock(ivec[..]);
    var again := new bv8[8];
    Copy8(ivec, again);
    var status := CbcCrypt(k, buf, len, false, first, ivec);
    status := CbcCrypt(k, buf, len, false, if first == Encrypt then Decrypt else Encrypt, again);
    if len % 8 == 0 && len <= DES_MAXDATA {
      DecryptEncrypted(k, Cbc, iv, Blocks(was[..len]));
      EncryptDecrypted(k, Cbc, iv, Blocks(was[..len]));
      BlocksInjective(buf[..len], was[..len]);
      assert buf[..] == buf[..len] + buf[len..] == was[..len] + was[len..] == was;
    }
  }
}
