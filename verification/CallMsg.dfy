/**
 * RPC call messages (section 9 of RFC 5531): the reference format, and the codec with its inline fast
 * path over an aligned stream and its field-by-field path over any other.
 */
module CallMsg {
  import opened Bytes
  import opened XdrMem

  const MAX_AUTH_BYTES := 400
  const CALL: word := 0
  const RPC_MSG_VERSION: word := 2

  datatype OpaqueAuth = OpaqueAuth(flavor: word, body: seq<byte>)

  datatype Message = Message(xid: word, direction: word, rpcvers: word, prog: word, vers: word, proc: word,
                             cred: OpaqueAuth, verf: OpaqueAuth)

  // ---- the format ------------------------------------------------------------------------------------

  /** A message the codec sends: a call of the right version with credentials of bounded size. */
  predicate Sendable(m: Message) {
    && m.direction == CALL && m.rpcvers == RPC_MSG_VERSION
    && |m.cred.body| <= MAX_AUTH_BYTES && |m.verf.body| <= MAX_AUTH_BYTES
  }

  function PadLength(a: OpaqueAuth): nat {
    RoundUp(|a.body|) - |a.body|
  }

  function AuthSize(a: OpaqueAuth): nat {
    8 + RoundUp(|a.body|)
  }

  function Size(m: Message): nat {
    24 + AuthSize(m.cred) + AuthSize(m.verf)
  }

  function HeaderWire(m: Message): (s: seq<byte>)
    ensures |s| == 24
  {
    Be32(m.xid) + Be32(m.direction) + Be32(m.rpcvers) + Be32(m.prog) + Be32(m.vers) + Be32(m.proc)
  }

  /** An opaque_auth on the wire, with these octets for padding. */
  function AuthWire(a: OpaqueAuth, pad: seq<byte>): seq<byte>
    requires |a.body| <= MAX_AUTH_BYTES
  {
    Be32(a.flavor) + Be32(|a.body|) + a.body + pad
  }

  /** A message on the wire, with these octets for the padding of its two credentials. */
  function Wire(m: Message, pad1: seq<byte>, pad2: seq<byte>): seq<byte>
    requires Sendable(m)
  {
    HeaderWire(m) + AuthWire(m.cred, pad1) + AuthWire(m.verf, pad2)
  }

  /** The octets of a message, field by field: 400 octets of credentials at most, a call (0), version 2. */
  lemma WireLayout(m: Message, pad1: seq<byte>, pad2: seq<byte>)
    requires |pad1| == PadLength(m.cred) && |pad2| == PadLength(m.verf)
    ensures Sendable(m) <==> m.direction == 0 && m.rpcvers == 2 && |m.cred.body| <= 400 && |m.verf.body| <= 400
    ensures Sendable(m) ==>
              var w, v := Wire(m, pad1, pad2), 32 + RoundUp(|m.cred.body|);
              && |w| == v + 8 + RoundUp(|m.verf.body|)
              && (var h := w[..24];
                  && Number(h[0..4]) == m.xid && h[4..8] == [0, 0, 0, 0] && h[8..12] == [0, 0, 0, 2]
                  && Number(h[12..16]) == m.prog && Number(h[16..20]) == m.vers && Number(h[20..24]) == m.proc)
              && (var c := w[24..v];
                  && Number(c[0..4]) == m.cred.flavor && Number(c[4..8]) == |m.cred.body|
                  && c[8..8 + |m.cred.body|] == m.cred.body)
              && (var c := w[v..];
                  && Number(c[0..4]) == m.verf.flavor && Number(c[4..8]) == |m.verf.body|
                  && c[8..8 + |m.verf.body|] == m.verf.body)
  {
    if Sendable(m) {
      HeaderLayout(m);
      AuthLayout(m.cred, pad1);
      AuthLayout(m.verf, pad2);
      hide Number, AuthWire, HeaderWire, RoundUp;
      ThreeParts(HeaderWire(m), AuthWire(m.cred, pad1), AuthWire(m.verf, pad2));
    }
  }

  lemma ThreeParts<T>(a: seq<T>, b: seq<T>, c: seq<T>)
    ensures var w := a + b + c; w[..|a|] == a && w[|a|..|a| + |b|] == b && w[|a| + |b|..] == c
  {}

  lemma HeaderLayout(m: Message)
    requires m.direction == 0 && m.rpcvers == 2
    ensures var h := HeaderWire(m);
            && Number(h[0..4]) == m.xid && h[4..8] == [0, 0, 0, 0] && h[8..12] == [0, 0, 0, 2]
            && Number(h[12..16]) == m.prog && Number(h[16..20]) == m.vers && Number(h[20..24]) == m.proc
  {
    Be32IsNumber(m.xid);
    Be32IsNumber(m.prog);
    Be32IsNumber(m.vers);
    Be32IsNumber(m.proc);
    assert Be32(0) == [0, 0, 0, 0] && Be32(2) == [0, 0, 0, 2];
    hide Be32, Number;
    var h := HeaderWire(m);
    assert h[0..4] == Be32(m.xid) && h[4..8] == Be32(0) && h[8..12] == Be32(2);
    assert h[12..16] == Be32(m.prog) && h[16..20] == Be32(m.vers) && h[20..24] == Be32(m.proc);
  }

  lemma AuthLayout(a: OpaqueAuth, pad: seq<byte>)
    requires |a.body| <= MAX_AUTH_BYTES && |pad| == PadLength(a)
    ensures var w := AuthWire(a, pad);
            && |w| == 8 + RoundUp(|a.body|)
            && Number(w[0..4]) == a.flavor && Number(w[4..8]) == |a.body| && w[8..8 + |a.body|] == a.body
  {
    Be32IsNumber(a.flavor);
    Be32IsNumber(|a.body|);
    hide Be32, Number;
    var w := AuthWire(a, pad);
    assert w[0..4] == Be32(a.flavor) && w[4..8] == Be32(|a.body|);
  }

  datatype Measured<+T> = Measured(value: T, used: nat)

  function Word(s: seq<byte>, i: nat): word
    requires i + 4 <= |s|
  {
    FromBe32(s[i..i + 4])
  }

  /** The reference reading of an opaque_auth at the front of `s`. */
  function ParseAuth(s: seq<byte>): Option<Measured<OpaqueAuth>> {
    if |s| < 8 then None
    else
      var len := Word(s, 4);
      if len > MAX_AUTH_BYTES || |s| < 8 + RoundUp(len) then None
      else Some(Measured(OpaqueAuth(Word(s, 0), s[8..8 + len]), 8 + RoundUp(len)))
  }

  /** The reference reading of a call message at the front of `s`. */
  function ParseCall(s: seq<byte>): Option<Measured<Message>> {
    if |s| < 24 || Word(s, 4) != CALL || Word(s, 8) != RPC_MSG_VERSION then None
    else
      match ParseAuth(s[24..])
      case None => None
      case Some(cred) =>
        match ParseAuth(s[24 + cred.used..])
        case None => None
        case Some(verf) =>
          Some(Measured(Message(Word(s, 0), Word(s, 4), Word(s, 8), Word(s, 12), Word(s, 16), Word(s, 20),
                              cred.value, verf.value),
                      24 + cred.used + verf.used))
  }

  lemma WordAt(front: seq<byte>, w: word, after: seq<byte>)
    ensures Word(front + Be32(w) + after, |front|) == w
  {
    hide Be32, FromBe32;
    var s := front + Be32(w) + after;
    assert s[|front|..|front| + 4] == Be32(w);
    Be32RoundTrip(w);
  }

  lemma ParseOfAuthWire(a: OpaqueAuth, pad: seq<byte>, after: seq<byte>)
    requires |a.body| <= MAX_AUTH_BYTES && |pad| == PadLength(a)
    ensures |AuthWire(a, pad)| == AuthSize(a)
    ensures ParseAuth(AuthWire(a, pad) + after) == Some(Measured(a, AuthSize(a)))
  {
    hide Be32, Word;
    var s := AuthWire(a, pad) + after;
    assert s == [] + Be32(a.flavor) + (Be32(|a.body|) + a.body + pad + after);
    WordAt([], a.flavor, Be32(|a.body|) + a.body + pad + after);
    assert s == Be32(a.flavor) + Be32(|a.body|) + (a.body + pad + after);
    WordAt(Be32(a.flavor), |a.body|, a.body + pad + after);
    assert s[8..8 + |a.body|] == a.body;
  }

  lemma HeaderWords(m: Message, after: seq<byte>)
    ensures var s := HeaderWire(m) + after;
            && Word(s, 0) == m.xid && Word(s, 4) == m.direction && Word(s, 8) == m.rpcvers
            && Word(s, 12) == m.prog && Word(s, 16) == m.vers && Word(s, 20) == m.proc
  {
    hide Be32, Word;
    var s := HeaderWire(m) + after;
    assert s == [] + Be32(m.xid) + s[4..];
    WordAt([], m.xid, s[4..]);
    assert s == s[..4] + Be32(m.direction) + s[8..];
    WordAt(s[..4], m.direction, s[8..]);
    assert s == s[..8] + Be32(m.rpcvers) + s[12..];
    WordAt(s[..8], m.rpcvers, s[12..]);
    assert s == s[..12] + Be32(m.prog) + s[16..];
    WordAt(s[..12], m.prog, s[16..]);
    assert s == s[..16] + Be32(m.vers) + s[20..];
    WordAt(s[..16], m.vers, s[20..]);
    assert s == s[..20] + Be32(m.proc) + s[24..];
    WordAt(s[..20], m.proc, s[24..]);
  }

  /** Whatever stands in the padding, a message on the wire is read back, and what follows it is left. */
  lemma ParseOfWire(m: Message, pad1: seq<byte>, pad2: seq<byte>, after: seq<byte>)
    requires Sendable(m) && |pad1| == PadLength(m.cred) && |pad2| == PadLength(m.verf)
    ensures |Wire(m, pad1, pad2)| == Size(m)
    ensures ParseCall(Wire(m, pad1, pad2) + after) == Some(Measured(m, Size(m)))
  {
    hide Word, ParseAuth, AuthWire, HeaderWire;
    var s := Wire(m, pad1, pad2) + after;
    var rest := AuthWire(m.verf, pad2) + after;
    HeaderWords(m, AuthWire(m.cred, pad1) + rest);
    assert s == HeaderWire(m) + (AuthWire(m.cred, pad1) + rest);
    ParseOfAuthWire(m.cred, pad1, rest);
    assert s[24..] == AuthWire(m.cred, pad1) + rest;
    ParseOfAuthWire(m.verf, pad2, after);
    assert s[24 + AuthSize(m.cred)..] == rest;
  }

  /** Reading never looks past what it uses: the wire form of what was read is what stood there. */
  lemma WireOfParse(s: seq<byte>)
    requires ParseCall(s).Some?
    ensures var p := ParseCall(s).value;
            && Sendable(p.value) && p.used == Size(p.value) <= |s|
            && exists pad1, pad2 :: |pad1| == PadLength(p.value.cred) && |pad2| == PadLength(p.value.verf) &&
                                    s[..p.used] == Wire(p.value, pad1, pad2)
  {
    hide Be32, FromBe32, ParseAuth;
    var p := ParseCall(s).value;
    var m := p.value;
    var pad1 := WireOfParseAuth(s[24..]);
    var pad2 := WireOfParseAuth(s[24 + AuthSize(m.cred)..]);
    WireOfHeader(s, m);
    assert s[..p.used] == s[..24] + s[24..][..AuthSize(m.cred)] +
                          s[24 + AuthSize(m.cred)..][..AuthSize(m.verf)];
    assert s[..p.used] == Wire(m, pad1, pad2);
  }

  lemma WireOfHeader(s: seq<byte>, m: Message)
    requires |s| >= 24
    requires m.xid == Word(s, 0) && m.direction == Word(s, 4) && m.rpcvers == Word(s, 8)
    requires m.prog == Word(s, 12) && m.vers == Word(s, 16) && m.proc == Word(s, 20)
    ensures s[..24] == HeaderWire(m)
  {
    hide Be32, FromBe32;
    FromBe32RoundTrip(s[0..4]);
    FromBe32RoundTrip(s[4..8]);
    FromBe32RoundTrip(s[8..12]);
    FromBe32RoundTrip(s[12..16]);
    FromBe32RoundTrip(s[16..20]);
    FromBe32RoundTrip(s[20..24]);
    assert s[..24] == s[0..4] + s[4..8] + s[8..12] + s[12..16] + s[16..20] + s[20..24];
  }

  lemma WireOfParseAuth(s: seq<byte>) returns (pad: seq<byte>)
    requires ParseAuth(s).Some?
    ensures var p := ParseAuth(s).value;
            && |p.value.body| <= MAX_AUTH_BYTES && p.used == AuthSize(p.value) <= |s|
            && |pad| == PadLength(p.value) && s[..p.used] == AuthWire(p.value, pad)
  {
    hide Be32, FromBe32;
    var p := ParseAuth(s).value;
    var n := |p.value.body|;
    FromBe32RoundTrip(s[0..4]);
    FromBe32RoundTrip(s[4..8]);
    pad := s[8 + n..p.used];
    assert s[..p.used] == s[0..4] + s[4..8] + s[8..8 + n] + pad;
  }

  // ---- decoding ----------------------------------------------------------------------------------------

  /** xdr_opaque_auth while decoding. */
  method DecodeAuth(xs: MemStream) returns (ok: bool, a: OpaqueAuth)
    requires xs.Valid()
    modifies xs`pos, xs`handy
    ensures xs.Valid()
    ensures ok <==> ParseAuth(old(xs.Unread())).Some?
    ensures ok ==> var p := ParseAuth(old(xs.Unread())).value; a == p.value && xs.Moved(p.used)
  {
    hide FromBe32;
    ghost var all := xs.Unread();
    var flavor, body;
    a := OpaqueAuth(0, []);
    ok, flavor := xs.GetLong();
    if !ok {
      return;
    }
    assert all[..4] == all[0..4];
    assert xs.Unread() == all[4..];
    assert |all| >= 8 ==> all[4..][..4] == all[4..8];
    ok, body := xs.DecodeBytes(MAX_AUTH_BYTES);
    assert ok ==> body == all[8..8 + Word(all, 4)];
    a := OpaqueAuth(flavor, body);
  }

  /** The conjunction at the end of xdr_callmsg, while decoding: one routine a field. */
  method DecodeFields(xs: MemStream) returns (ok: bool, m: Message)
    requires xs.Valid()
    modifies xs`pos, xs`handy
    ensures xs.Valid()
    ensures ok <==> ParseCall(old(xs.Unread())).Some?
    ensures ok ==> var p := ParseCall(old(xs.Unread())).value; m == p.value && xs.Moved(p.used)
  {
    hide Word, ParseAuth;
    ghost var all := xs.Unread();
    var cred, verf;
    ok, m := DecodeHeader(xs, all);
    if !ok { return; }
    ok, cred := DecodeAuth(xs);
    if !ok { return; }
    assert xs.Unread() == all[24 + ParseAuth(all[24..]).value.used..];
    ok, verf := DecodeAuth(xs);
    m := m.(cred := cred, verf := verf);
  }

  /** The six header fields, with the two that must have fixed values checked as they come. */
  method DecodeHeader(xs: MemStream, ghost all: seq<byte>) returns (ok: bool, m: Message)
    requires xs.Valid() && xs.Unread() == all
    modifies xs`pos, xs`handy
    ensures xs.Valid()
    ensures ok <==> |all| >= 24 && Word(all, 4) == CALL && Word(all, 8) == RPC_MSG_VERSION
    ensures ok ==> m.xid == Word(all, 0) && m.direction == Word(all, 4) && m.rpcvers == Word(all, 8)
    ensures ok ==> m.prog == Word(all, 12) && m.vers == Word(all, 16) && m.proc == Word(all, 20)
    ensures ok ==> xs.Moved(24) && xs.Unread() == all[24..]
  {
    hide Word;
    var none := OpaqueAuth(0, []);
    m := Message(0, 0, 0, 0, 0, 0, none, none);
    var w;
    assert all[0..] == all;
    ok, w := DecodeWord(xs, all, 0);
    if !ok { return; }
    m := m.(xid := w);
    ok, w := DecodeWord(xs, all, 4);
    if !ok { return; }
    m := m.(direction := w);
    if m.direction != CALL { return false, m; }
    ok, w := DecodeWord(xs, all, 8);
    if !ok { return; }
    m := m.(rpcvers := w);
    if m.rpcvers != RPC_MSG_VERSION { return false, m; }
    ok, w := DecodeWord(xs, all, 12);
    if !ok { return; }
    m := m.(prog := w);
    ok, w := DecodeWord(xs, all, 16);
    if !ok { return; }
    m := m.(vers := w);
    ok, w := DecodeWord(xs, all, 20);
    if !ok { return; }
    m := m.(proc := w);
  }

  /** xdr_u_int32_t or xdr_enum while decoding, `i` octets into what was to be read. */
  method DecodeWord(xs: MemStream, ghost all: seq<byte>, ghost i: nat) returns (ok: bool, w: word)
    requires xs.Valid() && i <= |all| && xs.Unread() == all[i..]
    modifies xs`pos, xs`handy
    ensures xs.Valid()
    ensures ok <==> i + 4 <= |all|
    ensures ok ==> w == Word(all, i) && xs.Moved(4) && xs.Unread() == all[i + 4..]
  {
    hide FromBe32;
    ok, w := xs.GetLong();
    assert ok ==> all[i..][..4] == all[i..i + 4] && xs.Unread() == all[i + 4..];
  }

  /** The octets of a credential on the fast path: inline where the stream allows, else xdr_opaque. */
  method FastBody(xs: MemStream, len: word) returns (ok: bool, body: seq<byte>)
    requires xs.Valid()
    modifies xs`pos, xs`handy
    ensures xs.Valid()
    ensures ok <==> len <= MAX_AUTH_BYTES && RoundUp(len) <= old(xs.handy)
    ensures ok ==> body == old(xs.Unread())[..len] && xs.Moved(RoundUp(len))
    ensures ok ==> xs.Unread() == old(xs.Unread())[RoundUp(len)..]
  {
    if len == 0 {
      return true, [];
    }
    if len > MAX_AUTH_BYTES {
      return false, [];
    }
    ghost var all := xs.Unread();
    var at := xs.Inline(RoundUp(len));
    if at.None? {
      ok, body := xs.DecodeOpaque(len);
    } else {
      body := xs.buf[at.value..at.value + len];
      SliceOfSlice(xs.buf[..], at.value, at.value + |all|, 0, len);
      assert body == xs.buf[..][at.value..at.value + len];
      assert all == xs.buf[..][at.value..at.value + |all|];
      ok := true;
    }
  }

  /** IXDR_GET_INT32 at a pointer into the buffer. */
  function InlineWord(buf: seq<byte>, at: nat): word
    requires at + 4 <= |buf|
  {
    FromBe32(buf[at..at + 4])
  }

  /** A credential's flavor and length on the fast path. */
  method FastLengths(xs: MemStream) returns (ok: bool, flavor: word, len: word)
    requires xs.Valid()
    modifies xs`pos, xs`handy
    ensures xs.Valid()
    ensures ok <==> |old(xs.Unread())| >= 8
    ensures ok ==> flavor == Word(old(xs.Unread()), 0) && len == Word(old(xs.Unread()), 4) && xs.Moved(8)
    ensures ok ==> xs.Unread() == old(xs.Unread())[8..]
  {
    hide FromBe32;
    ghost var all := xs.Unread();
    ok, flavor, len := true, 0, 0;
    var at := xs.Inline(8);
    if at.None? {
      assert all == all[0..];
      ok, flavor := DecodeWord(xs, all, 0);
      if !ok { return; }
      ok, len := DecodeWord(xs, all, 4);
    } else {
      flavor := InlineWord(xs.buf[..], at.value);
      len := InlineWord(xs.buf[..], at.value + 4);
      assert all == xs.buf[..][at.value..at.value + |all|];
      SliceOfSlice(xs.buf[..], at.value, at.value + |all|, 0, 4);
      SliceOfSlice(xs.buf[..], at.value, at.value + |all|, 4, 8);
      assert xs.Unread() == all[8..];
    }
  }

  /** A credential on the fast path. */
  method FastVerifier(xs: MemStream) returns (ok: bool, a: OpaqueAuth)
    requires xs.Valid()
    modifies xs`pos, xs`handy
    ensures xs.Valid()
    ensures ok <==> ParseAuth(old(xs.Unread())).Some?
    ensures ok ==> var p := ParseAuth(old(xs.Unread())).value; a == p.value && xs.Moved(p.used)
  {
    hide Word;
    ghost var all := xs.Unread();
    var flavor, len, body;
    a := OpaqueAuth(0, []);
    ok, flavor, len := FastLengths(xs);
    if !ok { return; }
    ok, body := FastBody(xs, len);
    if ok {
      Onward(all, 8, len);
    }
    a := OpaqueAuth(flavor, body);
  }

  /** The fast path of xdr_callmsg, from eight words found inline at `at`. */
  method FastMessage(xs: MemStream, at: nat, ghost all: seq<byte>) returns (ok: bool, m: Message)
    requires xs.Valid() && at + 32 == xs.pos && |all| >= 32
    requires xs.buf[at..xs.pos] == all[..32] && xs.Unread() == all[32..]
    modifies xs`pos, xs`handy
    ensures xs.Valid()
    ensures ok <==> ParseCall(all).Some?
    ensures ok ==> var p := ParseCall(all).value; m == p.value && xs.pos == at + p.used
    ensures ok ==> xs.handy == |all| - ParseCall(all).value.used
  {
    hide FromBe32;
    InlineWords(xs.buf[..], at, all);
    var none := OpaqueAuth(0, []);
    m := Message(0, 0, 0, 0, 0, 0, none, none);
    m := m.(xid := InlineWord(xs.buf[..], at));
    m := m.(direction := InlineWord(xs.buf[..], at + 4));
    if m.direction != CALL {
      return false, m;
    }
    m := m.(rpcvers := InlineWord(xs.buf[..], at + 8));
    if m.rpcvers != RPC_MSG_VERSION {
      return false, m;
    }
    m := m.(prog := InlineWord(xs.buf[..], at + 12));
    m := m.(vers := InlineWord(xs.buf[..], at + 16));
    m := m.(proc := InlineWord(xs.buf[..], at + 20));
    var flavor := InlineWord(xs.buf[..], at + 24);
    var len := InlineWord(xs.buf[..], at + 28);
    CredentialAt(all);
    var body, verf;
    ok, body := FastBody(xs, len);
    if !ok {
      return;
    }
    Onward(all, 32, len);
    Onward(all, 32, RoundUp(len));
    m := m.(cred := OpaqueAuth(flavor, body));
    ok, verf := FastVerifier(xs);
    m := m.(verf := verf);
  }

  lemma Onward(s: seq<byte>, a: nat, n: nat)
    requires a + n <= |s|
    ensures s[a..][..n] == s[a..a + n] && s[a..][n..] == s[a + n..]
  {}

  lemma InlineWords(buf: seq<byte>, at: nat, all: seq<byte>)
    requires at + 32 <= |buf| && |all| >= 32 && buf[at..at + 32] == all[..32]
    ensures InlineWord(buf, at) == Word(all, 0) && InlineWord(buf, at + 4) == Word(all, 4)
    ensures InlineWord(buf, at + 8) == Word(all, 8) && InlineWord(buf, at + 12) == Word(all, 12)
    ensures InlineWord(buf, at + 16) == Word(all, 16) && InlineWord(buf, at + 20) == Word(all, 20)
    ensures InlineWord(buf, at + 24) == Word(all, 24) && InlineWord(buf, at + 28) == Word(all, 28)
  {
    hide FromBe32;
    forall i | 0 <= i <= 28 ensures InlineWord(buf, at + i) == Word(all, i) {
      SliceOfSlice(buf, at, at + 32, i, i + 4);
      SliceOfSlice(all, 0, 32, i, i + 4);
    }
  }

  lemma SliceOfSlice(s: seq<byte>, a: nat, b: nat, i: nat, j: nat)
    requires a <= b <= |s| && i <= j <= b - a
    ensures s[a..b][i..j] == s[a + i..a + j]
  {
    var x, y := s[a..b][i..j], s[a + i..a + j];
    forall k | 0 <= k < j - i ensures x[k] == y[k] {
      assert x[k] == s[a..b][i + k] == s[a + i + k];
    }
  }

  /** The credential of a message whose first eight words are there. */
  lemma CredentialAt(all: seq<byte>)
    requires |all| >= 32
    ensures var len := Word(all, 28);
            ParseAuth(all[24..]) ==
            if len > MAX_AUTH_BYTES || |all| < 32 + RoundUp(len) then None
            else Some(Measured(OpaqueAuth(Word(all, 24), all[32..32 + len]), 8 + RoundUp(len)))
  {
    hide FromBe32;
    var s := all[24..];
    assert s[0..4] == all[24..28] && s[4..8] == all[28..32];
    var len := Word(all, 28);
    if len <= MAX_AUTH_BYTES && |all| >= 32 + RoundUp(len) {
      assert s[8..8 + len] == all[32..32 + len];
    }
  }

  /**
   * xdr_callmsg while decoding. Both paths accept exactly the messages of the format, with the same
   * result and the same final position, so it makes no difference to a caller which one is taken.
   */
  method Decode(xs: MemStream) returns (ok: bool, m: Message)
    requires xs.Valid()
    modifies xs`pos, xs`handy
    ensures xs.Valid()
    ensures ok <==> ParseCall(old(xs.Unread())).Some?
    ensures ok ==> var p := ParseCall(old(xs.Unread())).value; m == p.value && xs.Moved(p.used)
  {
    hide ParseCall;
    ghost var all := xs.Unread();
    var at := xs.Inline(32);
    if at.Some? {
      SliceOfSlice(xs.buf[..], at.value, at.value + |all|, 0, 32);
      assert xs.buf[at.value..xs.pos] == xs.buf[..][at.value..xs.pos];
      assert all == xs.buf[..][at.value..at.value + |all|];
      assert xs.Unread() == all[32..];
      ok, m := FastMessage(xs, at.value, all);
    } else {
      ok, m := DecodeFields(xs);
    }
  }

  // ---- encoding ----------------------------------------------------------------------------------------

  /** Writes `s` at `at`, behind what was written since `start`. */
  method Append(xs: MemStream, at: nat, s: seq<byte>, ghost start: nat, ghost written: seq<byte>)
    requires start <= at && at + |s| <= xs.buf.Length && xs.buf[start..at] == written
    modifies xs.buf
    ensures xs.buf[start..at + |s|] == written + s
    ensures xs.buf[..start] == old(xs.buf[..start])
  {
    ghost var front := xs.buf[..at];
    xs.Store(at, s);
    assert xs.buf[start..at] == front[start..] && xs.buf[..start] == front[..start];
    assert xs.buf[start..at + |s|] == xs.buf[start..at] + xs.buf[at..at + |s|];
  }

  /** The six header fields inline, the checked ones after they are stored. */
  method FastHeader(xs: MemStream, at: nat, m: Message) returns (ok: bool)
    requires at + 24 <= xs.buf.Length
    modifies xs.buf
    ensures ok <==> m.direction == CALL && m.rpcvers == RPC_MSG_VERSION
    ensures ok ==> xs.buf[at..at + 24] == HeaderWire(m)
    ensures xs.buf[..at] == old(xs.buf[..at])
  {
    hide Be32;
    Append(xs, at, Be32(m.xid), at, []);
    Append(xs, at + 4, Be32(m.direction), at, Be32(m.xid));
    if m.direction != CALL {
      return false;
    }
    Append(xs, at + 8, Be32(m.rpcvers), at, Be32(m.xid) + Be32(m.direction));
    if m.rpcvers != RPC_MSG_VERSION {
      return false;
    }
    Append(xs, at + 12, Be32(m.prog), at, Be32(m.xid) + Be32(m.direction) + Be32(m.rpcvers));
    Append(xs, at + 16, Be32(m.vers), at, Be32(m.xid) + Be32(m.direction) + Be32(m.rpcvers) + Be32(m.prog));
    Append(xs, at + 20, Be32(m.proc), at,
           Be32(m.xid) + Be32(m.direction) + Be32(m.rpcvers) + Be32(m.prog) + Be32(m.vers));
    ok := true;
  }

  /** A credential inline: its padding keeps what the buffer held there. */
  method FastAuth(xs: MemStream, at: nat, a: OpaqueAuth, ghost start: nat, ghost written: seq<byte>)
    returns (ghost pad: seq<byte>)
    requires |a.body| <= MAX_AUTH_BYTES
    requires start <= at && at + AuthSize(a) <= xs.buf.Length && xs.buf[start..at] == written
    modifies xs.buf
    ensures |pad| == PadLength(a) && xs.buf[start..at + AuthSize(a)] == written + AuthWire(a, pad)
    ensures xs.buf[..start] == old(xs.buf[..start])
  {
    hide Be32;
    Append(xs, at, Be32(a.flavor), start, written);
    Append(xs, at + 4, Be32(|a.body|), start, written + Be32(a.flavor));
    Append(xs, at + 8, a.body, start, written + Be32(a.flavor) + Be32(|a.body|));
    var end := at + 8 + |a.body|;
    pad := xs.buf[end..at + AuthSize(a)];
    assert xs.buf[start..at + AuthSize(a)] == xs.buf[start..end] + pad;
    assert written + Be32(a.flavor) + Be32(|a.body|) + a.body + pad == written + AuthWire(a, pad);
  }

  /** xdr_opaque_auth while encoding. */
  method EncodeAuth(xs: MemStream, a: OpaqueAuth) returns (ok: bool)
    requires xs.Valid() && |a.body| < TWO_32
    modifies xs`pos, xs`handy, xs.buf
    ensures xs.Valid()
    ensures ok <==> |a.body| <= MAX_AUTH_BYTES && AuthSize(a) <= old(xs.handy)
    ensures ok ==> xs.Moved(AuthSize(a))
    ensures ok ==> xs.buf[old(xs.pos)..xs.pos] == AuthWire(a, Zeroes(PadLength(a)))
    ensures xs.buf[..old(xs.pos)] == old(xs.buf[..xs.pos])
  {
    hide Be32;
    ghost var start := xs.pos;
    ok := xs.PutLong(a.flavor);
    if !ok {
      return;
    }
    ghost var front := xs.buf[..xs.pos];
    ok := xs.EncodeBytes(a.body, MAX_AUTH_BYTES);
    assert xs.buf[start..start + 4] == front[start..] && xs.buf[..start] == front[..start];
    if ok {
      assert xs.buf[start..xs.pos] == xs.buf[start..start + 4] + xs.buf[start + 4..xs.pos];
      assert AuthWire(a, Zeroes(PadLength(a))) ==
             Be32(a.flavor) + (Be32(|a.body|) + a.body + seq(RoundUp(|a.body|) - |a.body|, _ => 0));
    }
  }

  /** xdr_u_int32_t or xdr_enum while encoding, behind what was written since `start`. */
  method EncodeWord(xs: MemStream, w: word, ghost start: nat, ghost written: seq<byte>) returns (ok: bool)
    requires xs.Valid() && start <= xs.pos && xs.buf[start..xs.pos] == written
    modifies xs`pos, xs`handy, xs.buf
    ensures xs.Valid()
    ensures ok <==> old(xs.handy) >= 4
    ensures ok ==> xs.Moved(4) && xs.buf[start..xs.pos] == written + Be32(w)
    ensures xs.buf[..start] == old(xs.buf[..start])
  {
    hide Be32;
    ghost var at := xs.pos;
    ghost var front := xs.buf[..at];
    ok := xs.PutLong(w);
    assert xs.buf[..at] == front;
    assert xs.buf[start..at] == front[start..] && xs.buf[..start] == front[..start];
    assert ok ==> xs.buf[start..xs.pos] == xs.buf[start..at] + xs.buf[at..xs.pos];
  }

  method EncodeHeader(xs: MemStream, m: Message) returns (ok: bool)
    requires xs.Valid()
    modifies xs`pos, xs`handy, xs.buf
    ensures xs.Valid()
    ensures ok <==> m.direction == CALL && m.rpcvers == RPC_MSG_VERSION && old(xs.handy) >= 24
    ensures ok ==> xs.Moved(24) && xs.buf[old(xs.pos)..xs.pos] == HeaderWire(m)
    ensures xs.buf[..old(xs.pos)] == old(xs.buf[..xs.pos])
  {
    hide Be32;
    ghost var start := xs.pos;
    ok := EncodeWord(xs, m.xid, start, []);
    if !ok { return; }
    ok := EncodeWord(xs, m.direction, start, Be32(m.xid));
    if !ok || m.direction != CALL { return false; }
    ok := EncodeWord(xs, m.rpcvers, start, Be32(m.xid) + Be32(m.direction));
    if !ok || m.rpcvers != RPC_MSG_VERSION { return false; }
    ok := EncodeWord(xs, m.prog, start, Be32(m.xid) + Be32(m.direction) + Be32(m.rpcvers));
    if !ok { return; }
    ok := EncodeWord(xs, m.vers, start, Be32(m.xid) + Be32(m.direction) + Be32(m.rpcvers) + Be32(m.prog));
    if !ok { return; }
    ok := EncodeWord(xs, m.proc, start,
                     Be32(m.xid) + Be32(m.direction) + Be32(m.rpcvers) + Be32(m.prog) + Be32(m.vers));
  }

  /** The conjunction at the end of xdr_callmsg, while encoding. */
  method EncodeFields(xs: MemStream, m: Message) returns (ok: bool)
    requires xs.Valid() && |m.cred.body| <= MAX_AUTH_BYTES && |m.verf.body| <= MAX_AUTH_BYTES
    modifies xs`pos, xs`handy, xs.buf
    ensures xs.Valid()
    ensures ok <==> Sendable(m) && Size(m) <= old(xs.handy)
    ensures ok ==> xs.Moved(Size(m))
    ensures ok ==> xs.buf[old(xs.pos)..xs.pos] == Wire(m, Zeroes(PadLength(m.cred)), Zeroes(PadLength(m.verf)))
    ensures xs.buf[..old(xs.pos)] == old(xs.buf[..xs.pos])
  {
    hide AuthWire, HeaderWire, Zeroes;
    ghost var start := xs.pos;
    ok := EncodeHeader(xs, m);
    if !ok { return; }
    ghost var at := xs.pos;
    ghost var front := xs.buf[..at];
    ok := EncodeAuth(xs, m.cred);
    assert xs.buf[start..at] == front[start..] && xs.buf[..start] == front[..start];
    if !ok { return; }
    ghost var mid := xs.pos;
    ghost var more := xs.buf[..mid];
    assert more[start..] == xs.buf[start..at] + xs.buf[at..mid];
    ok := EncodeAuth(xs, m.verf);
    assert xs.buf[..start] == more[..start];
    if ok {
      assert xs.buf[start..xs.pos] == more[start..] + xs.buf[mid..xs.pos];
    }
  }

  /**
   * xdr_callmsg while encoding. Either path sends exactly the sendable messages that fit, in the form
   * of the format; they differ in the padding only, which the inline path leaves as it found it.
   */
  method Encode(xs: MemStream, m: Message) returns (ok: bool, ghost pad1: seq<byte>, ghost pad2: seq<byte>)
    requires xs.Valid() && |m.cred.body| < TWO_32 && |m.verf.body| < TWO_32
    modifies xs`pos, xs`handy, xs.buf
    ensures xs.Valid()
    ensures ok <==> Sendable(m) && Size(m) <= old(xs.handy)
    ensures ok ==> |pad1| == PadLength(m.cred) && |pad2| == PadLength(m.verf) && xs.Moved(Size(m))
    ensures ok ==> xs.buf[old(xs.pos)..xs.pos] == Wire(m, pad1, pad2)
    ensures ok && !xs.aligned ==> pad1 == Zeroes(PadLength(m.cred)) && pad2 == Zeroes(PadLength(m.verf))
    ensures xs.buf[..old(xs.pos)] == old(xs.buf[..xs.pos])
  {
    hide AuthWire, HeaderWire, Zeroes;
    pad1, pad2 := Zeroes(PadLength(m.cred)), Zeroes(PadLength(m.verf));
    if |m.cred.body| > MAX_AUTH_BYTES || |m.verf.body| > MAX_AUTH_BYTES {
      return false, pad1, pad2;
    }
    var inl := xs.Inline(32 + RoundUp(|m.cred.body|) + 8 + RoundUp(|m.verf.body|));
    if inl.Some? {
      var at := inl.value;
      ok := FastHeader(xs, at, m);
      if !ok {
        return;
      }
      pad1 := FastAuth(xs, at + 24, m.cred, at, HeaderWire(m));
      pad2 := FastAuth(xs, at + 24 + AuthSize(m.cred), m.verf, at, HeaderWire(m) + AuthWire(m.cred, pad1));
    } else {
      ok := EncodeFields(xs, m);
    }
  }

  /**
   * Round trip through memory, for any of the four combinations of paths: what was encoded in the
   * buffer decodes to the same message and leaves the stream right behind it.
   */
  method RoundTrip(buf: array<byte>, m: Message, size: nat, alignedOut: bool, alignedIn: bool)
    returns (sent: bool, got: bool, n: Message)
    requires size <= buf.Length < TWO_32 && |m.cred.body| < TWO_32 && |m.verf.body| < TWO_32
    modifies buf
    ensures sent <==> Sendable(m) && Size(m) <= size
    ensures sent ==> got && n == m
  {
    hide Wire, ParseCall, Size;
    var enc := new MemStream(buf, 0, size, alignedOut);
    ghost var pad1, pad2;
    sent, pad1, pad2 := Encode(enc, m);
    var dec := new MemStream(buf, 0, size, alignedIn);
    if sent {
      assert buf[0..size] == buf[0..enc.pos] + buf[enc.pos..size];
      ParseOfWire(m, pad1, pad2, buf[enc.pos..size]);
      assert ParseCall(dec.Unread()) == Some(Measured(m, Size(m)));
    }
    got, n := Decode(dec);
  }
}
