/** The repository's own messages (cornflake.c): calls and replies over a flexxdr memory stream. */
module Cornflake {
  import opened Bytes
  import opened XdrMem

  const TWO_64: nat := 0x1_0000_0000_0000_0000
  const MSG_VERSION: word := 8
  const CALL: word := 0
  const REPLY: word := 1

  type ulong = x: int | 0 <= x < TWO_64

  /** A registered coding routine: what it writes for a value, and how it reads one. */
  datatype Schema<!A> = Schema(encode: A -> seq<byte>, decode: seq<byte> -> Option<Parsed<A>>)

  ghost predicate RoundTrips<A(!new)>(schema: Schema<A>) {
    && (forall a, tail :: schema.decode(schema.encode(a) + tail) == Some(Parsed(a, tail)))
    && Reads(schema)
  }

  /** A routine reads from where the stream is, and what it leaves is the rest of the stream. */
  ghost predicate Reads<A(!new)>(schema: Schema<A>) {
    forall s :: schema.decode(s).Some? ==> Suffix(schema.decode(s).value.rest, s)
  }

  ghost predicate Suffix(rest: seq<byte>, s: seq<byte>) { |rest| <= |s| && rest == s[|s| - |rest|..] }

  // ---- The registry ----------------------------------------------------------------------------------

  datatype Entry<!V> = Entry(prog: ulong, vers: ulong, proc: ulong, callSchema: Schema<V>, replySchema: Schema<V>)
  {
    predicate Is(p: ulong, v: ulong, c: ulong) { prog == p && vers == v && proc == c }

    function Routine(direction: word): Option<Schema<V>> {
      if direction == CALL then Some(callSchema) else if direction == REPLY then Some(replySchema) else None
    }
  }

  /** cf_registry: the static first node.  Its `next` is never set. */
  class Registry<!V> {
    var first: Entry<V>

    /** The static node starts with version 0, which stands for an empty registry. */
    constructor (blank: Entry<V>)
      ensures first == blank.(vers := 0)
    {
      first := blank.(vers := 0);
    }

    /** cornflake_register: a later entry is filled in, but not linked. */
    method Register(e: Entry<V>)
      modifies this
      ensures first == if old(first.vers) == 0 then e else old(first)
    {
      if first.vers == 0 {
        first := e;
      }
    }

    /** cornflake_get_schema; None is the null routine. */
    function Get(prog: ulong, vers: ulong, proc: ulong, direction: word): Option<Schema<V>>
      reads this
    {
      if first.vers == 0 || !first.Is(prog, vers, proc) then None else first.Routine(direction)
    }
  }

  /** The first registration with a version other than 0. */
  function Registered<V>(regs: seq<Entry<V>>): Option<Entry<V>> {
    if regs == [] then None else if regs[0].vers != 0 then Some(regs[0]) else Registered(regs[1..])
  }

  lemma {:induction false} RegisteredSnoc<V>(regs: seq<Entry<V>>, e: Entry<V>)
    ensures Registered(regs + [e]) ==
            if Registered(regs).Some? then Registered(regs) else if e.vers != 0 then Some(e) else None
  {
    if regs == [] {
      assert [e][1..] == [];
    } else {
      assert (regs + [e])[1..] == regs[1..] + [e];
      RegisteredSnoc(regs[1..], e);
    }
  }

  /**
   * After any sequence of registrations, a lookup finds the first one with a version other than 0, by its program,
   * version and procedure, and no other.
   */
  method RegisterAll<V>(reg: Registry<V>, regs: seq<Entry<V>>)
    requires reg.first.vers == 0
    modifies reg
    ensures forall prog, vers, proc, direction ::
              reg.Get(prog, vers, proc, direction) ==
              match Registered(regs)
              case None => None
              case Some(e) => if e.Is(prog, vers, proc) then e.Routine(direction) else None
  {
    var i := 0;
    assert regs[..0] == [];
    while i < |regs|
      invariant 0 <= i <= |regs|
      invariant match Registered(regs[..i])
                case None => reg.first.vers == 0
                case Some(e) => reg.first == e && e.vers != 0
    {
      RegisteredSnoc(regs[..i], regs[i]);
      assert regs[..i + 1] == regs[..i] + [regs[i]];
      reg.Register(regs[i]);
      i := i + 1;
    }
    assert regs[..i] == regs;
  }

  // ---- Messages --------------------------------------------------------------------------------------

  /** The body of a reply.  AuthError and Unknown are those that the code does not code. */
  datatype Reply<R> =
    | Success(results: R)
    | ProgMismatch(low: ulong, high: ulong)
    | Failed(stat: word)
    | RpcMismatch(low: ulong, high: ulong)
    | AuthError(stat: word)
    | Unknown(stat: word)
  {
    predicate Valid() {
      match this
      case Failed(stat) => stat != 0 && stat != 2
      case AuthError(stat) => stat != 0
      case Unknown(stat) => stat > 1
      case _ => true
    }

    /** rp_stat. */
    function Outer(): word {
      match this
      case RpcMismatch(_, _) => 1
      case AuthError(_) => 1
      case Unknown(stat) => stat
      case _ => 0
    }

    /** ar_stat or rj_stat. */
    function Inner(): word {
      match this
      case ProgMismatch(_, _) => 2
      case Failed(stat) => stat
      case AuthError(stat) => stat
      case _ => 0
    }
  }

  /** flexxdr_u_long: an unsigned long that does not fit 32 bits is refused. */
  function UlongBytes(v: ulong): Option<seq<byte>> { if v < TWO_32 then Some(Be32(v)) else None }

  function TwoUlongs(v: ulong, w: ulong): Option<seq<byte>> { Both(UlongBytes(v), UlongBytes(w)) }

  /** flexxdr_callhdr. */
  function CallHeader(xid: ulong, prog: ulong, vers: ulong): Option<seq<byte>> {
    Both(UlongBytes(xid), AfterXid(prog, vers))
  }

  function AfterXid(prog: ulong, vers: ulong): Option<seq<byte>> {
    Both(Some(Be32(CALL) + Be32(MSG_VERSION)), TwoUlongs(prog, vers))
  }

  /** flexxdr_replymsg, apart from the results of a success. */
  function ReplyBytes<R>(r: Reply<R>, schema: Schema<R>): Option<seq<byte>>
  {
    match r
    case Success(results) => Some(Be32(0) + (Be32(0) + schema.encode(results)))
    case ProgMismatch(low, high) => Both(Some(Be32(0)), Both(Some(Be32(2)), TwoUlongs(low, high)))
    case Failed(stat) => Some(Be32(0) + Be32(stat))
    case RpcMismatch(low, high) => Both(Some(Be32(1)), Both(Some(Be32(0)), TwoUlongs(low, high)))
    case AuthError(_) => None
    case Unknown(_) => None
  }

  function ParseUlongs(s: seq<byte>): Option<Parsed<(ulong, ulong)>> {
    match ParseWord(s)
    case None => None
    case Some(low) =>
      match ParseWord(low.rest)
      case None => None
      case Some(high) => Some(Parsed((low.value, high.value), high.rest))
  }

  function ParseAccepted<R>(s: seq<byte>, schema: Schema<R>): Option<Parsed<Reply<R>>> {
    match ParseWord(s)
    case None => None
    case Some(stat) =>
      if stat.value == 0 then
        match schema.decode(stat.rest)
        case None => None
        case Some(r) => Some(Parsed(Success(r.value), r.rest))
      else if stat.value == 2 then
        match ParseUlongs(stat.rest)
        case None => None
        case Some(v) => Some(Parsed(ProgMismatch(v.value.0, v.value.1), v.rest))
      else Some(Parsed(Failed(stat.value), stat.rest))
  }

  function ParseRejected<R>(s: seq<byte>): Option<Parsed<Reply<R>>> {
    match ParseWord(s)
    case None => None
    case Some(stat) =>
      if stat.value != 0 then None
      else
        match ParseUlongs(stat.rest)
        case None => None
        case Some(v) => Some(Parsed(RpcMismatch(v.value.0, v.value.1), v.rest))
  }

  function ParseReply<R>(s: seq<byte>, schema: Schema<R>): Option<Parsed<Reply<R>>> {
    match ParseWord(s)
    case None => None
    case Some(stat) =>
      if stat.value == 0 then ParseAccepted(stat.rest, schema)
      else if stat.value == 1 then ParseRejected(stat.rest)
      else None
  }

  lemma UlongsRoundTrip(v: ulong, w: ulong, tail: seq<byte>)
    requires TwoUlongs(v, w).Some?
    ensures ParseUlongs(TwoUlongs(v, w).value + tail) == Some(Parsed((v, w), tail))
  {
    Assoc(Be32(v), Be32(w), tail);
    WordRoundTrip(v, Be32(w) + tail);
    WordRoundTrip(w, tail);
    hide ParseWord, Be32;
  }

  /** Two words, then `body`, then `tail`. */
  lemma TwoWords(a: word, b: word, body: seq<byte>, tail: seq<byte>)
    ensures ParseWord(Be32(a) + (Be32(b) + body) + tail) == Some(Parsed(a, Be32(b) + (body + tail)))
    ensures ParseWord(Be32(b) + (body + tail)) == Some(Parsed(b, body + tail))
  {
    Assoc(Be32(a), Be32(b) + body, tail);
    Assoc(Be32(b), body, tail);
    WordRoundTrip(a, Be32(b) + (body + tail));
    WordRoundTrip(b, body + tail);
    hide ParseWord, Be32;
  }

  /** Every reply that can be sent is restored: accepted ones of any status, and version mismatches. */
  lemma ReplyRoundTrip<R(!new)>(r: Reply<R>, schema: Schema<R>, tail: seq<byte>)
    requires RoundTrips(schema) && r.Valid() && ReplyBytes(r, schema).Some?
    ensures ParseReply(ReplyBytes(r, schema).value + tail, schema) == Some(Parsed(r, tail))
  {
    hide Be32, ParseWord;
    match r {
      case Success(results) => TwoWords(0, 0, schema.encode(results), tail);
      case ProgMismatch(low, high) =>
        TwoWords(0, 2, TwoUlongs(low, high).value, tail);
        UlongsRoundTrip(low, high, tail);
        hide TwoUlongs, ParseUlongs;
      case Failed(stat) =>
        TwoWords(0, stat, [], tail);
        assert Be32(stat) + [] == Be32(stat) && [] + tail == tail;
      case RpcMismatch(low, high) =>
        TwoWords(1, 0, TwoUlongs(low, high).value, tail);
        UlongsRoundTrip(low, high, tail);
        hide TwoUlongs, ParseUlongs;
    }
  }

  datatype CallBody = CallBody(rpcvers: word, prog: word, vers: word, proc: word)

  function BodyBytes(b: CallBody): seq<byte> { Be32(b.rpcvers) + Be32(b.prog) + (Be32(b.vers) + Be32(b.proc)) }

  function ParseBody(s: seq<byte>): Option<Parsed<CallBody>> {
    if |s| < 16 then None
    else Some(Parsed(CallBody(FromBe32(s[..4]), FromBe32(s[4..8]), FromBe32(s[8..12]), FromBe32(s[12..16])), s[16..]))
  }

  lemma BodyRoundTrip(b: CallBody, tail: seq<byte>)
    ensures ParseBody(BodyBytes(b) + tail) == Some(Parsed(b, tail))
  {
    var s := BodyBytes(b) + tail;
    assert s[..4] == Be32(b.rpcvers) && s[4..8] == Be32(b.prog);
    assert s[8..12] == Be32(b.vers) && s[12..16] == Be32(b.proc) && s[16..] == tail;
    Be32RoundTrip(b.rpcvers);
    Be32RoundTrip(b.prog);
    Be32RoundTrip(b.vers);
    Be32RoundTrip(b.proc);
    hide Be32, FromBe32;
  }

  /**
   * flexxdr_callmsg while decoding: what it makes of a header, and where it stops. With 16 octets there are all fields,
   * of which only the version is taken if it is not known. With fewer, it reads the transaction id and the direction
   * again, and the version if that is a call.
   */
  function ReadCall(s: seq<byte>, h: Header): Parsed<Header> {
    match ParseBody(s)
    case Some(b) =>
      var now := h.(rpcvers := b.value.rpcvers);
      Parsed(if b.value.rpcvers == MSG_VERSION
             then now.(prog := b.value.prog, vers := b.value.vers, proc := b.value.proc)
             else now, b.rest)
    case None => ReadSlowly(s, h)
  }

  function ReadSlowly(s: seq<byte>, h: Header): Parsed<Header> {
    match ParseWord(s)
    case None => Parsed(h, s)
    case Some(xid) =>
      match ParseWord(xid.rest)
      case None => Parsed(h.(xid := xid.value), xid.rest)
      case Some(direction) =>
        var now := h.(xid := xid.value, direction := direction.value);
        if direction.value != CALL then Parsed(now, direction.rest)
        else
          match ParseWord(direction.rest)
          case None => Parsed(now, direction.rest)
          case Some(rpcvers) => Parsed(now.(rpcvers := rpcvers.value), rpcvers.rest)
  }

  /** The transaction id and the direction. */
  function ParseHead(s: seq<byte>): Option<Parsed<(word, word)>> {
    match ParseWord(s)
    case None => None
    case Some(xid) =>
      match ParseWord(xid.rest)
      case None => None
      case Some(direction) => Some(Parsed((xid.value, direction.value), direction.rest))
  }

  // ---- Operations on the stream ----------------------------------------------------------------------

  /** flexxdr_u_long while encoding. */
  method PutUlong(xs: MemStream, v: ulong) returns (ok: bool)
    requires xs.Valid()
    modifies xs`pos, xs`handy, xs.buf
    ensures xs.Wrote(ok, UlongBytes(v)) && (!ok ==> xs.Moved(0))
  {
    hide Be32;
    if v >= TWO_32 { return false; }
    ok := xs.PutLong(v);
  }

  method PutUlongs(xs: MemStream, v: ulong, w: ulong) returns (ok: bool)
    requires xs.Valid()
    modifies xs`pos, xs`handy, xs.buf
    ensures xs.Wrote(ok, TwoUlongs(v, w))
  {
    hide UlongBytes;
    ghost var p0 := xs.pos;
    ok := PutUlong(xs, v);
    if !ok { return; }
    ghost var p1, m1 := xs.pos, xs.buf[..];
    ok := PutUlong(xs, w);
    if ok { Glue(m1, xs.buf[..], p0, p1, xs.pos); }
  }

  /** flexxdr_enum twice, for the two discriminants of a reply. */
  method PutTags(xs: MemStream, outer: word, inner: word) returns (ok: bool)
    requires xs.Valid()
    modifies xs`pos, xs`handy, xs.buf
    ensures xs.Wrote(ok, Some(Be32(outer) + Be32(inner)))
  {
    hide Be32;
    ghost var p0 := xs.pos;
    ok := xs.PutLong(outer);
    if !ok { return; }
    ghost var p1, m1 := xs.pos, xs.buf[..];
    ok := xs.PutLong(inner);
    if ok { Glue(m1, xs.buf[..], p0, p1, xs.pos); }
  }

  /** flexxdr_replymsg while encoding. */
  method PutReply<R>(xs: MemStream, r: Reply<R>, schema: Schema<R>) returns (ok: bool)
    requires xs.Valid() && r.Valid()
    modifies xs`pos, xs`handy, xs.buf
    ensures xs.Wrote(ok, ReplyBytes(r, schema))
  {
    hide Be32, TwoUlongs;
    ghost var p0 := xs.pos;
    var outer, inner := r.Outer(), r.Inner();
    if r.Unknown? {
      ok := xs.PutLong(outer);
      return false;
    }
    ok := PutTags(xs, outer, inner);
    if !ok || r.Failed? { return; }
    ghost var p1, m1 := xs.pos, xs.buf[..];
    ghost var rest: Option<seq<byte>> := None;
    match r {
      case Success(results) => ok := xs.PutBytes(schema.encode(results)); rest := Some(schema.encode(results));
      case ProgMismatch(low, high) => ok := PutUlongs(xs, low, high); rest := TwoUlongs(low, high);
      case RpcMismatch(low, high) => ok := PutUlongs(xs, low, high); rest := TwoUlongs(low, high);
      case _ => ok := false;
    }
    if ok {
      Glue(m1, xs.buf[..], p0, p1, xs.pos);
      Assoc(Be32(outer), Be32(inner), rest.value);
    }
  }

  /** The procedure number, and the arguments if it found room. */
  method PutBody(xs: MemStream, proc: word, args: seq<byte>) returns (ok: bool)
    requires xs.Valid()
    modifies xs`pos, xs`handy, xs.buf
    ensures xs.Wrote(ok, Some(Be32(proc) + args))
    ensures !ok ==> xs.pos < old(xs.pos) + 4 + |args|
  {
    hide Be32;
    ghost var p0 := xs.pos;
    ok := xs.PutLong(proc);
    if !ok { return; }
    ghost var p1, m1 := xs.pos, xs.buf[..];
    ok := xs.PutBytes(args);
    if ok { Glue(m1, xs.buf[..], p0, p1, xs.pos); }
  }

  datatype Outcome = Returned(ok: bool) | NullCall   // NullCall: the null routine is called

  /** What a call looks like on the wire.  The procedure number is cut to 32 bits. */
  function CallBytes(xid: ulong, prog: ulong, vers: ulong, proc: ulong, args: seq<byte>): Option<seq<byte>> {
    Both(CallHeader(xid, prog, vers), Some(Be32(proc % TWO_32) + args))
  }

  /** What a call header fills. */
  datatype Header = Header(xid: ulong, direction: word, rpcvers: ulong, prog: ulong, vers: ulong, proc: ulong)

  /** struct CFLAKE and its message. */
  class Flake<V(0)> {
    var xid: ulong
    var direction: word
    var rpcvers: ulong
    var prog: ulong
    var vers: ulong
    var proc: ulong
    var args: V
    var reply: Reply<V>

    function Head(): Header
      reads this
    {
      Header(xid, direction, rpcvers, prog, vers, proc)
    }
  }

  method PutAfterXid<V(0)>(xs: MemStream, f: Flake<V>) returns (ok: bool)
    requires xs.Valid() && f.direction == CALL && f.rpcvers == MSG_VERSION
    modifies xs`pos, xs`handy, xs.buf
    ensures xs.Wrote(ok, AfterXid(f.prog, f.vers))
  {
    hide Be32, TwoUlongs;
    ghost var p0 := xs.pos;
    ok := PutTags(xs, f.direction, f.rpcvers);
    if !ok { return; }
    ghost var p1, m1 := xs.pos, xs.buf[..];
    ok := PutUlongs(xs, f.prog, f.vers);
    if ok { Glue(m1, xs.buf[..], p0, p1, xs.pos); }
  }

  /** flexxdr_callhdr. */
  method PutCallHeader<V(0)>(xs: MemStream, f: Flake<V>) returns (ok: bool)
    requires xs.Valid()
    modifies xs`pos, xs`handy, xs.buf, f`direction, f`rpcvers
    ensures f.direction == CALL && f.rpcvers == MSG_VERSION
    ensures xs.Wrote(ok, CallHeader(f.xid, f.prog, f.vers))
  {
    f.direction, f.rpcvers := CALL, MSG_VERSION;
    hide UlongBytes, AfterXid;
    ghost var p0 := xs.pos;
    ok := PutUlong(xs, f.xid);
    if !ok { return; }
    ghost var p1, m1 := xs.pos, xs.buf[..];
    ok := PutAfterXid(xs, f);
    if ok { Glue(m1, xs.buf[..], p0, p1, xs.pos); }
  }

  lemma HeaderSize(xid: ulong, prog: ulong, vers: ulong)
    ensures CallHeader(xid, prog, vers).Some? <==> xid < TWO_32 && prog < TWO_32 && vers < TWO_32
    ensures CallHeader(xid, prog, vers).Some? ==> |CallHeader(xid, prog, vers).value| == 20
  {
    hide Be32;
  }

  /**
   * cornflake_serialize for a call.  It reports success once the header is written, also when the procedure
   * number or the arguments then find no room.
   */
  method SerializeCall<V(0)>(xs: MemStream, f: Flake<V>, reg: Registry<V>) returns (ok: bool)
    requires xs.Valid() && reg.Get(f.prog, f.vers, f.proc, CALL).Some?
    modifies xs`pos, xs`handy, xs.buf, f`direction, f`rpcvers
    ensures xs.Valid() && xs.buf[..old(xs.pos)] == old(xs.buf[..xs.pos])
    ensures f.direction == CALL && f.rpcvers == MSG_VERSION
    ensures ok <==> f.xid < TWO_32 && f.prog < TWO_32 && f.vers < TWO_32 && old(xs.handy) >= 20
    ensures var args := reg.Get(f.prog, f.vers, f.proc, CALL).value.encode(f.args);
            var wire := CallBytes(f.xid, f.prog, f.vers, f.proc, args);
            ok ==>
              wire.Some? &&
              if |wire.value| <= old(xs.handy) then xs.Moved(|wire.value|) && xs.buf[old(xs.pos)..xs.pos] == wire.value
              else xs.pos < old(xs.pos) + |wire.value|
  {
    HeaderSize(f.xid, f.prog, f.vers);
    hide CallHeader, Be32;
    ghost var p0 := xs.pos;
    ok := PutCallHeader(xs, f);
    if !ok { return; }
    var schema := reg.Get(f.prog, f.vers, f.proc, CALL);
    ghost var p1, m1 := xs.pos, xs.buf[..];
    ok := PutBody(xs, f.proc % TWO_32, schema.value.encode(f.args));
    if ok { Glue(m1, xs.buf[..], p0, p1, xs.pos); }
    ok := true;
  }

  /** The first two words of a reply; nothing if the transaction id does not fit 32 bits. */
  function ReplyHeader(xid: ulong): seq<byte> { if xid < TWO_32 then Be32(xid) + Be32(REPLY) else [] }

  /** cornflake_peek_header while encoding; without room for it, there is none for what follows. */
  method PutReplyHead<V(0)>(xs: MemStream, f: Flake<V>)
    requires xs.Valid() && f.direction == REPLY
    modifies xs`pos, xs`handy, xs.buf
    ensures xs.Valid() && xs.buf[..old(xs.pos)] == old(xs.buf[..xs.pos])
    ensures |ReplyHeader(f.xid)| <= old(xs.handy) ==>
              xs.Moved(|ReplyHeader(f.xid)|) && xs.buf[old(xs.pos)..xs.pos] == ReplyHeader(f.xid)
    ensures |ReplyHeader(f.xid)| > old(xs.handy) ==> xs.handy < 8 && xs.pos >= old(xs.pos)
  {
    hide Be32, Number;
    ghost var p0 := xs.pos;
    var ok := PutUlong(xs, f.xid);
    ghost var p1, m1 := xs.pos, xs.buf[..];
    if ok { ok := xs.PutLong(f.direction); }
    Glue(m1, xs.buf[..], p0, p1, if ok then xs.pos else p1);
  }

  lemma ReplySize<R>(r: Reply<R>, schema: Schema<R>)
    ensures ReplyBytes(r, schema).Some? ==> |ReplyBytes(r, schema).value| >= 8
  {
    hide Be32;
  }

  /** cornflake_serialize for a reply.  The result of writing the header is ignored. */
  method SerializeReply<V(0)>(xs: MemStream, f: Flake<V>, schema: Schema<V>) returns (ok: bool)
    requires xs.Valid() && f.direction == REPLY && f.reply.Valid()
    modifies xs`pos, xs`handy, xs.buf
    ensures xs.Wrote(ok, Both(Some(ReplyHeader(f.xid)), ReplyBytes(f.reply, schema)))
  {
    ReplySize(f.reply, schema);
    hide Be32, ReplyBytes, ReplyHeader, Number;
    ghost var p0 := xs.pos;
    PutReplyHead(xs, f);
    ghost var p1, m1 := xs.pos, xs.buf[..];
    ok := PutReply(xs, f.reply, schema);
    Glue(m1, xs.buf[..], p0, p1, if ok then xs.pos else p1);
  }

  // ---- Deserialization -------------------------------------------------------------------------------

  method GetUlongs(xs: MemStream) returns (ok: bool, low: ulong, high: ulong)
    requires xs.Valid()
    modifies xs`pos, xs`handy
    ensures xs.Valid()
    ensures var r := ParseUlongs(old(xs.Unread()));
            ok == r.Some? && (ok ==> r.value == Parsed((low, high), xs.Unread()))
  {
    hide ParseWord;
    high := 0;
    ok, low := xs.GetWord();
    if ok { ok, high := xs.GetWord(); }
  }

  /** A coding routine, decoding. */
  method Apply<A(!new)>(xs: MemStream, schema: Schema<A>) returns (a: Option<A>)
    requires xs.Valid() && Reads(schema)
    modifies xs`pos, xs`handy
    ensures xs.Valid()
    ensures var r := schema.decode(old(xs.Unread()));
            a.Some? == r.Some? && (a.Some? ==> r.value == Parsed(a.value, xs.Unread()))
  {
    var s := xs.buf[xs.pos..xs.pos + xs.handy];
    var r := schema.decode(s);
    if r.None? { return None; }
    assert Suffix(r.value.rest, s);
    var ok, skipped := xs.GetBytes(|s| - |r.value.rest|);
    assert xs.Unread() == s[|s| - |r.value.rest|..];
    a := Some(r.value.value);
  }

  method GetRejected<R>(xs: MemStream) returns (r: Option<Reply<R>>)
    requires xs.Valid()
    modifies xs`pos, xs`handy
    ensures xs.Valid()
    ensures var p: Option<Parsed<Reply<R>>> := ParseRejected(old(xs.Unread()));
            r.Some? == p.Some? && (r.Some? ==> p.value == Parsed(r.value, xs.Unread()))
  {
    hide ParseWord, ParseUlongs;
    var ok, stat := xs.GetWord();
    if !ok || stat != 0 { return None; }
    var low, high;
    ok, low, high := GetUlongs(xs);
    r := if ok then Some(RpcMismatch(low, high)) else None;
  }

  method GetAccepted<R(!new)>(xs: MemStream, schema: Schema<R>) returns (r: Option<Reply<R>>)
    requires xs.Valid() && Reads(schema)
    modifies xs`pos, xs`handy
    ensures xs.Valid()
    ensures var p := ParseAccepted(old(xs.Unread()), schema);
            r.Some? == p.Some? && (r.Some? ==> p.value == Parsed(r.value, xs.Unread()))
  {
    hide ParseWord, ParseUlongs;
    var ok, stat := xs.GetWord();
    if !ok { return None; }
    match stat {
      case 0 =>
        var results := Apply(xs, schema);
        r := if results.Some? then Some(Success(results.value)) else None;
      case 2 =>
        var low, high;
        ok, low, high := GetUlongs(xs);
        r := if ok then Some(ProgMismatch(low, high)) else None;
      case _ => r := Some(Failed(stat));
    }
  }

  /** flexxdr_replymsg while decoding. */
  method GetReply<R(!new)>(xs: MemStream, schema: Schema<R>) returns (r: Option<Reply<R>>)
    requires xs.Valid() && Reads(schema)
    modifies xs`pos, xs`handy
    ensures xs.Valid()
    ensures var p := ParseReply(old(xs.Unread()), schema);
            r.Some? == p.Some? && (r.Some? ==> p.value == Parsed(r.value, xs.Unread()))
  {
    hide ParseWord, ParseAccepted, ParseRejected;
    var ok, stat := xs.GetWord();
    if !ok || stat > 1 { return None; }
    if stat == 0 { r := GetAccepted(xs, schema); } else { r := GetRejected(xs); }
  }

  /** cornflake_peek_header while decoding. */
  method GetHead<V(0)>(xs: MemStream, f: Flake<V>) returns (ok: bool)
    requires xs.Valid()
    modifies xs`pos, xs`handy, f`xid, f`direction
    ensures xs.Valid()
    ensures var r := ParseHead(old(xs.Unread()));
            ok == r.Some? && (ok ==> r.value == Parsed((f.xid, f.direction), xs.Unread()))
    ensures ok ==> old(xs.handy) >= 8 && xs.handy == old(xs.handy) - 8
    ensures !ok ==> f.direction == old(f.direction) &&
                    match ParseWord(old(xs.Unread()))
                    case None => f.xid == old(f.xid) && xs.Unread() == old(xs.Unread())
                    case Some(xid) => f.xid == xid.value && xs.Unread() == xid.rest
  {
    hide ParseWord;
    var w;
    ok, w := xs.GetWord();
    if !ok { return; }
    ghost var left := xs.Unread();
    f.xid := w;
    assert xs.Unread() == left;
    ok, w := xs.GetWord();
    if !ok { return; }
    left := xs.Unread();
    f.direction := w;
    assert xs.Unread() == left;
  }

  method GetPlace<V(0)>(xs: MemStream, f: Flake<V>) returns (ok: bool)
    requires xs.Valid()
    modifies xs`pos, xs`handy, f`prog, f`vers, f`proc
    ensures xs.Valid() && (ok ==> old(xs.handy) >= 12)
    ensures old(xs.handy) < 4 ==> xs.Unread() == old(xs.Unread()) && f.Head() == old(f.Head())
  {
    var w;
    ok, w := xs.GetLong();
    if !ok { return; }
    f.prog := w;
    ok, w := xs.GetLong();
    if !ok { return; }
    f.vers := w;
    ok, w := xs.GetLong();
    if ok { f.proc := w; }
  }

  /** The version, and the rest if it is known. */
  method GetFrom<V(0)>(xs: MemStream, f: Flake<V>) returns (ok: bool)
    requires xs.Valid()
    modifies xs`pos, xs`handy, f`rpcvers, f`prog, f`vers, f`proc
    ensures xs.Valid() && (ok ==> old(xs.handy) >= 16)
    ensures old(xs.handy) < 8 ==>
              match ParseWord(old(xs.Unread()))
              case None => xs.Unread() == old(xs.Unread()) && f.Head() == old(f.Head())
              case Some(rpcvers) => xs.Unread() == rpcvers.rest && f.Head() == old(f.Head()).(rpcvers := rpcvers.value)
  {
    hide ParseWord;
    var w;
    ok, w := xs.GetWord();
    if !ok { return; }
    ghost var left := xs.Unread();
    f.rpcvers := w;
    assert xs.Unread() == left;
    if f.rpcvers != MSG_VERSION { return false; }
    ok := GetPlace(xs, f);
  }

  /** The field-by-field path of flexxdr_callmsg. */
  method GetCallSlowly<V(0)>(xs: MemStream, f: Flake<V>) returns (ok: bool)
    requires xs.Valid()
    modifies xs`pos, xs`handy, f`xid, f`direction, f`rpcvers, f`prog, f`vers, f`proc
    ensures xs.Valid() && (ok ==> old(xs.handy) >= 24)
    ensures old(xs.handy) < 16 ==> Parsed(f.Head(), xs.Unread()) == ReadSlowly(old(xs.Unread()), old(f.Head()))
  {
    hide ParseWord;
    ok := GetHead(xs, f);
    if !ok || f.direction != CALL { return false; }
    ok := GetFrom(xs, f);
  }

  lemma CutAfter(buf: seq<byte>, at: nat, end: nat, n: nat)
    requires at + n <= end <= |buf|
    ensures buf[at..end][..n] == buf[at..at + n] && buf[at..end][n..] == buf[at + n..end]
  {}

  /** Octets taken inline, on an aligned stream. */
  method TakeInline(xs: MemStream, n: nat) returns (b: Option<seq<byte>>)
    requires xs.Valid() && xs.aligned
    modifies xs`pos, xs`handy
    ensures xs.Valid()
    ensures b.Some? <==> old(xs.handy) >= n
    ensures b.Some? ==> b.value == old(xs.Unread())[..n] && xs.Unread() == old(xs.Unread())[n..]
    ensures b.None? ==> xs.pos == old(xs.pos) && xs.handy == old(xs.handy) && xs.Unread() == old(xs.Unread())
  {
    ghost var s := xs.Unread();
    var at := xs.Inline(n);
    if at == None { return None; }
    CutAfter(xs.buf[..], at.value, at.value + |s|, n);
    assert s == xs.buf[..][at.value..at.value + |s|] && xs.Unread() == xs.buf[..][at.value + n..at.value + |s|];
    b := Some(xs.buf[at.value..at.value + n]);
    assert b.value == xs.buf[..][at.value..at.value + n];
  }

  lemma FourWords(s: seq<byte>)
    requires |s| >= 16
    ensures var b := s[..16];
            b[..4] == s[..4] && b[4..8] == s[4..8] && b[8..12] == s[8..12] && b[12..] == s[12..16]
  {}

  /** flexxdr_callmsg while decoding: the inline path fails on a version it does not know. */
  method GetCall<V(0)>(xs: MemStream, f: Flake<V>) returns (ok: bool)
    requires xs.Valid() && xs.aligned
    modifies xs`pos, xs`handy, f`xid, f`direction, f`rpcvers, f`prog, f`vers, f`proc
    ensures xs.Valid()
    ensures ok <==> old(xs.handy) >= 16 && f.rpcvers == MSG_VERSION
    ensures Parsed(f.Head(), xs.Unread()) == ReadCall(old(xs.Unread()), old(f.Head()))
  {
    hide FromBe32, ReadSlowly;
    ghost var s := xs.Unread();
    var four := TakeInline(xs, 16);
    if four == None {
      ok := GetCallSlowly(xs, f);
      return;
    }
    var b := four.value;
    FourWords(s);
    f.rpcvers := FromBe32(b[..4]);
    if f.rpcvers != MSG_VERSION { return false; }
    f.prog, f.vers, f.proc := FromBe32(b[4..8]), FromBe32(b[8..12]), FromBe32(b[12..]);
    ok := true;
  }

  /** Decoding `s` with a routine that may be the null routine comes to `outcome`, `args` and `rest`. */
  ghost predicate Dispatched<A(!new)>(schema: Option<Schema<A>>, s: seq<byte>, outcome: Outcome, args: A,
                                      rest: seq<byte>)
  {
    match schema
    case None => outcome == NullCall
    case Some(schema) =>
      match schema.decode(s)
      case None => outcome == Returned(false)
      case Some(p) => outcome == Returned(true) && p == Parsed(args, rest)
  }

  method GetArgs<V(0, !new)>(xs: MemStream, f: Flake<V>, reg: Registry<V>) returns (outcome: Outcome)
    requires xs.Valid() && Reads(reg.first.callSchema) && Reads(reg.first.replySchema)
    modifies xs`pos, xs`handy, f`args
    ensures xs.Valid()
    ensures Dispatched(reg.Get(f.prog, f.vers, f.proc, f.direction), old(xs.Unread()), outcome, f.args, xs.Unread())
  {
    var schema := reg.Get(f.prog, f.vers, f.proc, f.direction);
    if schema.None? { return NullCall; }
    var args := Apply(xs, schema.value);
    if args.None? { return Returned(false); }
    ghost var left := xs.Unread();
    f.args := args.value;
    assert xs.Unread() == left;
    outcome := Returned(true);
  }

  /** The call part of cornflake_deserialize.  That the header may have failed is ignored. */
  method DeserializeCall<V(0, !new)>(xs: MemStream, f: Flake<V>, reg: Registry<V>) returns (outcome: Outcome)
    requires xs.Valid() && xs.aligned && Reads(reg.first.callSchema) && Reads(reg.first.replySchema)
    modifies xs`pos, xs`handy, f`xid, f`direction, f`rpcvers, f`prog, f`vers, f`proc, f`args
    ensures xs.Valid()
    ensures var c := ReadCall(old(xs.Unread()), old(f.Head()));
            && f.Head() == c.value
            && Dispatched(reg.Get(f.prog, f.vers, f.proc, f.direction), c.rest, outcome, f.args, xs.Unread())
  {
    hide ReadCall, Dispatched;
    var ignored := GetCall(xs, f);
    outcome := GetArgs(xs, f, reg);
  }

  /** Decoding `s` as the reply part comes to `outcome`, `reply` and `rest`. */
  ghost predicate Answered<V(!new)>(s: seq<byte>, schema: Schema<V>, outcome: Outcome, reply: Reply<V>,
                                    rest: seq<byte>)
  {
    var p := ParseReply(s, schema);
    outcome == Returned(p.Some?) && (p.Some? ==> p.value == Parsed(reply, rest))
  }

  /** What follows a call header: the arguments, and a reply if the direction read last says so. */
  ghost predicate Finished<V(!new)>(routine: Option<Schema<V>>, c: Parsed<Header>, schema: Schema<V>,
                                    outcome: Outcome, args: V, reply: Reply<V>, rest: seq<byte>)
  {
    if c.value.direction == REPLY && routine.Some? && routine.value.decode(c.rest).Some? then
      var p := routine.value.decode(c.rest).value;
      args == p.value && Answered(p.rest, schema, outcome, reply, rest)
    else Dispatched(routine, c.rest, outcome, args, rest)
  }

  /** The reply part of cornflake_deserialize. */
  method DeserializeReply<V(0, !new)>(xs: MemStream, f: Flake<V>, schema: Schema<V>) returns (outcome: Outcome)
    requires xs.Valid() && Reads(schema)
    modifies xs`pos, xs`handy, f`reply
    ensures xs.Valid()
    ensures Answered(old(xs.Unread()), schema, outcome, f.reply, xs.Unread())
  {
    hide ParseReply;
    var reply := GetReply(xs, schema);
    if reply.None? { return Returned(false); }
    ghost var left := xs.Unread();
    f.reply := reply.value;
    assert xs.Unread() == left;
    outcome := Returned(true);
  }

  /** cornflake_deserialize.  `schema` is the routine for results that the caller has set in the message. */
  method Deserialize<V(0, !new)>(xs: MemStream, f: Flake<V>, reg: Registry<V>, schema: Schema<V>)
    returns (outcome: Outcome)
    requires xs.Valid() && xs.aligned && Reads(reg.first.callSchema) && Reads(reg.first.replySchema) && Reads(schema)
    modifies xs`pos, xs`handy, f
    ensures xs.Valid()
    ensures match ParseHead(old(xs.Unread()))
            case None => outcome == Returned(false)
            case Some(head) =>
              var h := old(f.Head()).(xid := head.value.0, direction := head.value.1);
              if head.value.1 == CALL then
                var c := ReadCall(head.rest, h);
                && f.Head() == c.value
                && Finished(reg.Get(f.prog, f.vers, f.proc, f.direction), c, schema, outcome, f.args, f.reply,
                            xs.Unread())
              else
                && f.Head() == h
                && if head.value.1 == REPLY then Answered(head.rest, schema, outcome, f.reply, xs.Unread())
                   else outcome == Returned(true) && xs.Unread() == head.rest
  {
    var ok := GetHead(xs, f);
    hide ParseHead, ReadCall, Answered;
    if !ok { return Returned(false); }
    outcome := Returned(true);
    if f.direction == CALL {
      outcome := DeserializeCall(xs, f, reg);
      if outcome != Returned(true) { return; }
    }
    if f.direction == REPLY { outcome := DeserializeReply(xs, f, schema); }
  }

  // ---- What arrives ----------------------------------------------------------------------------------

  lemma HeadRoundTrip(xid: word, direction: word, tail: seq<byte>)
    ensures ParseHead(Be32(xid) + Be32(direction) + tail) == Some(Parsed((xid, direction), tail))
  {
    Assoc(Be32(xid), Be32(direction), tail);
    WordRoundTrip(xid, Be32(direction) + tail);
    WordRoundTrip(direction, tail);
    hide ParseWord, Be32;
  }

  lemma Regroup<T>(x: seq<T>, c: seq<T>, m: seq<T>, p: seq<T>, v: seq<T>, q: seq<T>, args: seq<T>)
    ensures x + ((c + m) + (p + v)) + (q + args) == x + c + (m + p + (v + q) + args)
  {}

  /** What a call is read as. */
  lemma CallRoundTrip(xid: ulong, prog: ulong, vers: ulong, proc: ulong, args: seq<byte>)
    requires CallBytes(xid, prog, vers, proc, args).Some?
    ensures var s := CallBytes(xid, prog, vers, proc, args).value;
            var b := CallBody(MSG_VERSION, prog, vers, proc % TWO_32);
            && |s| == 24 + |args|
            && ParseHead(s) == Some(Parsed((xid, CALL), BodyBytes(b) + args))
            && ParseBody(BodyBytes(b) + args) == Some(Parsed(b, args))
  {
    var b := CallBody(MSG_VERSION, prog, vers, proc % TWO_32);
    BodyRoundTrip(b, args);
    HeadRoundTrip(xid, CALL, BodyBytes(b) + args);
    hide Be32, ParseHead, ParseBody;
    Regroup(Be32(xid), Be32(CALL), Be32(MSG_VERSION), Be32(prog), Be32(vers), Be32(proc % TWO_32), args);
  }

  /** A call on the wire, field by field: direction 0, version 8. */
  lemma CallLayout(xid: ulong, prog: ulong, vers: ulong, proc: ulong, args: seq<byte>)
    requires xid < TWO_32 && prog < TWO_32 && vers < TWO_32
    ensures CallBytes(xid, prog, vers, proc, args).Some?
    ensures var s := CallBytes(xid, prog, vers, proc, args).value;
            && |s| == 24 + |args|
            && Number(s[..4]) == xid && s[4..8] == [0, 0, 0, 0] && s[8..12] == [0, 0, 0, 8]
            && Number(s[12..16]) == prog && Number(s[16..20]) == vers && Number(s[20..24]) == proc % 0x1_0000_0000
            && s[24..] == args
  {
    Be32IsNumber(xid);
    Be32IsNumber(prog);
    Be32IsNumber(vers);
    Be32IsNumber(proc % TWO_32);
    assert Be32(0) == [0, 0, 0, 0] && Be32(8) == [0, 0, 0, 8];
    var x, c, m, p, v, q := Be32(xid), Be32(CALL), Be32(MSG_VERSION), Be32(prog), Be32(vers), Be32(proc % TWO_32);
    var s := CallBytes(xid, prog, vers, proc, args).value;
    assert s == x + ((c + m) + (p + v)) + (q + args);
    hide Be32, Number, CallBytes;
    InOneRow(x, c, m, p, v, q + args);
    InOrder(x, c, m + (p + (v + (q + args))));
    InOrder(m, p, v + (q + args));
    assert s[8..12] == s[8..][..4] && s[12..16] == s[8..][4..8] && s[16..] == s[8..][8..];
    assert s[16..20] == s[16..][..4] && s[20..24] == s[16..][4..8] && s[24..] == s[16..][8..];
    InOrder(v, q, args);
  }

  lemma InOneRow<T>(x: seq<T>, c: seq<T>, m: seq<T>, p: seq<T>, v: seq<T>, rest: seq<T>)
    ensures x + ((c + m) + (p + v)) + rest == x + (c + (m + (p + (v + rest))))
  {}

  /** Replies on the wire: accepted (0) with status 0, 2 or another, or denied (1) for the version (0). */
  lemma ReplyLayout<R>(r: Reply<R>, schema: Schema<R>)
    requires ReplyBytes(r, schema).Some?
    ensures var s := ReplyBytes(r, schema).value;
            match r
            case Success(results) => s == [0, 0, 0, 0] + [0, 0, 0, 0] + schema.encode(results)
            case ProgMismatch(low, high) =>
              |s| == 16 && s[..8] == [0, 0, 0, 0, 0, 0, 0, 2] && Number(s[8..12]) == low && Number(s[12..]) == high
            case Failed(stat) => |s| == 8 && s[..4] == [0, 0, 0, 0] && Number(s[4..]) == stat
            case RpcMismatch(low, high) =>
              |s| == 16 && s[..8] == [0, 0, 0, 1, 0, 0, 0, 0] && Number(s[8..12]) == low && Number(s[12..]) == high
            case _ => false
  {
    assert Be32(0) == [0, 0, 0, 0] && Be32(1) == [0, 0, 0, 1] && Be32(2) == [0, 0, 0, 2];
    match r {
      case Success(results) => hide Be32, Number;
      case ProgMismatch(low, high) => VersionsLayout(0, 2, low, high);
      case Failed(stat) =>
        Be32IsNumber(stat);
        hide Be32, Number;
        InOrder(Be32(0), Be32(stat), []);
        assert Be32(stat) + [] == Be32(stat);
      case RpcMismatch(low, high) => VersionsLayout(1, 0, low, high);
    }
  }

  lemma VersionsLayout(a: word, b: word, low: ulong, high: ulong)
    requires low < TWO_32 && high < TWO_32
    ensures var s := Be32(a) + (Be32(b) + (Be32(low) + Be32(high)));
            && |s| == 16 && s[..8] == Be32(a) + Be32(b)
            && Number(s[8..12]) == low && Number(s[12..]) == high
  {
    Be32IsNumber(low);
    Be32IsNumber(high);
    hide Be32, Number;
    var v := Be32(low) + Be32(high);
    InOrder(Be32(a), Be32(b), v);
    var s := Be32(a) + (Be32(b) + v);
    assert s[8..12] == s[8..][..4] == Be32(low) && s[12..] == s[8..][4..] == Be32(high);
  }

  /** A message put at the front of a buffer. */
  method SendCall<V(0)>(f: Flake<V>, reg: Registry<V>, buf: array<byte>) returns (size: nat)
    requires reg.Get(f.prog, f.vers, f.proc, CALL).Some? && f.xid < TWO_32 && f.prog < TWO_32 && f.vers < TWO_32
    requires 24 + |reg.first.callSchema.encode(f.args)| <= buf.Length < TWO_32
    modifies f`direction, f`rpcvers, buf
    ensures size <= buf.Length
    ensures Some(buf[..size]) == CallBytes(f.xid, f.prog, f.vers, f.proc, reg.first.callSchema.encode(f.args))
  {
    hide CallHeader, Be32, ParseHead, ParseBody, BodyBytes;
    ghost var args := reg.first.callSchema.encode(f.args);
    HeaderSize(f.xid, f.prog, f.vers);
    CallRoundTrip(f.xid, f.prog, f.vers, f.proc, args);
    var xs := new MemStream(buf, 0, buf.Length, true);
    var ok := SerializeCall(xs, f, reg);
    size := xs.pos;
    assert buf[0..size] == buf[..size];
  }

  lemma DispatchedArgs<A(!new)>(schema: Option<Schema<A>>, s: seq<byte>, a: A, outcome: Outcome, args: A,
                                rest: seq<byte>)
    requires Dispatched(schema, s, outcome, args, rest)
    requires schema.Some? ==> schema.value.decode(s) == Some(Parsed(a, []))
    ensures if schema.None? then outcome == NullCall else outcome == Returned(true) && args == a
  {}

  /** The message in the buffer has the head and the body of a call. */
  method ReceiveBody<V(0, !new)>(g: Flake<V>, reg: Registry<V>, schema: Schema<V>, buf: array<byte>, size: nat,
                                 ghost xid: word, ghost b: CallBody, ghost rest: seq<byte>, ghost args: seq<byte>)
    returns (outcome: Outcome, ghost left: seq<byte>)
    requires 24 <= size <= buf.Length < TWO_32 && Reads(reg.first.callSchema) && Reads(reg.first.replySchema)
             && Reads(schema) && b.rpcvers == MSG_VERSION
    requires ParseHead(buf[..size]) == Some(Parsed((xid, CALL), rest)) && ParseBody(rest) == Some(Parsed(b, args))
    modifies g
    ensures g.xid == xid && g.direction == CALL && g.rpcvers == b.rpcvers && g.prog == b.prog && g.vers == b.vers
            && g.proc == b.proc
    ensures Dispatched(reg.Get(b.prog, b.vers, b.proc, CALL), args, outcome, g.args, left)
  {
    hide ParseHead, ParseBody, ParseReply, Reads, Dispatched;
    var ys := new MemStream(buf, 0, size, true);
    assert ys.Unread() == buf[..size];
    outcome := Deserialize(ys, g, reg, schema);
    left := ys.Unread();
  }

  /** The message in the buffer is a call with the arguments `a`, of the program in the registry. */
  method ReceiveCall<V(0, !new)>(g: Flake<V>, reg: Registry<V>, schema: Schema<V>, buf: array<byte>, size: nat,
                                 ghost xid: ulong, ghost prog: ulong, ghost vers: ulong, ghost proc: ulong, ghost a: V)
    returns (outcome: Outcome)
    requires size <= buf.Length < TWO_32 && Reads(reg.first.callSchema) && Reads(reg.first.replySchema) && Reads(schema)
    requires reg.Get(prog, vers, proc, CALL).Some? && xid < TWO_32 && prog < TWO_32 && vers < TWO_32
    requires Some(buf[..size]) == CallBytes(xid, prog, vers, proc, reg.first.callSchema.encode(a))
    requires reg.first.callSchema.decode(reg.first.callSchema.encode(a)) == Some(Parsed(a, []))
    modifies g
    ensures outcome == if proc < TWO_32 then Returned(true) else NullCall
    ensures proc < TWO_32 ==>
              && g.xid == xid && g.direction == CALL && g.rpcvers == MSG_VERSION
              && g.prog == prog && g.vers == vers && g.proc == proc && g.args == a
  {
    hide CallBytes, CallHeader, Be32, BodyBytes, ParseHead, ParseBody, Reads, Dispatched;
    ghost var args := reg.first.callSchema.encode(a);
    ghost var b := CallBody(MSG_VERSION, prog, vers, proc % TWO_32);
    CallRoundTrip(xid, prog, vers, proc, args);
    assert b.proc == proc <==> proc < TWO_32;
    ghost var left;
    outcome, left := ReceiveBody(g, reg, schema, buf, size, xid, b, BodyBytes(b) + args, args);
    DispatchedArgs(reg.Get(prog, vers, b.proc, CALL), args, a, outcome, g.args, left);
  }

  /**
   * A call to the registered program, over a stream with room for it, arrives with every field and its arguments,
   * exactly when its procedure number fits 32 bits; otherwise the receiver finds no routine to call.
   */
  method CallArrives<V(0, !new)>(f: Flake<V>, g: Flake<V>, reg: Registry<V>, schema: Schema<V>, buf: array<byte>)
    returns (outcome: Outcome)
    requires f != g && reg.Get(f.prog, f.vers, f.proc, CALL).Some? && RoundTrips(reg.first.callSchema)
             && Reads(reg.first.replySchema) && Reads(schema)
    requires f.xid < TWO_32 && f.prog < TWO_32 && f.vers < TWO_32
    requires 24 + |reg.first.callSchema.encode(f.args)| <= buf.Length < TWO_32
    modifies f`direction, f`rpcvers, g, buf
    ensures outcome == if f.proc < TWO_32 then Returned(true) else NullCall
    ensures f.proc < TWO_32 ==>
              && g.xid == f.xid && g.direction == CALL && g.rpcvers == MSG_VERSION
              && g.prog == f.prog && g.vers == f.vers && g.proc == f.proc && g.args == f.args
  {
    ghost var args := reg.first.callSchema.encode(f.args);
    assert args + [] == args && reg.first.callSchema.decode(args + []) == Some(Parsed(f.args, []));
    var size := SendCall(f, reg, buf);
    hide RoundTrips, CallBytes;
    outcome := ReceiveCall(g, reg, schema, buf, size, f.xid, f.prog, f.vers, f.proc, f.args);
  }

  /** A reply put at the front of a buffer. */
  method SendReply<V(0)>(f: Flake<V>, schema: Schema<V>, buf: array<byte>) returns (size: nat)
    requires f.direction == REPLY && f.xid < TWO_32 && f.reply.Valid() && ReplyBytes(f.reply, schema).Some?
    requires 8 + |ReplyBytes(f.reply, schema).value| <= buf.Length < TWO_32
    modifies buf
    ensures size <= buf.Length
    ensures buf[..size] == Be32(f.xid) + Be32(REPLY) + ReplyBytes(f.reply, schema).value
  {
    hide ReplyBytes, Be32;
    var xs := new MemStream(buf, 0, buf.Length, true);
    var ok := SerializeReply(xs, f, schema);
    size := xs.pos;
    assert buf[0..size] == buf[..size];
  }

  /** A reply, accepted with any status or refused for its version, arrives as it was sent. */
  method ReplyArrives<V(0, !new)>(f: Flake<V>, g: Flake<V>, reg: Registry<V>, schema: Schema<V>, buf: array<byte>)
    returns (outcome: Outcome)
    requires f != g && Reads(reg.first.callSchema) && Reads(reg.first.replySchema) && RoundTrips(schema)
             && f.direction == REPLY && f.xid < TWO_32
    requires f.reply.Valid() && ReplyBytes(f.reply, schema).Some?
    requires 8 + |ReplyBytes(f.reply, schema).value| <= buf.Length < TWO_32
    modifies g, buf
    ensures outcome == Returned(true) && g.xid == f.xid && g.direction == REPLY && g.reply == f.reply
  {
    ghost var body := ReplyBytes(f.reply, schema).value;
    HeadRoundTrip(f.xid, REPLY, body);
    ReplyRoundTrip(f.reply, schema, []);
    assert body + [] == body;
    hide ParseHead, ParseBody, ParseReply, ReplyBytes, Be32, RoundTrips;
    var size := SendReply(f, schema, buf);
    var ys := new MemStream(buf, 0, size, true);
    assert ys.Unread() == buf[..size];
    outcome := Deserialize(ys, g, reg, schema);
  }
}
