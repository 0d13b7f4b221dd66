/** The bytes of an rpcbind list: optional data, RFC 4506 section 4.19, and strings, section 4.11. */
module RpcbCodec {
  import opened Bytes

  const MAX_DATA: nat := 9000

  datatype Texts = Texts(netid: seq<byte>, addr: seq<byte>, owner: seq<byte>)
  {
    /** What the codec's size limit allows. */
    predicate Short() { |netid| <= MAX_DATA && |addr| <= MAX_DATA && |owner| <= MAX_DATA }
  }

  datatype Rpcb = Rpcb(prog: word, vers: word, texts: Texts)

  function StringBytes(s: seq<byte>): (r: seq<byte>)
    requires |s| <= MAX_DATA
    ensures |r| == 4 + RoundUp(|s|)
  {
    Be32(|s|) + s + Zeroes(RoundUp(|s|) - |s|)
  }

  function TextBytes(t: Texts): seq<byte>
    requires t.Short()
  {
    StringBytes(t.netid) + (StringBytes(t.addr) + StringBytes(t.owner))
  }

  function RpcbBytes(v: Rpcb): seq<byte>
    requires v.texts.Short()
  {
    Be32(v.prog) + (Be32(v.vers) + TextBytes(v.texts))
  }

  /** The recursive definition: a boolean, and if it is true an element and another list. */
  function ListBytes(list: seq<Rpcb>): seq<byte>
    requires forall v <- list :: v.texts.Short()
  {
    if list == [] then Be32(0) else Be32(1) + (RpcbBytes(list[0]) + ListBytes(list[1..]))
  }

  function ParseString(s: seq<byte>): (r: Option<Parsed<seq<byte>>>)
    ensures r.Some? ==> |r.value.value| <= MAX_DATA && |r.value.rest| == |s| - 4 - RoundUp(|r.value.value|)
  {
    if |s| < 4 then None
    else
      var n := FromBe32(s[..4]);
      if n > MAX_DATA || |s| < 4 + RoundUp(n) then None
      else Some(Parsed(s[4..4 + n], s[4 + RoundUp(n)..]))
  }

  function ParseTexts(s: seq<byte>): (r: Option<Parsed<Texts>>)
    ensures r.Some? ==> r.value.value.Short() && |r.value.rest| == |s| - |TextBytes(r.value.value)|
  {
    match ParseString(s)
    case None => None
    case Some(netid) =>
      match ParseString(netid.rest)
      case None => None
      case Some(addr) =>
        match ParseString(addr.rest)
        case None => None
        case Some(owner) => Some(Parsed(Texts(netid.value, addr.value, owner.value), owner.rest))
  }

  function ParseRpcb(s: seq<byte>): (r: Option<Parsed<Rpcb>>)
    ensures r.Some? ==> r.value.value.texts.Short() && |r.value.rest| == |s| - |RpcbBytes(r.value.value)|
  {
    match ParseWord(s)
    case None => None
    case Some(prog) =>
      match ParseWord(prog.rest)
      case None => None
      case Some(vers) =>
        match ParseTexts(vers.rest)
        case None => None
        case Some(texts) => Some(Parsed(Rpcb(prog.value, vers.value, texts.value), texts.rest))
  }

  function ParseList(s: seq<byte>): (r: Option<Parsed<seq<Rpcb>>>)
    decreases |s|
  {
    match ParseWord(s)
    case None => None
    case Some(more) =>
      if more.value == 0 then Some(Parsed([], more.rest))
      else
        match ParseRpcb(more.rest)
        case None => None
        case Some(first) =>
          match ParseList(first.rest)
          case None => None
          case Some(others) => Some(Parsed([first.value] + others.value, others.rest))
  }

  lemma StringRoundTrip(v: seq<byte>, tail: seq<byte>)
    requires |v| <= MAX_DATA
    ensures ParseString(StringBytes(v) + tail) == Some(Parsed(v, tail))
  {
    var s := StringBytes(v) + tail;
    assert s[..4] == Be32(|v|);
    Be32RoundTrip(|v|);
    assert s[4..4 + |v|] == v && s[4 + RoundUp(|v|)..] == tail;
  }

  lemma TextsRoundTrip(t: Texts, tail: seq<byte>)
    requires t.Short()
    ensures ParseTexts(TextBytes(t) + tail) == Some(Parsed(t, tail))
  {
    var t2 := StringBytes(t.owner) + tail;
    var t1 := StringBytes(t.addr) + t2;
    StringRoundTrip(t.netid, t1);
    StringRoundTrip(t.addr, t2);
    StringRoundTrip(t.owner, tail);
    hide Be32, StringBytes, ParseString;
    Assoc(StringBytes(t.netid), StringBytes(t.addr) + StringBytes(t.owner), tail);
    Assoc(StringBytes(t.addr), StringBytes(t.owner), tail);
  }

  lemma RpcbRoundTrip(v: Rpcb, tail: seq<byte>)
    requires v.texts.Short()
    ensures ParseRpcb(RpcbBytes(v) + tail) == Some(Parsed(v, tail))
  {
    var t2 := TextBytes(v.texts) + tail;
    var t1 := Be32(v.vers) + t2;
    WordRoundTrip(v.prog, t1);
    WordRoundTrip(v.vers, t2);
    TextsRoundTrip(v.texts, tail);
    hide Be32, TextBytes, ParseWord, ParseTexts;
    Assoc(Be32(v.prog), Be32(v.vers) + TextBytes(v.texts), tail);
    Assoc(Be32(v.vers), TextBytes(v.texts), tail);
  }

  lemma ElementBytes(list: seq<Rpcb>, tail: seq<byte>)
    requires list != [] && forall v <- list :: v.texts.Short()
    ensures ListBytes(list) + tail == Be32(1) + (RpcbBytes(list[0]) + (ListBytes(list[1..]) + tail))
  {
    var others := ListBytes(list[1..]);
    assert ListBytes(list) == Be32(1) + (RpcbBytes(list[0]) + others);
    hide Be32, RpcbBytes, ListBytes;
    Assoc(Be32(1), RpcbBytes(list[0]) + others, tail);
    Assoc(RpcbBytes(list[0]), others, tail);
  }

  lemma ParseElement(s: seq<byte>, t1: seq<byte>, t2: seq<byte>, v: Rpcb, others: Parsed<seq<Rpcb>>)
    requires ParseWord(s) == Some(Parsed(1, t1)) && ParseRpcb(t1) == Some(Parsed(v, t2))
             && ParseList(t2) == Some(others)
    ensures ParseList(s) == Some(Parsed([v] + others.value, others.rest))
  {
    hide ParseWord, ParseRpcb;
  }

  /** A string on the wire: its length, which is at most 9000, its octets, and zeroes up to a multiple of four. */
  lemma StringLayout(v: seq<byte>)
    ensures |v| <= MAX_DATA <==> |v| <= 9000
    ensures |v| <= MAX_DATA ==>
              var s := StringBytes(v);
              && |s| % 4 == 0 && |s| < |v| + 8
              && Number(s[..4]) == |v| && s[4..4 + |v|] == v && forall i | 4 + |v| <= i < |s| :: s[i] == 0
  {
    if |v| <= MAX_DATA {
      Be32IsNumber(|v|);
      hide Be32, Number;
      assert StringBytes(v)[..4] == Be32(|v|);
    }
  }

  /** A list on the wire: a word 1 before each element, with its fields in order, and a word 0 at the end. */
  lemma ListLayout(list: seq<Rpcb>)
    requires forall v <- list :: v.texts.Short()
    ensures list == [] ==> ListBytes(list) == [0, 0, 0, 0]
    ensures list != [] ==>
              var e, b := list[0], RpcbBytes(list[0]);
              && ListBytes(list) == [0, 0, 0, 1] + b + ListBytes(list[1..])
              && Number(b[..4]) == e.prog && Number(b[4..8]) == e.vers
              && b[8..] == StringBytes(e.texts.netid) + StringBytes(e.texts.addr) + StringBytes(e.texts.owner)
  {
    assert Be32(0) == [0, 0, 0, 0] && Be32(1) == [0, 0, 0, 1];
    if list != [] {
      assert ListBytes(list) == Be32(1) + (RpcbBytes(list[0]) + ListBytes(list[1..]));
      hide Be32, Number, StringBytes, ListBytes, RpcbBytes;
      ElementLayout(list[0]);
      Assoc(Be32(1), RpcbBytes(list[0]), ListBytes(list[1..]));
    }
  }

  lemma ElementLayout(e: Rpcb)
    requires e.texts.Short()
    ensures var b := RpcbBytes(e);
            && |b| >= 8 && Number(b[..4]) == e.prog && Number(b[4..8]) == e.vers
            && b[8..] == StringBytes(e.texts.netid) + StringBytes(e.texts.addr) + StringBytes(e.texts.owner)
  {
    Be32IsNumber(e.prog);
    Be32IsNumber(e.vers);
    hide Be32, Number, StringBytes;
    InOrder(Be32(e.prog), Be32(e.vers), TextBytes(e.texts));
    Assoc(StringBytes(e.texts.netid), StringBytes(e.texts.addr), StringBytes(e.texts.owner));
  }

  /** Decoding restores a list of any length, and stops where it ends. */
  lemma {:induction false} ListRoundTrip(list: seq<Rpcb>, tail: seq<byte>)
    requires forall v <- list :: v.texts.Short()
    ensures ParseList(ListBytes(list) + tail) == Some(Parsed(list, tail))
  {
    hide Be32, RpcbBytes, ParseWord, ParseRpcb, ParseString;
    if list == [] {
      WordRoundTrip(0, tail);
    } else {
      hide ListBytes, ParseList;
      var t2 := ListBytes(list[1..]) + tail;
      var t1 := RpcbBytes(list[0]) + t2;
      ElementBytes(list, tail);
      WordRoundTrip(1, t1);
      RpcbRoundTrip(list[0], t2);
      ListRoundTrip(list[1..], tail);
      ParseElement(ListBytes(list) + tail, t1, t2, list[0], Parsed(list[1..], tail));
      assert [list[0]] + list[1..] == list;
    }
  }

  /** Whatever is accepted has elements within the limit and the size of its encoding. */
  lemma {:induction false} AcceptedSize(s: seq<byte>)
    requires ParseList(s).Some?
    ensures var r := ParseList(s).value;
            (forall v <- r.value :: v.texts.Short()) && |ListBytes(r.value)| == |s| - |r.rest|
    decreases |s|
  {
    var more := ParseWord(s).value;
    if more.value != 0 {
      var first := ParseRpcb(more.rest).value;
      AcceptedSize(first.rest);
      hide Be32, RpcbBytes, ParseWord, ParseRpcb;
      var others := ParseList(first.rest).value;
      assert ([first.value] + others.value)[1..] == others.value;
    }
  }
}
