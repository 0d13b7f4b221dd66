/** Octets, 32-bit words and the XDR word encoding shared by every stream module. */
module Bytes {
  newtype byte = x: int | 0 <= x < 256

  const TWO_31: nat := 0x8000_0000
  const TWO_32: nat := 0x1_0000_0000

  type word = x: int | 0 <= x < TWO_32

  datatype Option<+T> = None | Some(value: T)

  /** htonl: the most significant octet comes first. */
  function Be32(v: word): (s: seq<byte>)
    ensures |s| == 4
  {
    [(v / 0x100_0000) as byte, (v / 0x1_0000 % 0x100) as byte, (v / 0x100 % 0x100) as byte, (v % 0x100) as byte]
  }

  /** ntohl. */
  function FromBe32(s: seq<byte>): (v: word)
    requires |s| == 4
  {
    s[0] as int * 0x100_0000 + s[1] as int * 0x1_0000 + s[2] as int * 0x100 + s[3] as int
  }

  lemma Be32RoundTrip(v: word)
    ensures FromBe32(Be32(v)) == v
  {
    var a, b, c := v / 0x100_0000, v / 0x1_0000, v / 0x100;
    assert c == b * 0x100 + c % 0x100;
    assert b == a * 0x100 + b % 0x100;
  }

  lemma FromBe32RoundTrip(s: seq<byte>)
    requires |s| == 4
    ensures Be32(FromBe32(s)) == s
  {
    var v := FromBe32(s);
    var b := s[0] as int * 0x100 + s[1] as int;
    var c := b * 0x100 + s[2] as int;
    DivMod256(c, s[3] as int);
    DivMod256(b, s[2] as int);
    DivMod256(s[0] as int, s[1] as int);
    assert v == c * 0x100 + s[3] as int;
    assert v / 0x1_0000 == v / 0x100 / 0x100;
    assert v / 0x100_0000 == v / 0x100 / 0x100 / 0x100;
  }

  /** The number that octets write, the first one counting most. */
  function Number(s: seq<byte>): nat {
    if s == [] then 0 else Number(s[..|s| - 1]) * 256 + s[|s| - 1] as int
  }

  lemma NumberOfFour(a: byte, b: byte, c: byte, d: byte)
    ensures Number([a, b, c, d]) == ((a as int * 256 + b as int) * 256 + c as int) * 256 + d as int
  {
    assert [a, b, c, d][..3] == [a, b, c] && [a, b, c][..2] == [a, b] && [a, b][..1] == [a] && [a][..0] == [];
    assert Number([]) == 0;
    assert Number([a]) == a as int;
    assert Number([a, b]) == Number([a]) * 256 + b as int;
    assert Number([a, b, c]) == Number([a, b]) * 256 + c as int;
  }

  /** A word read is the number its octets write. */
  lemma FromBe32IsNumber(s: seq<byte>)
    requires |s| == 4
    ensures FromBe32(s) == Number(s)
  {
    assert s == [s[0], s[1], s[2], s[3]];
    NumberOfFour(s[0], s[1], s[2], s[3]);
  }

  /** And a word written is written as that number. */
  lemma Be32IsNumber(v: word)
    ensures Number(Be32(v)) == v
  {
    Be32RoundTrip(v);
    FromBe32IsNumber(Be32(v));
  }

  /** The order of a dictionary. */
  predicate Earlier(s: seq<byte>, t: seq<byte>)
    requires |s| == |t|
  {
    exists k | 0 <= k < |s| :: s[..k] == t[..k] && s[k] < t[k]
  }

  /** Words are in the order of their octets. */
  lemma Be32Order(v: word, w: word)
    ensures v < w <==> Earlier(Be32(v), Be32(w))
  {
    var s, t := Be32(v), Be32(w);
    Be32RoundTrip(v);
    Be32RoundTrip(w);
    hide Be32;
    NumbersInOrder(s, t);
    NumbersInOrder(t, s);
    if !Earlier(s, t) && !Earlier(t, s) { NeitherEarlier(s, t); }
  }

  lemma NumbersInOrder(s: seq<byte>, t: seq<byte>)
    requires |s| == |t| == 4
    ensures Earlier(s, t) ==> FromBe32(s) < FromBe32(t)
  {
    if Earlier(s, t) {
      var k :| 0 <= k < 4 && s[..k] == t[..k] && s[k] < t[k];
      assert forall i | 0 <= i < k :: s[i] == s[..k][i] == t[..k][i] == t[i];
    }
  }

  lemma NeitherEarlier(s: seq<byte>, t: seq<byte>)
    requires |s| == |t| == 4 && !Earlier(s, t) && !Earlier(t, s)
    ensures s == t
  {
    forall k | 0 <= k < 4 && s[..k] == t[..k] ensures s[k] == t[k] && s[..k + 1] == t[..k + 1] {}
    assert s[..0] == t[..0];
    assert s[..1] == t[..1];
    assert s[..2] == t[..2];
    assert s[..3] == t[..3];
    assert s[..4] == t[..4] && s[..4] == s && t[..4] == t;
  }

  lemma DivMod256(q: int, r: int)
    requires 0 <= r < 0x100
    ensures (q * 0x100 + r) / 0x100 == q && (q * 0x100 + r) % 0x100 == r
  {}

  /** Words have one encoding only. */
  lemma Be32Injective(v: word, w: word)
    requires Be32(v) == Be32(w)
    ensures v == w
  {
    Be32RoundTrip(v);
    Be32RoundTrip(w);
  }

  /** RNDUP: the number of octets XDR uses for `n` octets of opaque data. */
  function RoundUp(n: nat): (r: nat)
    ensures n <= r < n + 4 && r % 4 == 0
  {
    (n + 3) / 4 * 4
  }

  /** On a boundary of BYTES_PER_XDR_UNIT octets. */
  predicate OnWord(n: int) {
    n % 4 == 0
  }

  lemma OnWordSum(x: int, y: int)
    ensures OnWord(x) && OnWord(y) ==> OnWord(x + y) && OnWord(x - y)
    ensures OnWord(0) && OnWord(4)
  {
    if OnWord(x) && OnWord(y) {
      Words(x / 4 + y / 4);
      Words(x / 4 - y / 4);
    }
  }

  lemma Words(k: int)
    ensures OnWord(4 * k)
  {}

  lemma InOrder(a: seq<byte>, b: seq<byte>, c: seq<byte>)
    requires |a| == |b| == 4
    ensures var s := a + (b + c); s[..4] == a && s[4..8] == b && s[8..] == c && s[..8] == a + b
  {}

  lemma Assoc<T>(a: seq<T>, b: seq<T>, c: seq<T>)
    ensures a + (b + c) == a + b + c
  {}

  function Zeroes(n: nat): (z: seq<byte>)
    ensures |z| == n
  {
    seq(n, _ => 0)
  }

  /** A value read from the front of a sequence of octets, and what follows it. */
  datatype Parsed<+T> = Parsed(value: T, rest: seq<byte>)

  function ParseWord(s: seq<byte>): (r: Option<Parsed<word>>)
    ensures r.Some? ==> |r.value.rest| == |s| - 4
  {
    if |s| < 4 then None else Some(Parsed(FromBe32(s[..4]), s[4..]))
  }

  lemma WordRoundTrip(w: word, tail: seq<byte>)
    ensures ParseWord(Be32(w) + tail) == Some(Parsed(w, tail))
  {
    var s := Be32(w) + tail;
    assert s[..4] == Be32(w) && s[4..] == tail;
    Be32RoundTrip(w);
  }

  /** Two pieces, of which either may be impossible to encode, one after the other. */
  function Both(a: Option<seq<byte>>, b: Option<seq<byte>>): Option<seq<byte>> {
    if a.Some? && b.Some? then Some(a.value + b.value) else None
  }

  /** Two pieces written one after the other: `mid` is the buffer in between. */
  lemma Glue(mid: seq<byte>, end: seq<byte>, a: nat, b: nat, c: nat)
    requires a <= b <= c <= |end| && b <= |mid| && mid[..b] == end[..b]
    ensures end[a..c] == mid[a..b] + end[b..c] && end[..a] == mid[..a]
  {
    assert end[a..b] == end[..b][a..];
    assert mid[a..b] == mid[..b][a..];
    assert end[..a] == end[..b][..a];
    assert mid[..a] == mid[..b][..a];
  }
}
