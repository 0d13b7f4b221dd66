/** XDR over a memory buffer, and the field routines the message codecs are built from. */
module XdrMem {
  import opened Bytes

  /** A stream positioned in a buffer; `aligned` is decided by the address it was created at. */
  class MemStream {
    const buf: array<byte>
    const base: nat
    const aligned: bool
    var pos: nat    // x_private
    var handy: nat  // octets left

    ghost predicate Valid()
      reads this
    {
      base <= pos && pos + handy <= buf.Length < TWO_32
    }

    /** What is left to read, or room left to write. */
    ghost function Unread(): seq<byte>
      requires Valid()
      reads this, buf
    {
      buf[pos..pos + handy]
    }

    /** xdrmem_create. */
    constructor (buf: array<byte>, addr: nat, size: nat, wordAligned: bool)
      requires addr + size <= buf.Length < TWO_32
      ensures Valid() && this.buf == buf && pos == base == addr && handy == size && aligned == wordAligned
    {
      this.buf, base, aligned := buf, addr, wordAligned;
      pos, handy := addr, size;
    }

    /** The state after `n` octets were taken. */
    twostate predicate Moved(n: nat)
      reads this
    {
      pos == old(pos) + n && handy == old(handy) - n
    }

    /** An attempt to write `bytes`, if there are any to write, at the position. */
    twostate predicate Wrote(ok: bool, bytes: Option<seq<byte>>)
      requires old(Valid())
      reads this, buf
    {
      && Valid()
      && buf[..old(pos)] == old(buf[..pos])
      && (ok <==> bytes.Some? && |bytes.value| <= old(handy))
      && (ok ==> Moved(|bytes.value|) && buf[old(pos)..pos] == bytes.value)
    }

    method Inline(len: nat) returns (at: Option<nat>)
      requires Valid()
      modifies `pos, `handy
      ensures Valid()
      ensures at.Some? <==> aligned && old(handy) >= len
      ensures at.Some? ==> at.value == old(pos) && Moved(len)
      ensures at.None? ==> Moved(0)
    {
      if aligned && handy >= len {
        at := Some(pos);
        pos, handy := pos + len, handy - len;
      } else {
        at := None;
      }
    }

    method GetLong() returns (ok: bool, w: word)
      requires Valid()
      modifies `pos, `handy
      ensures Valid()
      ensures ok <==> old(handy) >= 4
      ensures ok ==> w == FromBe32(old(Unread())[..4]) == Number(old(Unread())[..4]) && Moved(4)
      ensures !ok ==> Moved(0)
    {
      hide FromBe32;
      if handy < 4 {
        return false, 0;
      }
      w := FromBe32(buf[pos..pos + 4]);
      FromBe32IsNumber(buf[pos..pos + 4]);
      hide Number;
      assert buf[pos..pos + 4] == Unread()[..4];
      pos, handy := pos + 4, handy - 4;
      ok := true;
    }

    /** The same, seen from the parser. */
    method GetWord() returns (ok: bool, w: word)
      requires Valid()
      modifies `pos, `handy
      ensures Valid()
      ensures var r := ParseWord(old(Unread()));
              ok == r.Some? && (ok ==> r.value == Parsed(w, Unread()))
      ensures !ok ==> Unread() == old(Unread())
    {
      ghost var all := Unread();
      ok, w := GetLong();
      assert ok ==> Unread() == all[4..];
    }

    method PutLong(w: word) returns (ok: bool)
      requires Valid()
      modifies `pos, `handy, buf
      ensures Valid()
      ensures ok <==> old(handy) >= 4
      ensures ok ==> Moved(4) && buf[old(pos)..pos] == Be32(w) && Number(buf[old(pos)..pos]) == w
      ensures !ok ==> Moved(0)
      ensures buf[..old(pos)] == old(buf[..pos])
    {
      if handy < 4 {
        return false;
      }
      Be32IsNumber(w);
      hide Number;
      Store(pos, Be32(w));
      pos, handy := pos + 4, handy - 4;
      ok := true;
    }

    method GetBytes(len: nat) returns (ok: bool, data: seq<byte>)
      requires Valid()
      modifies `pos, `handy
      ensures Valid()
      ensures ok <==> old(handy) >= len
      ensures ok ==> data == old(Unread())[..len] && Moved(len)
      ensures !ok ==> Moved(0)
    {
      if handy < len {
        return false, [];
      }
      data := buf[pos..pos + len];
      assert data == Unread()[..len];
      pos, handy := pos + len, handy - len;
      ok := true;
    }

    method PutBytes(data: seq<byte>) returns (ok: bool)
      requires Valid()
      modifies `pos, `handy, buf
      ensures Valid()
      ensures ok <==> old(handy) >= |data|
      ensures ok ==> Moved(|data|) && buf[old(pos)..pos] == data
      ensures !ok ==> Moved(0)
      ensures buf[..old(pos)] == old(buf[..pos])
    {
      if handy < |data| {
        return false;
      }
      Store(pos, data);
      pos, handy := pos + |data|, handy - |data|;
      ok := true;
    }

    /** A store through a pointer into the buffer. */
    method Store(at: nat, s: seq<byte>)
      requires at + |s| <= buf.Length
      modifies buf
      ensures buf[..at] == old(buf[..at]) && buf[at..at + |s|] == s
      ensures buf[at + |s|..] == old(buf[at + |s|..])
    {
      forall i | 0 <= i < |s| {
        buf[at + i] := s[i];
      }
    }

    /** xdrmem_getpos and xdrmem_setpos. */
    function GetPos(): nat
      requires Valid()
      reads this
    {
      pos - base
    }

    method SetPos(p: nat) returns (ok: bool)
      requires Valid()
      modifies `pos, `handy
      ensures Valid()
      ensures ok <==> base + p <= old(pos + handy)
      ensures ok ==> GetPos() == p
      ensures pos + handy == old(pos + handy)
      ensures !ok ==> Moved(0)
    {
      var last := pos + handy;
      if base + p > last {
        return false;
      }
      pos, handy := base + p, last - (base + p);
      ok := true;
    }

    // ---- xdr.c ---------------------------------------------------------------------------------------

    /** xdr_opaque while decoding: the octets, then their padding. */
    method DecodeOpaque(cnt: nat) returns (ok: bool, data: seq<byte>)
      requires Valid()
      modifies `pos, `handy
      ensures Valid()
      ensures ok <==> old(handy) >= RoundUp(cnt)
      ensures ok ==> data == old(Unread())[..cnt] && Moved(RoundUp(cnt))
    {
      if cnt == 0 {
        return true, [];
      }
      var rndup := cnt % 4;
      if rndup > 0 {
        rndup := 4 - rndup;
      }
      assert cnt + rndup == RoundUp(cnt);
      ok, data := GetBytes(cnt);
      if ok && rndup != 0 {
        var crud;
        ok, crud := GetBytes(rndup);
      }
    }

    /** xdr_opaque while encoding: the octets, then zeroes. */
    method EncodeOpaque(data: seq<byte>) returns (ok: bool)
      requires Valid()
      modifies `pos, `handy, buf
      ensures Valid()
      ensures ok <==> old(handy) >= RoundUp(|data|)
      ensures ok ==> Moved(RoundUp(|data|)) && buf[old(pos)..pos] == data + seq(RoundUp(|data|) - |data|, _ => 0)
      ensures buf[..old(pos)] == old(buf[..pos])
    {
      ghost var start := pos;
      if |data| == 0 {
        return true;
      }
      var rndup := |data| % 4;
      if rndup > 0 {
        rndup := 4 - rndup;
      }
      assert |data| + rndup == RoundUp(|data|);
      ok := PutBytes(data);
      if ok && rndup != 0 {
        ghost var first := buf[..];
        ok := PutBytes(seq(rndup, _ => 0));
        if ok { Glue(first, buf[..], start, start + |data|, pos); }
      }
    }

    /** xdr_bytes while decoding, for octets of at most `max`. */
    method DecodeBytes(max: nat) returns (ok: bool, data: seq<byte>)
      requires Valid()
      modifies `pos, `handy
      ensures Valid()
      ensures old(handy) < 4 ==> !ok
      ensures old(handy) >= 4 ==>
                var n := FromBe32(old(Unread())[..4]);
                ok <==> n <= max && old(handy) >= 4 + RoundUp(n)
      ensures ok ==> var n := FromBe32(old(Unread())[..4]);
                     data == old(Unread())[4..4 + n] && Moved(4 + RoundUp(n))
    {
      hide FromBe32;
      var size;
      ghost var all := Unread();
      ok, size := GetLong();
      if !ok || size > max {
        return false, [];
      }
      if size == 0 {
        return true, [];
      }
      assert Unread() == all[4..];
      ok, data := DecodeOpaque(size);
      assert ok ==> all[4..][..size] == all[4..4 + size];
    }

    /** xdr_bytes while encoding. */
    method EncodeBytes(data: seq<byte>, max: nat) returns (ok: bool)
      requires Valid() && |data| < TWO_32
      modifies `pos, `handy, buf
      ensures Valid()
      ensures ok <==> |data| <= max && old(handy) >= 4 + RoundUp(|data|)
      ensures ok ==> Moved(4 + RoundUp(|data|))
      ensures ok ==> buf[old(pos)..pos] == Be32(|data|) + data + seq(RoundUp(|data|) - |data|, _ => 0)
      ensures buf[..old(pos)] == old(buf[..pos])
    {
      hide Be32;
      ghost var start := pos;
      ok := PutLong(|data|);
      if !ok || |data| > max {
        return false;
      }
      ghost var first := buf[..pos];
      ok := EncodeOpaque(data);
      assert buf[start..start + 4] == first[start..];
      assert buf[..start] == first[..start];
      assert ok ==> buf[start..pos] == buf[start..start + 4] + buf[start + 4..pos];
    }
  }
}
