/** Bytes and the little-endian integers the storage engine writes into its buffers. */
module Bytes {

  type byte = b: int | 0 <= b < 0x100

  /** Bytes of a page, common/config.go. */
  const PAGE_SIZE: nat := 4096

  const U16: int := 0x1_0000
  const U31: int := 0x8000_0000
  const U32: int := 0x1_0000_0000

  /** The four little-endian bytes of a uint32. */
  function Enc32(v: int): (s: seq<byte>)
    requires 0 <= v < U32
    ensures |s| == 4
  {
    [v % 0x100, v / 0x100 % 0x100, v / 0x1_0000 % 0x100, v / 0x100_0000]
  }

  /** The uint32 stored at offset `o`. */
  function Dec32(s: seq<byte>, o: nat): (v: int)
    requires o + 4 <= |s|
    ensures 0 <= v < U32
  {
    s[o] as int + 0x100 * s[o + 1] as int + 0x1_0000 * s[o + 2] as int + 0x100_0000 * s[o + 3] as int
  }

  /** Go's int32 to uint32 conversion: two's complement. */
  function ToU32(v: int): (u: int)
    requires -U31 <= v < U31
    ensures 0 <= u < U32
  {
    if v < 0 then v + U32 else v
  }

  function ToI32(u: int): (v: int)
    requires 0 <= u < U32
    ensures -U31 <= v < U31
  {
    if u < U31 then u else u - U32
  }

  /** Bytes `o .. o+|b|` of `s` replaced by `b`: what Go's `copy(s[o:], b)` leaves when there is room. */
  function Splice(s: seq<byte>, o: nat, b: seq<byte>): (r: seq<byte>)
    requires o + |b| <= |s|
    ensures |r| == |s|
    ensures forall p | 0 <= p < |s| :: r[p] == if o <= p < o + |b| then b[p - o] else s[p]
    ensures r[o..o + |b|] == b
  {
    s[..o] + b + s[o + |b|..]
  }

  /** The uint32 at offset `o` set to `v`. */
  function PutWord(s: seq<byte>, o: nat, v: int): (r: seq<byte>)
    requires o + 4 <= |s| && 0 <= v < U32
    ensures |r| == |s|
    ensures forall p | 0 <= p < |s| && !(o <= p < o + 4) :: r[p] == s[p]
  {
    Splice(s, o, Enc32(v))
  }

  lemma WordPut(s: seq<byte>, o: nat, v: int, p: nat)
    requires o + 4 <= |s| && 0 <= v < U32 && p + 4 <= |s| && (p == o || p + 4 <= o || o + 4 <= p)
    ensures Dec32(PutWord(s, o, v), p) == if p == o then v else Dec32(s, p)
  {
    if p == o {
      DecEnc32(PutWord(s, o, v), o, v);
    } else {
      WordKept(s, o, Enc32(v), p);
    }
  }

  lemma WordKept(s: seq<byte>, o: nat, b: seq<byte>, p: nat)
    requires o + |b| <= |s| && p + 4 <= |s| && (p + 4 <= o || o + |b| <= p)
    ensures Dec32(Splice(s, o, b), p) == Dec32(s, p)
  {
    var t := Splice(s, o, b);
    assert t[p] == s[p] && t[p + 1] == s[p + 1] && t[p + 2] == s[p + 2] && t[p + 3] == s[p + 3];
  }

  lemma DecEnc32(s: seq<byte>, o: nat, v: int)
    requires 0 <= v < U32 && o + 4 <= |s| && s[o..o + 4] == Enc32(v)
    ensures Dec32(s, o) == v
  {
    var e := s[o..o + 4];
    assert s[o] == e[0] && s[o + 1] == e[1] && s[o + 2] == e[2] && s[o + 3] == e[3];
    assert v == v % 0x100 + 0x100 * (v / 0x100);
    assert v / 0x1_0000 == v / 0x100 / 0x100;
    assert v / 0x100_0000 == v / 0x1_0000 / 0x100;
  }

  lemma Dec32Same(s: seq<byte>, t: seq<byte>, o: nat, o': nat)
    requires o + 4 <= |s| && o' + 4 <= |t| && s[o..o + 4] == t[o'..o' + 4]
    ensures Dec32(s, o) == Dec32(t, o')
  {
    var e := s[o..o + 4];
    var f := t[o'..o' + 4];
    assert e[0] == f[0] && e[1] == f[1] && e[2] == f[2] && e[3] == f[3];
  }

  /** Writing back the word that is already there changes nothing. */
  lemma WordAgain(s: seq<byte>, o: nat)
    requires o + 4 <= |s|
    ensures PutWord(s, o, Dec32(s, o)) == s
  {
    var b0, b1, b2, b3 := s[o] as int, s[o + 1] as int, s[o + 2] as int, s[o + 3] as int;
    var v := Dec32(s, o);
    assert v == b0 + 0x100 * (b1 + 0x100 * (b2 + 0x100 * b3));
    assert v / 0x100 == b1 + 0x100 * (b2 + 0x100 * b3) && v % 0x100 == b0;
    assert v / 0x1_0000 == v / 0x100 / 0x100 == b2 + 0x100 * b3;
    assert Enc32(v) == s[o..o + 4];
  }
}
