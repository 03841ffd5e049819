/**
 The machine integers the metaserver computes with, and the order in which their bytes
 travel.  The host's own byte order is a parameter, so that htonl() and ntohl() can be
 modelled as what they do on that host.
 */
module Wire {

  type Byte = x: int | 0 <= x < 0x100
  type Int8 = x: int | -0x80 <= x < 0x80
  type UInt16 = x: int | 0 <= x < 0x1_0000
  type Int16 = x: int | -0x8000 <= x < 0x8000
  type UInt32 = x: int | 0 <= x < 0x1_0000_0000
  type Int32 = x: int | -0x8000_0000 <= x < 0x8000_0000

  datatype Option<+T> = None | Some(value: T)

  datatype Host = LittleEndian | BigEndian

  // Integral conversions: the value modulo a power of two, then the two's complement reading.

  function ToByte(x: int): Byte { x % 0x100 }

  function ToInt8(x: int): Int8 {
    if x % 0x100 < 0x80 then x % 0x100 else x % 0x100 - 0x100
  }

  function ToUInt16(x: int): UInt16 { x % 0x1_0000 }

  function ToInt16(x: int): Int16 {
    if x % 0x1_0000 < 0x8000 then x % 0x1_0000 else x % 0x1_0000 - 0x1_0000
  }

  function ToUInt32(x: int): UInt32 { x % 0x1_0000_0000 }

  function ToInt32(x: int): Int32 {
    if x % 0x1_0000_0000 < 0x8000_0000 then x % 0x1_0000_0000 else x % 0x1_0000_0000 - 0x1_0000_0000
  }

  /** Passing a value through a signed variable of the same width, or back, loses nothing. */
  lemma ConversionsInvert(u: UInt32, i: Int32, v: UInt16, j: Int16, b: Byte, c: Int8)
    ensures ToUInt32(ToInt32(u)) == u && ToInt32(ToUInt32(i)) == i
    ensures ToUInt16(ToInt16(v)) == v && ToInt16(ToUInt16(j)) == j
    ensures ToByte(ToInt8(b)) == b && ToInt8(ToByte(c)) == c
  {}

  lemma Multiples(q: int)
    ensures q * 0x100 % 0x100 == 0 && q * 0x1_0000 % 0x1_0000 == 0 && q * 0x1_0000_0000 % 0x1_0000_0000 == 0
  {}

  /** A conversion changes a value by a multiple of the width only, and a signed 32-bit value that is in
      range not at all. */
  lemma ConversionsCongruent(x: int)
    ensures (ToByte(x) - x) % 0x100 == 0 && (ToInt8(x) - x) % 0x100 == 0
    ensures (ToUInt16(x) - x) % 0x1_0000 == 0 && (ToInt16(x) - x) % 0x1_0000 == 0
    ensures (ToUInt32(x) - x) % 0x1_0000_0000 == 0 && (ToInt32(x) - x) % 0x1_0000_0000 == 0
    ensures -0x8000_0000 <= x < 0x8000_0000 ==> ToInt32(x) == x
  {
    Multiples(-(x / 0x100));
    Multiples(-(x / 0x100) - 1);
    assert ToByte(x) - x == -(x / 0x100) * 0x100;
    Multiples(-(x / 0x1_0000));
    Multiples(-(x / 0x1_0000) - 1);
    assert ToUInt16(x) - x == -(x / 0x1_0000) * 0x1_0000;
    Multiples(-(x / 0x1_0000_0000));
    Multiples(-(x / 0x1_0000_0000) - 1);
    assert ToUInt32(x) - x == -(x / 0x1_0000_0000) * 0x1_0000_0000;
  }

  // Network byte order: most significant byte first.

  function Big32(x: UInt32): (bs: seq<Byte>)
    ensures |bs| == 4
  {
    [x / 0x100_0000, x / 0x1_0000 % 0x100, x / 0x100 % 0x100, x % 0x100]
  }

  function Big16(x: UInt16): (bs: seq<Byte>)
    ensures |bs| == 2
  {
    [x / 0x100, x % 0x100]
  }

  /** The value of bytes written most significant first. */
  function BigEndianValue(bs: seq<Byte>): nat {
    if bs == [] then 0 else BigEndianValue(bs[..|bs| - 1]) * 0x100 + bs[|bs| - 1]
  }

  lemma FourBytes(b0: Byte, b1: Byte, b2: Byte, b3: Byte)
    ensures BigEndianValue([b0, b1]) == b0 * 0x100 + b1
    ensures BigEndianValue([b0, b1, b2, b3]) == b0 * 0x100_0000 + b1 * 0x1_0000 + b2 * 0x100 + b3
  {
    assert [b0][..0] == [] && [b0, b1][..1] == [b0];
    assert [b0, b1, b2][..2] == [b0, b1] && [b0, b1, b2, b3][..3] == [b0, b1, b2];
    assert BigEndianValue([b0]) == b0;
    assert BigEndianValue([b0, b1]) == b0 * 0x100 + b1;
    assert BigEndianValue([b0, b1, b2]) == (b0 * 0x100 + b1) * 0x100 + b2;
  }

  /** A 32-bit word travels most significant byte first, and is read so. */
  lemma WordBytes32(x: UInt32, bs: seq<Byte>)
    ensures var be := Big32(x);
            be[0] as int * 0x100_0000 + be[1] as int * 0x1_0000 + be[2] as int * 0x100 + be[3] == x
    ensures BigEndianValue(Big32(x)) == x
    ensures |bs| == 4 ==> Word32(bs, 0) == BigEndianValue(bs)
  {
    var be := Big32(x);
    JoinWord32(x);
    FourBytes(be[0], be[1], be[2], be[3]);
    if |bs| == 4 {
      FourBytes(bs[0], bs[1], bs[2], bs[3]);
      assert bs == [bs[0], bs[1], bs[2], bs[3]];
    }
  }

  lemma WordBytes16(x: UInt16, bs: seq<Byte>)
    ensures Big16(x)[0] as int * 0x100 + Big16(x)[1] == x
    ensures BigEndianValue(Big16(x)) == x
    ensures |bs| == 2 ==> Word16(bs, 0) == BigEndianValue(bs)
  {
    var be := Big16(x);
    FourBytes(be[0], be[1], 0, 0);
    if |bs| == 2 {
      FourBytes(bs[0], bs[1], 0, 0);
      assert bs == [bs[0], bs[1]];
    }
  }

  /** The word whose network-order bytes start at index `at`. */
  function Word32(bs: seq<Byte>, at: nat): UInt32
    requires at + 4 <= |bs|
  {
    ((bs[at] as int * 0x100 + bs[at + 1]) * 0x100 + bs[at + 2]) * 0x100 + bs[at + 3]
  }

  function Word16(bs: seq<Byte>, at: nat): UInt16
    requires at + 2 <= |bs|
  {
    bs[at] as int * 0x100 + bs[at + 1]
  }

  lemma SplitWord32(b0: Byte, b1: Byte, b2: Byte, b3: Byte)
    ensures var x := ((b0 * 0x100 + b1) * 0x100 + b2) * 0x100 + b3;
            0 <= x < 0x1_0000_0000 && x / 0x100_0000 == b0 && x / 0x1_0000 % 0x100 == b1
            && x / 0x100 % 0x100 == b2 && x % 0x100 == b3
  {
    var x := ((b0 * 0x100 + b1) * 0x100 + b2) * 0x100 + b3;
    assert x / 0x100 == (b0 * 0x100 + b1) * 0x100 + b2;
    assert x / 0x1_0000 == b0 * 0x100 + b1;
  }

  lemma JoinWord32(x: UInt32)
    ensures ((x / 0x100_0000 * 0x100 + x / 0x1_0000 % 0x100) * 0x100 + x / 0x100 % 0x100) * 0x100 + x % 0x100 == x
  {
    assert x == x / 0x100 * 0x100 + x % 0x100;
    var y := x / 0x100;
    assert x / 0x1_0000 == y / 0x100;
    assert y == y / 0x100 * 0x100 + y % 0x100;
    assert x / 0x100_0000 == y / 0x100 / 0x100;
  }

  /** Reading the bytes of a word anywhere inside a longer message gives the word back. */
  lemma Word32OfBig32(before: seq<Byte>, x: UInt32, after: seq<Byte>)
    ensures Word32(before + Big32(x) + after, |before|) == x
  {
    var bs := before + Big32(x) + after;
    assert forall k :: 0 <= k < 4 ==> bs[|before| + k] == Big32(x)[k];
    JoinWord32(x);
  }

  lemma Word16OfBig16(before: seq<Byte>, x: UInt16, after: seq<Byte>)
    ensures Word16(before + Big16(x) + after, |before|) == x
  {
    var bs := before + Big16(x) + after;
    assert forall k :: 0 <= k < 2 ==> bs[|before| + k] == Big16(x)[k];
  }

  /** A message body made of 32-bit words only, as every message of the protocol is. */
  function Words(ws: seq<UInt32>): (bs: seq<Byte>)
    ensures |bs| == 4 * |ws|
  {
    if ws == [] then [] else Words(ws[..|ws| - 1]) + Big32(ws[|ws| - 1])
  }

  lemma WordsAppend(ws: seq<UInt32>, w: UInt32)
    ensures Words(ws + [w]) == Words(ws) + Big32(w)
  {
    assert (ws + [w])[..|ws|] == ws;
  }

  lemma FewWords(a: UInt32, b: UInt32, c: UInt32)
    ensures Words([a]) == Big32(a)
    ensures Words([a, b]) == Big32(a) + Big32(b)
    ensures Words([a, b, c]) == Big32(a) + Big32(b) + Big32(c)
  {
    WordsAppend([], a);
    WordsAppend([a], b);
    WordsAppend([a, b], c);
    assert [] + [a] == [a] && [a] + [b] == [a, b] && [a, b] + [c] == [a, b, c];
  }

  /** The i-th word of a message sits at byte 4 * i, whatever follows the message. */
  lemma {:induction false} WordsAt(ws: seq<UInt32>, after: seq<Byte>, i: nat)
    requires i < |ws|
    ensures Word32(Words(ws) + after, 4 * i) == ws[i]
  {
    var n := |ws| - 1;
    var front := Words(ws[..n]);
    if i == n {
      Word32OfBig32(front, ws[n], after);
    } else {
      WordsAt(ws[..n], Big32(ws[n]) + after, i);
      assert Words(ws) + after == front + (Big32(ws[n]) + after);
    }
  }

  // How a host lays a word out in memory, and its htonl()/ntohl().

  function Reversed(bs: seq<Byte>): (r: seq<Byte>)
    ensures |r| == |bs|
  {
    seq(|bs|, i requires 0 <= i < |bs| => bs[|bs| - 1 - i])
  }

  function Store32(host: Host, x: UInt32): (bs: seq<Byte>)
    ensures |bs| == 4
  {
    if host.BigEndian? then Big32(x) else Reversed(Big32(x))
  }

  function Load32(host: Host, bs: seq<Byte>): UInt32
    requires |bs| == 4
  {
    Word32(if host.BigEndian? then bs else Reversed(bs), 0)
  }

  function Store16(host: Host, x: UInt16): (bs: seq<Byte>)
    ensures |bs| == 2
  {
    if host.BigEndian? then Big16(x) else Reversed(Big16(x))
  }

  function Load16(host: Host, bs: seq<Byte>): UInt16
    requires |bs| == 2
  {
    Word16(if host.BigEndian? then bs else Reversed(bs), 0)
  }

  /** In memory the bytes of a word stand most significant first on a big-endian host, and least
      significant first on a little-endian one. */
  lemma HostLayout(x: UInt32, v: UInt16)
    ensures BigEndianValue(Store32(BigEndian, x)) == x && BigEndianValue(Reversed(Store32(LittleEndian, x))) == x
    ensures BigEndianValue(Store16(BigEndian, v)) == v && BigEndianValue(Reversed(Store16(LittleEndian, v))) == v
  {
    assert Reversed(Reversed(Big32(x))) == Big32(x);
    assert Reversed(Reversed(Big16(v))) == Big16(v);
    WordBytes32(x, []);
    WordBytes16(v, []);
  }

  /** htonl() and ntohl() are the same byte swap, present only on little-endian hosts. */
  function Htonl(host: Host, x: UInt32): UInt32 {
    if host.BigEndian? then x else Word32(Reversed(Big32(x)), 0)
  }

  function Htons(host: Host, x: UInt16): UInt16 {
    if host.BigEndian? then x else Word16(Reversed(Big16(x)), 0)
  }

  /** Whatever the host, storing htonl(x) writes x most significant byte first. */
  lemma StoreIsNetworkOrder32(host: Host, x: UInt32)
    ensures Store32(host, Htonl(host, x)) == Big32(x)
  {
    if host.LittleEndian? {
      var r := Reversed(Big32(x));
      SplitWord32(r[0], r[1], r[2], r[3]);
      assert Big32(Word32(r, 0)) == r;
    }
  }

  /** Whatever the host, ntohl() of a loaded word is the network-order reading of its bytes. */
  lemma LoadIsNetworkOrder32(host: Host, bs: seq<Byte>)
    requires |bs| == 4
    ensures Htonl(host, Load32(host, bs)) == Word32(bs, 0)
  {
    if host.LittleEndian? {
      SplitWord32(bs[3], bs[2], bs[1], bs[0]);
    }
  }

  lemma StoreIsNetworkOrder16(host: Host, x: UInt16)
    ensures Store16(host, Htons(host, x)) == Big16(x)
  {
    if host.LittleEndian? {
      assert Big16(Word16(Reversed(Big16(x)), 0)) == Reversed(Big16(x));
    }
  }

  lemma LoadIsNetworkOrder16(host: Host, bs: seq<Byte>)
    requires |bs| == 2
    ensures Htons(host, Load16(host, bs)) == Word16(bs, 0)
  {}
}
