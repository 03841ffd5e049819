/**
 The message classes.  Each holds its NetMsg part and supplies its own Pack() and Unpack();
 the packing getters of the base class call the Pack() of the message they belong to.
 */
module Messages {
  import opened Wire
  import opened NetMessage

  /** The handshake reply of the metaserver. */
  function HandshakeBytes(h: UInt32): seq<Byte> { Words([NMT_HANDSHAKE, h]) }

  lemma SmallWord(n: Byte)
    ensures Words([n]) == [0, 0, 0, n]
  {
    FewWords(n, 0, 0);
  }

  /** The first four bytes of every type of message. */
  lemma TypeBytes()
    ensures Words([NMT_SERVERKEEPALIVE]) == [0, 0, 0, 1]
    ensures Words([NMT_CLIENTKEEPALIVE]) == [0, 0, 0, 2]
    ensures Words([NMT_HANDSHAKE]) == [0, 0, 0, 3]
    ensures Words([NMT_SERVERSHAKE]) == [0, 0, 0, 4]
    ensures Words([NMT_CLIENTSHAKE]) == [0, 0, 0, 5]
    ensures Words([NMT_TERMINATE]) == [0, 0, 0, 6]
    ensures Words([NMT_LISTREQ]) == [0, 0, 0, 7]
    ensures Words([NMT_LISTRESP]) == [0, 0, 0, 8]
    ensures Words([NMT_PROTO_ERANGE]) == [0, 0, 0, 9]
  {
    SmallWord(1);
    SmallWord(2);
    SmallWord(3);
    SmallWord(4);
    SmallWord(5);
    SmallWord(6);
    SmallWord(7);
    SmallWord(8);
    SmallWord(9);
  }

  /** A message of two words: the four bytes of its type and the four bytes of its value. */
  lemma TwoWordBytes(t: UInt32, w: UInt32)
    ensures |Words([t, w])| == 8 && Words([t, w])[..4] == Words([t])
    ensures BigEndianValue(Words([t, w])[4..]) == w
  {
    FewWords(t, w, 0);
    WordBytes32(w, []);
    assert Words([t, w])[4..] == Big32(w);
  }

  /** The handshake reply in bytes. */
  lemma HandshakeReplyBytes(h: UInt32)
    ensures |HandshakeBytes(h)| == 8 && HandshakeBytes(h)[..4] == [0, 0, 0, 3]
    ensures BigEndianValue(HandshakeBytes(h)[4..]) == h
  {
    TypeBytes();
    TwoWordBytes(NMT_HANDSHAKE, h);
  }

  function ThreeWords(a: UInt32, b: UInt32, c: UInt32): (ws: seq<UInt32>)
    ensures Words(ws) == Big32(a) + Big32(b) + Big32(c)
  {
    FewWords(a, b, c);
    [a, b, c]
  }

  /** A page of the server list: the total, the number of addresses in this page, the addresses. */
  function ListResponseBytes(total: UInt32, page: seq<UInt32>): seq<Byte>
    requires |page| < 0x1_0000_0000
  {
    Words(ThreeWords(NMT_LISTRESP, total, |page|) + page)
  }

  /** The list holds addresses as signed ints. */
  function Signed(us: seq<UInt32>): (s: seq<Int32>)
    ensures |s| == |us|
  {
    seq(|us|, i requires 0 <= i < |us| => ToInt32(us[i]))
  }

  function Unsigned(s: seq<Int32>): (us: seq<UInt32>)
    ensures |us| == |s|
  {
    seq(|s|, i requires 0 <= i < |s| => ToUInt32(s[i]))
  }

  lemma UnsignedOfSigned(us: seq<UInt32>)
    ensures Unsigned(Signed(us)) == us
  {}

  /** The word of a datagram that a two-word message carries after its type. */
  function Payload(d: seq<Byte>): UInt32
    requires |d| < MAX_MSG_LENGTH
  {
    Word32(ZeroPad(d), 4)
  }

  method LoadMessage(base: NetMsg, message: seq<Byte>)
    requires base.Valid() && 4 <= |message|
    requires base.mBuffer[..] == Zeros(MAX_MSG_LENGTH)
    modifies base.mBuffer
    ensures |message| < MAX_MSG_LENGTH ==> base.mBuffer[..] == ZeroPad(message)
    ensures |message| >= MAX_MSG_LENGTH ==> base.mBuffer[..] == Zeros(MAX_MSG_LENGTH)
  {
    if |message| < MAX_MSG_LENGTH {
      CopyInto(base.mBuffer, 0, message);
    }
  }

  class HandshakeMsg {
    const base: NetMsg
    var mHandshake: Int32

    ghost predicate Valid()
      reads this, base
    {
      base.Valid() && base.mType == NMT_HANDSHAKE
    }

    constructor (host: Host, handshake: Int32)
      ensures Valid() && fresh(base) && fresh(base.mBuffer)
      ensures mHandshake == handshake && !base.mPacked && base.mLength == 0
    {
      base := new NetMsg(host);
      mHandshake := handshake;
      new;
      base.mType := NMT_HANDSHAKE;
    }

    constructor FromMessage(host: Host, message: seq<Byte>)
      requires 4 <= |message| < MAX_MSG_LENGTH
      ensures base.mType == Word32(message, 0)
      ensures base.mType == NMT_HANDSHAKE ==> mHandshake == ToInt32(Payload(message))
    {
      base := new NetMsg(host);
      new;
      LoadMessage(base, message);
      var ok := base.VerifyType(NMT_HANDSHAKE);
      if !ok {
        return;
      }
      mHandshake := base.UnpackInt();
    }

    method Pack()
      requires Valid() && base.mLength + 8 <= MAX_MSG_LENGTH
      modifies base, base.mBuffer
      ensures Valid() && base.mPacked && base.mLength == old(base.mLength) + 8
      ensures base.Packed() == old(base.Packed()) + HandshakeBytes(ToUInt32(mHandshake))
    {
      base.Pack();
      base.PackInt(mHandshake);
      base.mPacked := true;
      FewWords(NMT_HANDSHAKE, ToUInt32(mHandshake), 0);
    }

    /** Packs only the first time, so calling both getters packs once, in either order. */
    method GetPackedBuffer() returns (buf: array<Byte>)
      requires Valid() && base.mLength + (if base.mPacked then 0 else 8) <= MAX_MSG_LENGTH
      modifies base, base.mBuffer
      ensures Valid() && base.mPacked && base.mLength <= MAX_MSG_LENGTH && buf == base.mBuffer
      ensures old(base.mPacked) ==> base.Packed() == old(base.Packed())
      ensures !old(base.mPacked) ==> base.Packed() == old(base.Packed()) + HandshakeBytes(ToUInt32(mHandshake))
    {
      if !base.mPacked {
        Pack();
      }
      buf := base.mBuffer;
    }

    method GetPackedBufferLength() returns (n: nat)
      requires Valid() && base.mLength + (if base.mPacked then 0 else 8) <= MAX_MSG_LENGTH
      modifies base, base.mBuffer
      ensures Valid() && base.mPacked && n == base.mLength <= MAX_MSG_LENGTH
      ensures old(base.mPacked) ==> base.Packed() == old(base.Packed())
      ensures !old(base.mPacked) ==> base.Packed() == old(base.Packed()) + HandshakeBytes(ToUInt32(mHandshake))
    {
      if !base.mPacked {
        Pack();
      }
      n := base.mLength;
    }
  }

  class ServerShakeMsg {
    const base: NetMsg
    var mHandshake: UInt32

    constructor (host: Host, handshake: Int32)
      ensures base.Valid() && base.mType == NMT_SERVERSHAKE && mHandshake == ToUInt32(handshake)
      ensures fresh(base) && fresh(base.mBuffer) && !base.mPacked && base.mLength == 0
    {
      base := new NetMsg(host);
      mHandshake := ToUInt32(handshake);
      new;
      base.mType := NMT_SERVERSHAKE;
    }

    /** Appends the packed words and leaves mPacked as it was. */
    method Pack()
      requires base.Valid() && base.mType == NMT_SERVERSHAKE && base.mLength + 8 <= MAX_MSG_LENGTH
      modifies base, base.mBuffer
      ensures base.Valid() && base.mType == NMT_SERVERSHAKE && base.mPacked == old(base.mPacked)
      ensures base.mLength == old(base.mLength) + 8
      ensures base.Packed() == old(base.Packed()) + Words([NMT_SERVERSHAKE, mHandshake])
    {
      base.PackType();
      base.PackUInt(mHandshake);
      FewWords(NMT_SERVERSHAKE, mHandshake, 0);
    }

    /** The value is read only when the type word verifies. */
    constructor FromMessage(host: Host, message: seq<Byte>)
      requires 4 <= |message| < MAX_MSG_LENGTH
      ensures base.mType == Word32(message, 0)
      ensures base.mType == NMT_SERVERSHAKE ==> mHandshake == Payload(message)
    {
      base := new NetMsg(host);
      new;
      LoadMessage(base, message);
      var ok := base.VerifyType(NMT_SERVERSHAKE);
      if !ok {
        return;
      }
      mHandshake := base.UnpackUInt();
    }

    method GetPackedBuffer() returns (buf: array<Byte>)
      requires base.Valid() && base.mType == NMT_SERVERSHAKE && !base.mPacked && base.mLength + 8 <= MAX_MSG_LENGTH
      modifies base, base.mBuffer
      ensures base.Valid() && base.mType == NMT_SERVERSHAKE && !base.mPacked && buf == base.mBuffer
      ensures base.mLength == old(base.mLength) + 8
      ensures base.Packed() == old(base.Packed()) + Words([NMT_SERVERSHAKE, mHandshake])
    {
      if !base.mPacked {
        Pack();
      }
      buf := base.mBuffer;
    }

    method GetPackedBufferLength() returns (n: nat)
      requires base.Valid() && base.mType == NMT_SERVERSHAKE && !base.mPacked && base.mLength + 8 <= MAX_MSG_LENGTH
      modifies base, base.mBuffer
      ensures base.Valid() && base.mType == NMT_SERVERSHAKE && !base.mPacked && n == base.mLength
      ensures base.mLength == old(base.mLength) + 8
      ensures base.Packed() == old(base.Packed()) + Words([NMT_SERVERSHAKE, mHandshake])
    {
      if !base.mPacked {
        Pack();
      }
      n := base.mLength;
    }
  }

  /** Asking a server shake for its buffer and then for its length, as one does to send it, packs
      the message twice: Pack() never marks the message as packed. */
  method ServerShakePacksTwice(host: Host, handshake: Int32) returns (bytes: seq<Byte>)
    ensures bytes == Words([NMT_SERVERSHAKE, ToUInt32(handshake)]) + Words([NMT_SERVERSHAKE, ToUInt32(handshake)])
  {
    var msg := new ServerShakeMsg(host, handshake);
    var buffer := msg.GetPackedBuffer();
    var length := msg.GetPackedBufferLength();
    bytes := buffer[..length];
  }

  class ClientShakeMsg {
    const base: NetMsg
    var mHandshake: Int32

    constructor (host: Host, handshake: Int32)
      ensures base.Valid() && base.mType == NMT_CLIENTSHAKE && mHandshake == handshake
      ensures fresh(base) && fresh(base.mBuffer) && !base.mPacked && base.mLength == 0
    {
      base := new NetMsg(host);
      mHandshake := handshake;
      new;
      base.mType := NMT_CLIENTSHAKE;
    }

    /** Appends the packed words and leaves mPacked as it was. */
    method Pack()
      requires base.Valid() && base.mType == NMT_CLIENTSHAKE && base.mLength + 8 <= MAX_MSG_LENGTH
      modifies base, base.mBuffer
      ensures base.Valid() && base.mType == NMT_CLIENTSHAKE && base.mPacked == old(base.mPacked)
      ensures base.mLength == old(base.mLength) + 8
      ensures base.Packed() == old(base.Packed()) + Words([NMT_CLIENTSHAKE, ToUInt32(mHandshake)])
    {
      base.PackType();
      base.PackInt(mHandshake);
      FewWords(NMT_CLIENTSHAKE, ToUInt32(mHandshake), 0);
    }

    constructor FromMessage(host: Host, message: seq<Byte>)
      requires 4 <= |message| < MAX_MSG_LENGTH
      ensures base.mType == Word32(message, 0)
      ensures base.mType == NMT_CLIENTSHAKE ==> mHandshake == ToInt32(Payload(message))
    {
      base := new NetMsg(host);
      new;
      LoadMessage(base, message);
      var ok := base.VerifyType(NMT_CLIENTSHAKE);
      if !ok {
        return;
      }
      mHandshake := base.UnpackInt();
    }
  }

  class TerminateMsg {
    const base: NetMsg

    constructor FromMessage(host: Host, message: seq<Byte>)
      requires 4 <= |message| < MAX_MSG_LENGTH
      ensures base.mType == Word32(message, 0)
    {
      base := new NetMsg(host);
      new;
      LoadMessage(base, message);
      var ok := base.VerifyType(NMT_TERMINATE);
    }
  }

  class ListRequestMsg {
    const base: NetMsg
    var mBeginningFrom: Int32

    constructor (host: Host, beginningFrom: Int32)
      ensures base.Valid() && base.mType == NMT_LISTREQ && mBeginningFrom == beginningFrom
      ensures fresh(base) && fresh(base.mBuffer) && !base.mPacked && base.mLength == 0
    {
      base := new NetMsg(host);
      mBeginningFrom := beginningFrom;
      new;
      base.mType := NMT_LISTREQ;
    }

    /** Appends the packed words and leaves mPacked as it was. */
    method Pack()
      requires base.Valid() && base.mType == NMT_LISTREQ && base.mLength + 8 <= MAX_MSG_LENGTH
      modifies base, base.mBuffer
      ensures base.Valid() && base.mType == NMT_LISTREQ && base.mPacked == old(base.mPacked)
      ensures base.mLength == old(base.mLength) + 8
      ensures base.Packed() == old(base.Packed()) + Words([NMT_LISTREQ, ToUInt32(mBeginningFrom)])
    {
      base.PackType();
      base.PackInt(mBeginningFrom);
      FewWords(NMT_LISTREQ, ToUInt32(mBeginningFrom), 0);
    }

    constructor FromMessage(host: Host, message: seq<Byte>)
      requires 4 <= |message| < MAX_MSG_LENGTH
      ensures base.mType == Word32(message, 0)
      ensures base.mType == NMT_LISTREQ ==> mBeginningFrom == ToInt32(Payload(message))
    {
      base := new NetMsg(host);
      new;
      LoadMessage(base, message);
      var ok := base.VerifyType(NMT_LISTREQ);
      if !ok {
        return;
      }
      mBeginningFrom := base.UnpackInt();
    }
  }

  datatype Build = Normal | Debug

  /** The largest page: what fits behind three words, or five addresses in a debug build. */
  function PageMax(b: Build): (m: nat)
    ensures m == if b.Normal? then 139 else 5
    ensures 0 < m && 12 + 4 * m <= 568
    ensures b.Normal? ==> 4 * m <= MAX_MSG_LENGTH - 12 < 4 * (m + 1)
  {
    match b
    case Normal => (MAX_MSG_LENGTH - 4 - 4 - 4) / 4
    case Debug => 5
  }

  lemma HeaderPacked(before: seq<Byte>, a: UInt32, b: UInt32, c: UInt32, list: seq<UInt32>)
    ensures before + Big32(a) + Big32(b) + Big32(c) == before + Words(ThreeWords(a, b, c) + list[..0])
  {
    assert ThreeWords(a, b, c) + list[..0] == ThreeWords(a, b, c);
    var x, y, z := Big32(a), Big32(b), Big32(c);
    assert before + x + y + z == before + (x + y + z);
  }

  lemma NextAddress(before: seq<Byte>, words: seq<UInt32>, list: seq<UInt32>, i: nat)
    requires i < |list|
    ensures before + Words(words + list[..i + 1]) == before + Words(words + list[..i]) + Big32(list[i])
  {
    WordsAppend(words + list[..i], list[i]);
    assert words + list[..i + 1] == words + list[..i] + [list[i]];
    var front, last := Words(words + list[..i]), Big32(list[i]);
    assert before + (front + last) == before + front + last;
  }

  class ListResponseMsg {
    const base: NetMsg
    var mList: seq<Int32>
    var mTotal: UInt32
    var mMax: nat

    ghost predicate Valid()
      reads this, base
    {
      base.Valid() && base.mType == NMT_LISTRESP && |mList| <= mMax && 12 + 4 * mMax <= 568
    }

    constructor (host: Host, build: Build)
      ensures Valid() && fresh(base) && fresh(base.mBuffer)
      ensures mList == [] && mTotal == 0 && mMax == PageMax(build)
      ensures !base.mPacked && base.mLength == 0
    {
      base := new NetMsg(host);
      mTotal := 0;
      mList := [];
      mMax := PageMax(build);
      new;
      base.mType := NMT_LISTRESP;
    }

    /** Reads exactly the declared number of addresses, which must lie inside the buffer. */
    constructor FromMessage(host: Host, message: seq<Byte>)
      requires 4 <= |message| < MAX_MSG_LENGTH
      requires Word32(message, 0) == NMT_LISTRESP ==> 12 + 4 * Word32(ZeroPad(message), 8) <= MAX_MSG_LENGTH
      ensures base.mType == Word32(message, 0)
      ensures base.mType == NMT_LISTRESP ==>
                && mTotal == Payload(message)
                && |mList| == Word32(ZeroPad(message), 8)
                && forall k :: 0 <= k < |mList| ==> mList[k] == ToInt32(Word32(ZeroPad(message), 12 + 4 * k))
    {
      base := new NetMsg(host);
      mList := [];
      new;
      LoadMessage(base, message);
      var ok := base.VerifyType(NMT_LISTRESP);
      if !ok {
        return;
      }
      mTotal := base.UnpackUInt();
      var i := base.UnpackUInt();
      ghost var buf, count := base.mBuffer[..], i;
      while i > 0
        invariant 0 <= i <= count == |mList| + i
        invariant fresh(base) && base.Valid() && base.mBuffer[..] == buf
        invariant base.mType == NMT_LISTRESP && mTotal == Word32(buf, 4)
        invariant base.mPlace == 12 + 4 * |mList|
        invariant forall k :: 0 <= k < |mList| ==> mList[k] == ToInt32(Word32(buf, 12 + 4 * k))
      {
        var address := base.UnpackUInt();
        mList := mList + [ToInt32(address)];
        i := i - 1;
      }
    }

    method SetTotalServers(total: UInt32)
      modifies this`mTotal
      ensures mTotal == total
    {
      mTotal := total;
    }

    /** Refuses, and changes nothing, exactly when the page is full. */
    method AddServer(address: Int32) returns (added: bool)
      requires Valid()
      modifies this`mList, base`mPacked
      ensures Valid()
      ensures added == (|old(mList)| < mMax)
      ensures added ==> mList == old(mList) + [address] && !base.mPacked
      ensures !added ==> mList == old(mList) && base.mPacked == old(base.mPacked)
    {
      if |mList| < mMax {
        mList := mList + [address];
        base.mPacked := false;
        return true;
      }
      return false;
    }

    /** Appends: a second packing goes behind the first. */
    method Pack()
      requires Valid() && base.mLength + 12 + 4 * |mList| <= MAX_MSG_LENGTH
      modifies base, base.mBuffer
      ensures Valid() && base.mPacked && base.mLength == old(base.mLength) + 12 + 4 * |mList|
      ensures base.Packed() == old(base.Packed()) + ListResponseBytes(mTotal, Unsigned(mList))
    {
      ghost var before, start := base.Packed(), base.mLength;
      var size: UInt32 := |mList|;
      ghost var words := ThreeWords(NMT_LISTRESP, mTotal, size);
      ghost var addresses := Unsigned(mList);
      base.PackType();
      base.PackUInt(mTotal);
      base.PackUInt(size);
      HeaderPacked(before, NMT_LISTRESP, mTotal, size, addresses);
      var i := 0;
      while i != |mList|
        invariant 0 <= i <= |mList| && base.mLength == start + 12 + 4 * i
        invariant base.Valid() && base.mType == NMT_LISTRESP
        invariant base.Packed() == before + Words(words + addresses[..i])
      {
        base.PackUInt(ToUInt32(mList[i]));
        NextAddress(before, words, addresses, i);
        i := i + 1;
      }
      assert addresses[..i] == addresses;
      base.mPacked := true;
    }

    method GetPackedBuffer() returns (buf: array<Byte>)
      requires Valid() && base.mLength + (if base.mPacked then 0 else 12 + 4 * |mList|) <= MAX_MSG_LENGTH
      modifies base, base.mBuffer
      ensures Valid() && base.mPacked && base.mLength <= MAX_MSG_LENGTH && buf == base.mBuffer
      ensures old(base.mPacked) ==> base.Packed() == old(base.Packed())
      ensures !old(base.mPacked) ==> base.Packed() == old(base.Packed()) + ListResponseBytes(mTotal, Unsigned(mList))
    {
      if !base.mPacked {
        Pack();
      }
      buf := base.mBuffer;
    }

    method GetPackedBufferLength() returns (n: nat)
      requires Valid() && base.mLength + (if base.mPacked then 0 else 12 + 4 * |mList|) <= MAX_MSG_LENGTH
      modifies base, base.mBuffer
      ensures Valid() && base.mPacked && n == base.mLength <= MAX_MSG_LENGTH
      ensures old(base.mPacked) ==> base.Packed() == old(base.Packed())
      ensures !old(base.mPacked) ==> base.Packed() == old(base.Packed()) + ListResponseBytes(mTotal, Unsigned(mList))
    {
      if !base.mPacked {
        Pack();
      }
      n := base.mLength;
    }
  }

  /** The words of a list response, wherever it is copied to the front of a buffer. */
  lemma ListResponseWords(total: UInt32, page: seq<UInt32>, after: seq<Byte>)
    requires |page| < 0x1_0000_0000
    ensures |ListResponseBytes(total, page)| == 12 + 4 * |page|
    ensures var buf := ListResponseBytes(total, page) + after;
            && Word32(buf, 0) == NMT_LISTRESP && Word32(buf, 4) == total && Word32(buf, 8) == |page|
            && forall k :: 0 <= k < |page| ==> Word32(buf, 12 + 4 * k) == page[k]
  {
    var ws := ThreeWords(NMT_LISTRESP, total, |page|) + page;
    WordsAt(ws, after, 0);
    WordsAt(ws, after, 1);
    WordsAt(ws, after, 2);
    forall k | 0 <= k < |page|
      ensures Word32(ListResponseBytes(total, page) + after, 12 + 4 * k) == page[k]
    {
      WordsAt(ws, after, k + 3);
      assert 12 + 4 * k == 4 * (k + 3);
    }
  }

  lemma SignedPage(list: seq<Int32>, page: seq<UInt32>)
    requires |list| == |page| && forall k :: 0 <= k < |list| ==> list[k] == ToInt32(page[k])
    ensures Unsigned(list) == page
  {
    forall k | 0 <= k < |page|
      ensures Unsigned(list)[k] == page[k]
    {
      ConversionsInvert(page[k], 0, 0, 0, 0, 0);
    }
  }

  /** The message class parses what the message class packs. */
  method ListResponseExchange(host: Host, d: seq<Byte>, ghost total: UInt32, ghost page: seq<UInt32>)
    returns (response: ListResponseMsg)
    requires 12 + 4 * |page| < MAX_MSG_LENGTH
    requires d == ListResponseBytes(total, page)
    ensures response.base.mType == NMT_LISTRESP && response.mTotal == total
    ensures Unsigned(response.mList) == page
  {
    ListResponseWords(total, page, Zeros(MAX_MSG_LENGTH - |d|));
    ListResponseWords(total, page, []);
    assert d + [] == d;
    response := new ListResponseMsg.FromMessage(host, d);
    SignedPage(response.mList, page);
  }
}
