/**
 The base class of all messages: a fixed buffer, a packing cursor (`mLength`) and a separate
 unpacking cursor (`mPlace`).
 */
module NetMessage {
  import opened Wire
  import opened Codec

  const MAX_MSG_LENGTH: nat := 570

  // Message types
  const NMT_NULL: UInt32 := 0
  const NMT_SERVERKEEPALIVE: UInt32 := 1
  const NMT_CLIENTKEEPALIVE: UInt32 := 2
  const NMT_HANDSHAKE: UInt32 := 3
  const NMT_SERVERSHAKE: UInt32 := 4
  const NMT_CLIENTSHAKE: UInt32 := 5
  const NMT_TERMINATE: UInt32 := 6
  const NMT_LISTREQ: UInt32 := 7
  const NMT_LISTRESP: UInt32 := 8
  const NMT_PROTO_ERANGE: UInt32 := 9
  const NMT_LAST: UInt32 := 10

  function Zeros(n: nat): (z: seq<Byte>)
    ensures |z| == n && forall i :: 0 <= i < n ==> z[i] == 0
  {
    seq(n, _ => 0)
  }

  /** What a zeroed message buffer holds after a datagram is copied to its front. */
  function ZeroPad(d: seq<Byte>): (buf: seq<Byte>)
    requires |d| <= MAX_MSG_LENGTH
    ensures |buf| == MAX_MSG_LENGTH
  {
    d + Zeros(MAX_MSG_LENGTH - |d|)
  }

  lemma ZeroPadBytes(d: seq<Byte>)
    requires |d| <= MAX_MSG_LENGTH
    ensures |ZeroPad(d)| == 570 && ZeroPad(d)[..|d|] == d
    ensures forall i :: |d| <= i < 570 ==> ZeroPad(d)[i] == 0
  {}

  /** memcpy() into a buffer. */
  method CopyInto(dst: array<Byte>, at: nat, src: seq<Byte>)
    requires at + |src| <= dst.Length
    modifies dst
    ensures dst[..] == old(dst[..at]) + src + old(dst[at + |src|..])
  {
    forall i | 0 <= i < |src| {
      dst[at + i] := src[i];
    }
  }

  /** A signed value that went through htonl() and a signed variable is stored in network order. */
  lemma StoredInt(host: Host, data: Int32)
    ensures Store32(host, ToUInt32(ToInt32(Htonl(host, ToUInt32(data))))) == Big32(ToUInt32(data))
  {
    StoreIsNetworkOrder32(host, ToUInt32(data));
    ConversionsInvert(Htonl(host, ToUInt32(data)), 0, 0, 0, 0, 0);
  }

  lemma StoredUShort(host: Host, data: UInt16)
    ensures Store16(host, Htons(host, data)) == Encode(UShortF(data))
  {
    StoreIsNetworkOrder16(host, data);
    assert ToUInt16(data) == data;
  }

  lemma StoredShort(host: Host, data: Int16)
    ensures Store16(host, ToUInt16(ToInt16(Htons(host, ToUInt16(data))))) == Encode(ShortF(data))
  {
    var u: UInt16 := ToUInt16(data);
    StoredUShort(host, u);
    ConversionsInvert(0, 0, Htons(host, u), 0, 0, 0);
    assert Encode(ShortF(data)) == Encode(UShortF(u));
  }

  lemma StringEncoding(before: seq<Byte>, str: seq<Byte>)
    requires |str| < 0x1_0000_0000
    ensures before + Big32(|str|) + str == before + Encode(StringF(str))
  {
    assert before + (Big32(|str|) + str) == before + Big32(|str|) + str;
  }

  class NetMsg {
    const host: Host
    const mBuffer: array<Byte>
    var mGood: bool
    var mPacked: bool
    var mType: UInt32
    var mLength: nat
    var mPlace: nat

    ghost predicate Valid()
      reads this
    {
      mBuffer.Length == MAX_MSG_LENGTH
    }

    /** The bytes packed so far. */
    ghost function Packed(): seq<Byte>
      requires Valid() && mLength <= MAX_MSG_LENGTH
      reads this, mBuffer
    {
      mBuffer[..mLength]
    }

    constructor (host: Host)
      ensures Valid() && fresh(mBuffer) && this.host == host
      ensures mGood && !mPacked && mType == NMT_NULL && mLength == 0 && mPlace == 0
      ensures mBuffer[..] == Zeros(MAX_MSG_LENGTH)
      ensures mBuffer.Length == 570
    {
      this.host := host;
      mGood := true;
      mPacked := false;
      mType := NMT_NULL;
      mLength := 0;
      mPlace := 0;
      mBuffer := new Byte[MAX_MSG_LENGTH](_ => 0);
    }

    /** The dispatcher's constructor copies only the type word, whatever else was received. */
    constructor FromMessage(host: Host, message: seq<Byte>)
      requires 4 <= |message| < MAX_MSG_LENGTH
      ensures Valid() && fresh(mBuffer) && this.host == host
      ensures mType == Word32(message, 0)
      ensures mPlace == 4 && mLength == |message| && mPacked && !mGood
    {
      this.host := host;
      mBuffer := new Byte[MAX_MSG_LENGTH];
      mGood := false;
      mPacked := true;
      mLength := |message|;
      mPlace := 0;
      new;
      CopyInto(mBuffer, 0, message[..4]);
      Unpack();
    }

    method GetType() returns (t: UInt32)
      ensures t == mType
    {
      t := mType;
    }

    method Good() returns (good: bool)
      ensures good <==> 1 <= mType <= 9
    {
      if mType > NMT_NULL && mType < NMT_LAST {
        return true;
      }
      return false;
    }

    /** Append raw bytes at the packing cursor. */
    method Append(bytes: seq<Byte>)
      requires Valid() && mLength + |bytes| <= MAX_MSG_LENGTH
      modifies this`mLength, mBuffer
      ensures mLength == old(mLength) + |bytes|
      ensures Packed() == old(Packed()) + bytes
      ensures mBuffer[mLength..] == old(mBuffer[..])[mLength..]
    {
      CopyInto(mBuffer, mLength, bytes);
      mLength := mLength + |bytes|;
    }

    method PackType()
      requires Valid() && mLength + 4 <= MAX_MSG_LENGTH
      modifies this`mLength, mBuffer
      ensures mLength == old(mLength) + 4
      ensures Packed() == old(Packed()) + Big32(mType)
      ensures mBuffer[mLength..] == old(mBuffer[..])[mLength..]
    {
      StoreIsNetworkOrder32(host, mType);
      var netorder := Htonl(host, mType);
      Append(Store32(host, netorder));
    }

    method PackChar(byte: Int8)
      requires Valid() && mLength + 1 <= MAX_MSG_LENGTH
      modifies this`mLength, mBuffer
      ensures mLength == old(mLength) + 1
      ensures Packed() == old(Packed()) + Encode(CharF(byte))
      ensures mBuffer[mLength..] == old(mBuffer[..])[mLength..]
    {
      Append([ToByte(byte)]);
    }

    method PackUChar(byte: Byte)
      requires Valid() && mLength + 1 <= MAX_MSG_LENGTH
      modifies this`mLength, mBuffer
      ensures mLength == old(mLength) + 1
      ensures Packed() == old(Packed()) + Encode(UCharF(byte))
      ensures mBuffer[mLength..] == old(mBuffer[..])[mLength..]
    {
      Append([byte]);
    }

    /** The signed argument goes through htonl() and back into a signed variable. */
    method PackInt(data: Int32)
      requires Valid() && mLength + 4 <= MAX_MSG_LENGTH
      modifies this`mLength, mBuffer
      ensures mLength == old(mLength) + 4
      ensures Packed() == old(Packed()) + Big32(ToUInt32(data))
      ensures mBuffer[mLength..] == old(mBuffer[..])[mLength..]
    {
      StoredInt(host, data);
      var netorder: Int32 := ToInt32(Htonl(host, ToUInt32(data)));
      Append(Store32(host, ToUInt32(netorder)));
    }

    method PackUInt(data: UInt32)
      requires Valid() && mLength + 4 <= MAX_MSG_LENGTH
      modifies this`mLength, mBuffer
      ensures mLength == old(mLength) + 4
      ensures Packed() == old(Packed()) + Big32(data)
      ensures mBuffer[mLength..] == old(mBuffer[..])[mLength..]
    {
      StoreIsNetworkOrder32(host, data);
      var netorder := Htonl(host, data);
      Append(Store32(host, netorder));
    }

    method PackString(str: seq<Byte>)
      requires |str| < MAX_MSG_LENGTH - 4 - 4 // asserted by the source
      requires Valid() && mLength + 4 + |str| <= MAX_MSG_LENGTH
      modifies this`mLength, mBuffer
      ensures mLength == old(mLength) + 4 + |str|
      ensures Packed() == old(Packed()) + Encode(StringF(str))
      ensures mBuffer[mLength..] == old(mBuffer[..])[mLength..]
    {
      PackUInt(|str|);
      Append(str);
      StringEncoding(old(Packed()), str);
    }

    method PackShort(data: Int16)
      requires Valid() && mLength + 2 <= MAX_MSG_LENGTH
      modifies this`mLength, mBuffer
      ensures mLength == old(mLength) + 2
      ensures Packed() == old(Packed()) + Encode(ShortF(data))
      ensures mBuffer[mLength..] == old(mBuffer[..])[mLength..]
    {
      StoredShort(host, data);
      var netorder: Int16 := ToInt16(Htons(host, ToUInt16(data)));
      Append(Store16(host, ToUInt16(netorder)));
    }

    method PackUShort(data: UInt16)
      requires Valid() && mLength + 2 <= MAX_MSG_LENGTH
      modifies this`mLength, mBuffer
      ensures mLength == old(mLength) + 2
      ensures Packed() == old(Packed()) + Encode(UShortF(data))
      ensures mBuffer[mLength..] == old(mBuffer[..])[mLength..]
    {
      StoredUShort(host, data);
      var netorder := Htons(host, data);
      Append(Store16(host, netorder));
    }

    method UnpackType() returns (t: UInt32)
      requires Valid() && mPlace + 4 <= MAX_MSG_LENGTH
      modifies this`mPlace
      ensures DecodeAt(TypeK, mBuffer[..], old(mPlace)) == Some((TypeF(t), mPlace))
    {
      var bytes := mBuffer[mPlace..mPlace + 4];
      mPlace := mPlace + 4;
      LoadIsNetworkOrder32(host, bytes);
      t := Htonl(host, Load32(host, bytes));
    }

    method UnpackChar() returns (data: Int8)
      requires Valid() && mPlace + 1 <= MAX_MSG_LENGTH
      modifies this`mPlace
      ensures DecodeAt(CharK, mBuffer[..], old(mPlace)) == Some((CharF(data), mPlace))
    {
      data := ToInt8(mBuffer[mPlace]);
      mPlace := mPlace + 1;
    }

    method UnpackUChar() returns (data: Byte)
      requires Valid() && mPlace + 1 <= MAX_MSG_LENGTH
      modifies this`mPlace
      ensures DecodeAt(UCharK, mBuffer[..], old(mPlace)) == Some((UCharF(data), mPlace))
    {
      data := mBuffer[mPlace];
      mPlace := mPlace + 1;
    }

    method UnpackInt() returns (data: Int32)
      requires Valid() && mPlace + 4 <= MAX_MSG_LENGTH
      modifies this`mPlace
      ensures DecodeAt(IntK, mBuffer[..], old(mPlace)) == Some((IntF(data), mPlace))
    {
      var bytes := mBuffer[mPlace..mPlace + 4];
      mPlace := mPlace + 4;
      LoadIsNetworkOrder32(host, bytes);
      ConversionsInvert(Load32(host, bytes), 0, 0, 0, 0, 0);
      var netorder: Int32 := ToInt32(Load32(host, bytes));
      data := ToInt32(Htonl(host, ToUInt32(netorder)));
    }

    method UnpackUInt() returns (data: UInt32)
      requires Valid() && mPlace + 4 <= MAX_MSG_LENGTH
      modifies this`mPlace
      ensures DecodeAt(UIntK, mBuffer[..], old(mPlace)) == Some((UIntF(data), mPlace))
    {
      var bytes := mBuffer[mPlace..mPlace + 4];
      mPlace := mPlace + 4;
      LoadIsNetworkOrder32(host, bytes);
      data := Htonl(host, Load32(host, bytes));
    }

    /** The length is unpacked as a signed int and used as an unsigned one. */
    method UnpackString() returns (data: seq<Byte>)
      requires Valid() && DecodeAt(StringK, mBuffer[..], mPlace).Some?
      modifies this`mPlace
      ensures DecodeAt(StringK, mBuffer[..], old(mPlace)) == Some((StringF(data), mPlace))
    {
      var signed := UnpackInt();
      ConversionsInvert(Word32(mBuffer[..], old(mPlace)), 0, 0, 0, 0, 0);
      var length := ToUInt32(signed);
      data := mBuffer[mPlace..mPlace + length];
      assert data == mBuffer[..][mPlace..mPlace + length];
      mPlace := mPlace + length;
    }

    method UnpackShort() returns (data: Int16)
      requires Valid() && mPlace + 2 <= MAX_MSG_LENGTH
      modifies this`mPlace
      ensures DecodeAt(ShortK, mBuffer[..], old(mPlace)) == Some((ShortF(data), mPlace))
    {
      var bytes := mBuffer[mPlace..mPlace + 2];
      mPlace := mPlace + 2;
      LoadIsNetworkOrder16(host, bytes);
      ConversionsInvert(0, 0, Load16(host, bytes), 0, 0, 0);
      var netorder: Int16 := ToInt16(Load16(host, bytes));
      data := ToInt16(Htons(host, ToUInt16(netorder)));
    }

    method UnpackUShort() returns (data: UInt16)
      requires Valid() && mPlace + 2 <= MAX_MSG_LENGTH
      modifies this`mPlace
      ensures DecodeAt(UShortK, mBuffer[..], old(mPlace)) == Some((UShortF(data), mPlace))
    {
      var bytes := mBuffer[mPlace..mPlace + 2];
      mPlace := mPlace + 2;
      LoadIsNetworkOrder16(host, bytes);
      data := Htons(host, Load16(host, bytes));
    }

    method VerifyType(t: UInt32) returns (same: bool)
      requires Valid() && mPlace + 4 <= MAX_MSG_LENGTH
      modifies this`mPlace, this`mType
      ensures mPlace == old(mPlace) + 4 && mType == Word32(mBuffer[..], old(mPlace))
      ensures same <==> mType == t
    {
      Unpack();
      same := mType == t;
    }

    method Pack()
      requires Valid() && mLength + 4 <= MAX_MSG_LENGTH
      modifies this`mLength, this`mPacked, mBuffer
      ensures mPacked && mLength == old(mLength) + 4
      ensures Packed() == old(Packed()) + Big32(mType)
      ensures mBuffer[mLength..] == old(mBuffer[..])[mLength..]
    {
      PackType();
      mPacked := true;
    }

    method Unpack()
      requires Valid() && mPlace + 4 <= MAX_MSG_LENGTH
      modifies this`mPlace, this`mType
      ensures mPlace == old(mPlace) + 4 && mType == Word32(mBuffer[..], old(mPlace))
    {
      mType := UnpackType();
    }
  }
}
