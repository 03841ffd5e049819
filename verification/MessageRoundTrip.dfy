/**
 Whole messages: fields packed one after the other into the buffer of one message object and
 unpacked again, from the same object or from the one that a receiver makes of the bytes.
 */
module MessageRoundTrip {
  import opened Wire
  import opened Codec
  import opened NetMessage
  import opened Messages

  /** A string may not take the whole buffer; the source asserts it. */
  predicate Packable(f: Field) {
    f.StringF? ==> |f.str| < MAX_MSG_LENGTH - 4 - 4
  }

  /** Fields that fit in one message. */
  ghost predicate Fits(fs: seq<Field>) {
    && (forall i :: 0 <= i < |fs| ==> Packable(fs[i]))
    && AllSendable(fs)
    && |EncodeAll(fs)| <= MAX_MSG_LENGTH
  }

  /** The pack call for the kind of the field.  A type is packed from the type of the message. */
  method PackField(m: NetMsg, f: Field)
    requires m.Valid() && Packable(f) && m.mLength + |Encode(f)| <= MAX_MSG_LENGTH
    modifies m`mType, m`mLength, m.mBuffer
    ensures m.mLength == old(m.mLength) + |Encode(f)|
    ensures m.Packed() == old(m.Packed()) + Encode(f)
  {
    match f
    case TypeF(t) =>
      WordForms(t, 0, 0);
      m.mType := t;
      m.PackType();
    case CharF(c) => m.PackChar(c);
    case UCharF(b) => m.PackUChar(b);
    case IntF(i) =>
      WordForms(0, i, 0);
      m.PackInt(i);
    case UIntF(u) =>
      WordForms(0, 0, u);
      m.PackUInt(u);
    case ShortF(s) => m.PackShort(s);
    case UShortF(v) => m.PackUShort(v);
    case StringF(str) => m.PackString(str);
  }

  /** The unpack call for kind `k`. */
  method UnpackField(m: NetMsg, k: Kind) returns (f: Field)
    requires m.Valid() && DecodeAt(k, m.mBuffer[..], m.mPlace).Some?
    modifies m`mPlace
    ensures DecodeAt(k, m.mBuffer[..], old(m.mPlace)) == Some((f, m.mPlace))
  {
    match k
    case TypeK => var t := m.UnpackType(); f := TypeF(t);
    case CharK => var c := m.UnpackChar(); f := CharF(c);
    case UCharK => var b := m.UnpackUChar(); f := UCharF(b);
    case IntK => var i := m.UnpackInt(); f := IntF(i);
    case UIntK => var u := m.UnpackUInt(); f := UIntF(u);
    case ShortK => var s := m.UnpackShort(); f := ShortF(s);
    case UShortK => var v := m.UnpackUShort(); f := UShortF(v);
    case StringK => var str := m.UnpackString(); f := StringF(str);
  }

  lemma EncodeNext(before: seq<Byte>, fs: seq<Field>, i: nat)
    requires AllSendable(fs) && i < |fs|
    ensures before + EncodeAll(fs[..i + 1]) == before + EncodeAll(fs[..i]) + Encode(fs[i])
  {
    assert fs[..i + 1][..i] == fs[..i];
    var front, last := EncodeAll(fs[..i]), Encode(fs[i]);
    assert before + front + last == before + (front + last);
  }

  /** What is packed of `fs` so far is never longer than all of it. */
  lemma {:induction false} EncodeShorter(fs: seq<Field>, i: nat)
    requires AllSendable(fs) && i <= |fs|
    ensures |EncodeAll(fs[..i])| <= |EncodeAll(fs)|
    decreases |fs|
  {
    if i == |fs| {
      assert fs[..i] == fs;
    } else {
      var front := fs[..|fs| - 1];
      EncodeShorter(front, i);
      assert front[..i] == fs[..i];
    }
  }

  /** The fields up to `i` stand behind `before`, and all of them fit. */
  ghost predicate PackedSoFar(m: NetMsg, before: seq<Byte>, fs: seq<Field>, i: nat)
    requires AllSendable(fs) && i <= |fs|
    reads m, m.mBuffer
  {
    && m.Valid() && m.mLength <= MAX_MSG_LENGTH
    && |before| + |EncodeAll(fs)| <= MAX_MSG_LENGTH
    && m.Packed() == before + EncodeAll(fs[..i])
  }

  method PackNext(m: NetMsg, ghost before: seq<Byte>, fs: seq<Field>, i: nat)
    requires AllSendable(fs) && i < |fs| && Packable(fs[i]) && PackedSoFar(m, before, fs, i)
    modifies m`mType, m`mLength, m.mBuffer
    ensures PackedSoFar(m, before, fs, i + 1)
  {
    EncodeNext(before, fs, i);
    EncodeShorter(fs, i + 1);
    assert m.mLength == |m.Packed()|;
    PackField(m, fs[i]);
  }

  /** Packs the fields in order. */
  method PackAll(m: NetMsg, fs: seq<Field>)
    requires m.Valid() && AllSendable(fs) && (forall i :: 0 <= i < |fs| ==> Packable(fs[i]))
    requires m.mLength + |EncodeAll(fs)| <= MAX_MSG_LENGTH
    modifies m`mType, m`mLength, m.mBuffer
    ensures m.mLength == old(m.mLength) + |EncodeAll(fs)|
    ensures m.Packed() == old(m.Packed()) + EncodeAll(fs)
  {
    ghost var before := m.Packed();
    var i := 0;
    assert before + [] == before;
    while i < |fs|
      invariant i <= |fs| && PackedSoFar(m, before, fs, i)
    {
      PackNext(m, before, fs, i);
      i := i + 1;
    }
    assert fs[..i] == fs;
    assert m.mLength == |m.Packed()|;
  }

  /** The kinds up to `i` were read from `at`, and the cursor stands at `place`. */
  ghost predicate ReadSoFar(ks: seq<Kind>, buf: seq<Byte>, at: nat, i: nat, fs: seq<Field>, place: nat)
    requires i <= |ks|
  {
    DecodeAll(ks[..i], buf, at) == Some((fs, place))
  }

  lemma {:induction false} DecodePrefix(ks: seq<Kind>, buf: seq<Byte>, at: nat, i: nat)
    requires DecodeAll(ks, buf, at).Some? && i <= |ks|
    ensures DecodeAll(ks[..i], buf, at).Some?
    decreases |ks|
  {
    if i == |ks| {
      assert ks[..i] == ks;
    } else {
      var front := ks[..|ks| - 1];
      DecodePrefix(front, buf, at, i);
      assert front[..i] == ks[..i];
    }
  }

  /** The next kind can be read too, and reading it reads on. */
  lemma DecodeNext(ks: seq<Kind>, buf: seq<Byte>, at: nat, i: nat, fs: seq<Field>, place: nat)
    requires DecodeAll(ks, buf, at).Some? && i < |ks| && ReadSoFar(ks, buf, at, i, fs, place)
    ensures DecodeAt(ks[i], buf, place).Some?
    ensures var (f, end) := DecodeAt(ks[i], buf, place).value; ReadSoFar(ks, buf, at, i + 1, fs + [f], end)
  {
    DecodePrefix(ks, buf, at, i + 1);
    assert ks[..i + 1][..i] == ks[..i];
  }

  /** Unpacks fields of the given kinds in order. */
  method UnpackAll(m: NetMsg, ks: seq<Kind>) returns (fs: seq<Field>)
    requires m.Valid() && DecodeAll(ks, m.mBuffer[..], m.mPlace).Some?
    modifies m`mPlace
    ensures DecodeAll(ks, m.mBuffer[..], old(m.mPlace)) == Some((fs, m.mPlace))
  {
    ghost var buf, at := m.mBuffer[..], m.mPlace;
    fs := [];
    var i := 0;
    while i < |ks|
      invariant i <= |ks| && ReadSoFar(ks, buf, at, i, fs, m.mPlace)
    {
      DecodeNext(ks, buf, at, i, fs, m.mPlace);
      var f := UnpackField(m, ks[i]);
      fs := fs + [f];
      i := i + 1;
    }
    assert ks[..i] == ks;
  }

  lemma FromTheStart(fs: seq<Field>, bytes: seq<Byte>, after: seq<Byte>, buf: seq<Byte>)
    requires AllSendable(fs) && bytes == EncodeAll(fs) && buf == bytes + after
    ensures DecodeAll(Kinds(fs), buf, 0) == Some((fs, |bytes|))
  {
    assert [] + bytes + after == bytes + after;
    RoundTrip([], fs, after, buf);
  }

  /** Whatever fits in a message and whatever the host: the fields packed into a new message are the
      fields unpacked from it, and the unpacking cursor ends where the packing cursor stopped. */
  method PackAndUnpack(host: Host, fs: seq<Field>) returns (m: NetMsg, got: seq<Field>)
    requires Fits(fs)
    ensures got == fs
    ensures m.mPlace == m.mLength == |EncodeAll(fs)| && m.Valid() && m.Packed() == EncodeAll(fs)
  {
    m := new NetMsg(host);
    PackAll(m, fs);
    FromTheStart(fs, m.Packed(), m.mBuffer[m.mLength..], m.mBuffer[..]);
    got := UnpackAll(m, Kinds(fs));
  }

  /** The same from one host to another: the packed bytes are a datagram, and the receiver reads them
      as the message classes do, from a zeroed buffer into which the datagram was copied. */
  method SendAndReceive(sender: Host, receiver: Host, fs: seq<Field>) returns (datagram: seq<Byte>, got: seq<Field>)
    requires Fits(fs) && 4 <= |EncodeAll(fs)| < MAX_MSG_LENGTH
    ensures datagram == EncodeAll(fs) && got == fs
  {
    var m := new NetMsg(sender);
    PackAll(m, fs);
    datagram := m.mBuffer[..m.mLength];
    var copy := new NetMsg(receiver);
    LoadMessage(copy, datagram);
    FromTheStart(fs, datagram, Zeros(MAX_MSG_LENGTH - |datagram|), copy.mBuffer[..]);
    got := UnpackAll(copy, Kinds(fs));
  }
}
