/**
 What the pack and unpack calls of a network message mean: every field has a kind, a value
 and a byte form, and a message body is the concatenation of the byte forms.
 */
module Codec {
  import opened Wire

  datatype Kind = TypeK | CharK | UCharK | IntK | UIntK | ShortK | UShortK | StringK

  datatype Field =
    | TypeF(t: UInt32)
    | CharF(c: Int8)
    | UCharF(b: Byte)
    | IntF(i: Int32)
    | UIntF(u: UInt32)
    | ShortF(s: Int16)
    | UShortF(v: UInt16)
    | StringF(str: seq<Byte>)
  {
    /** A string travels behind a 32-bit length. */
    predicate Sendable() {
      StringF? ==> |str| < 0x1_0000_0000
    }
  }

  function KindOf(f: Field): Kind {
    match f
    case TypeF(_) => TypeK
    case CharF(_) => CharK
    case UCharF(_) => UCharK
    case IntF(_) => IntK
    case UIntF(_) => UIntK
    case ShortF(_) => ShortK
    case UShortF(_) => UShortK
    case StringF(_) => StringK
  }

  /** The number of bytes a field takes, not counting the characters of a string. */
  function Size(k: Kind): nat {
    match k
    case CharK | UCharK => 1
    case ShortK | UShortK => 2
    case TypeK | IntK | UIntK | StringK => 4
  }

  type Raw = UInt32

  /** The value of a field as an unsigned number; of a string, its length. */
  function ToRaw(f: Field): Raw
    requires f.Sendable()
  {
    match f
    case TypeF(t) => t
    case CharF(c) => ToByte(c)
    case UCharF(b) => b
    case IntF(i) => ToUInt32(i)
    case UIntF(u) => u
    case ShortF(s) => ToUInt16(s)
    case UShortF(v) => v
    case StringF(str) => |str|
  }

  /** The field of kind `k` with this unsigned value; a string gets its characters separately. */
  function FromRaw(k: Kind, v: Raw, str: seq<Byte>): Field {
    match k
    case TypeK => TypeF(v)
    case CharK => CharF(ToInt8(v))
    case UCharK => UCharF(ToByte(v))
    case IntK => IntF(ToInt32(v))
    case UIntK => UIntF(v)
    case ShortK => ShortF(ToInt16(v))
    case UShortK => UShortF(ToUInt16(v))
    case StringK => StringF(str)
  }

  lemma FromToRaw(f: Field)
    requires f.Sendable()
    ensures FromRaw(KindOf(f), ToRaw(f), if f.StringF? then f.str else []) == f
    ensures Size(KindOf(f)) == 1 ==> ToRaw(f) < 0x100
    ensures Size(KindOf(f)) == 2 ==> ToRaw(f) < 0x1_0000
  {
    match f {
      case CharF(c) => ConversionsInvert(0, 0, 0, 0, 0, c);
      case IntF(i) => ConversionsInvert(0, i, 0, 0, 0, 0);
      case ShortF(s) => ConversionsInvert(0, 0, 0, s, 0, 0);
      case _ =>
    }
  }

  function Digits(n: nat, v: Raw): (bs: seq<Byte>)
    requires n == 1 || n == 2 || n == 4
    ensures |bs| == n
  {
    if n == 1 then [ToByte(v)] else if n == 2 then Big16(ToUInt16(v)) else Big32(v)
  }

  function DigitsAt(n: nat, buf: seq<Byte>, at: nat): Raw
    requires n == 1 || n == 2 || n == 4
    requires at + n <= |buf|
  {
    if n == 1 then buf[at] else if n == 2 then Word16(buf, at) else Word32(buf, at)
  }

  lemma DigitsReadBack(n: nat, before: seq<Byte>, v: Raw, after: seq<Byte>)
    requires n == 1 || n == 2 || n == 4
    requires n == 1 ==> v < 0x100
    requires n == 2 ==> v < 0x1_0000
    ensures DigitsAt(n, before + Digits(n, v) + after, |before|) == v
  {
    if n == 1 {
      assert (before + Digits(n, v) + after)[|before|] == v;
    } else if n == 2 {
      Word16OfBig16(before, v, after);
    } else {
      Word32OfBig32(before, v, after);
    }
  }

  function Encode(f: Field): seq<Byte>
    requires f.Sendable()
  {
    var head := Digits(Size(KindOf(f)), ToRaw(f));
    if f.StringF? then head + f.str else head
  }

  /** The three kinds of words all travel as their 32 bits, most significant byte first. */
  lemma WordForms(t: UInt32, i: Int32, u: UInt32)
    ensures Encode(TypeF(t)) == Big32(t) && Encode(IntF(i)) == Big32(ToUInt32(i)) && Encode(UIntF(u)) == Big32(u)
  {}

  /** The number a field holds; of a string, its length. */
  function Number(f: Field): int {
    match f
    case TypeF(t) => t
    case CharF(c) => c
    case UCharF(b) => b
    case IntF(i) => i
    case UIntF(u) => u
    case ShortF(s) => s
    case UShortF(v) => v
    case StringF(str) => |str|
  }

  /** How many values fit in `n` bytes. */
  function Width(n: nat): nat {
    if n == 1 then 0x100 else if n == 2 then 0x1_0000 else 0x1_0000_0000
  }

  lemma RawIsNumber(f: Field)
    requires f.Sendable()
    ensures var w := Width(Size(KindOf(f))); ToRaw(f) < w && (ToRaw(f) - Number(f)) % w == 0
  {
    match f {
      case CharF(c) => ConversionsCongruent(c);
      case IntF(i) => ConversionsCongruent(i);
      case ShortF(s) => ConversionsCongruent(s);
      case _ =>
    }
  }

  lemma DigitsValue(n: nat, v: Raw)
    requires n == 1 || n == 2 || n == 4
    requires v < Width(n)
    ensures BigEndianValue(Digits(n, v)) == v
  {
    WordBytes32(v, []);
    if n == 2 {
      WordBytes16(v, []);
    }
    assert [ToByte(v)][..0] == [];
  }

  /** The bytes of a field: 1, 2 or 4 of them, which are its number modulo their width, most
      significant first, and of a string then the characters. */
  lemma FieldBytes(f: Field, bs: seq<Byte>, n: nat)
    requires f.Sendable() && bs == Encode(f)
    requires n == if f.CharF? || f.UCharF? then 1 else if f.ShortF? || f.UShortF? then 2 else 4
    ensures |bs| == n + if f.StringF? then |f.str| else 0
    ensures (BigEndianValue(bs[..n]) - Number(f)) % Width(n) == 0
    ensures f.StringF? ==> bs[n..] == f.str
  {
    RawIsNumber(f);
    DigitsValue(n, ToRaw(f));
    assert bs[..n] == Digits(n, ToRaw(f));
  }

  /** The field of kind `k` that starts at `at`, and where it ends; None when it runs off the buffer. */
  function DecodeAt(k: Kind, buf: seq<Byte>, at: nat): Option<(Field, nat)> {
    var n := at + Size(k);
    if n > |buf| then None else
      var v := DigitsAt(Size(k), buf, at);
      if k.StringK? then
        if n + v > |buf| then None else Some((FromRaw(k, v, buf[n..n + v]), n + v))
      else Some((FromRaw(k, v, []), n))
  }

  function Kinds(fs: seq<Field>): seq<Kind> {
    if fs == [] then [] else Kinds(fs[..|fs| - 1]) + [KindOf(fs[|fs| - 1])]
  }

  ghost predicate AllSendable(fs: seq<Field>) {
    forall i :: 0 <= i < |fs| ==> fs[i].Sendable()
  }

  /** A run of pack calls: each field goes behind the ones before it. */
  ghost function EncodeAll(fs: seq<Field>): seq<Byte>
    requires AllSendable(fs)
  {
    if fs == [] then [] else EncodeAll(fs[..|fs| - 1]) + Encode(fs[|fs| - 1])
  }

  /** A run of unpack calls from one cursor. */
  function DecodeAll(ks: seq<Kind>, buf: seq<Byte>, at: nat): Option<(seq<Field>, nat)> {
    if ks == [] then Some(([], at)) else
      match DecodeAll(ks[..|ks| - 1], buf, at)
      case None => None
      case Some((fs, next)) =>
        match DecodeAt(ks[|ks| - 1], buf, next)
        case None => None
        case Some((f, end)) => Some((fs + [f], end))
  }

  lemma NumberRoundTrip(before: seq<Byte>, f: Field, bytes: seq<Byte>, after: seq<Byte>, buf: seq<Byte>, end: nat)
    requires !f.StringF? && bytes == Encode(f) && buf == before + bytes + after && end == |before| + |bytes|
    ensures DecodeAt(KindOf(f), buf, |before|) == Some((f, end))
  {
    FromToRaw(f);
    DigitsReadBack(Size(KindOf(f)), before, ToRaw(f), after);
  }

  lemma StringForm(str: seq<Byte>)
    requires |str| < 0x1_0000_0000
    ensures Encode(StringF(str)) == Big32(|str|) + str
  {}

  lemma StringSlice(before: seq<Byte>, head: seq<Byte>, str: seq<Byte>, after: seq<Byte>, buf: seq<Byte>)
    requires buf == before + (head + str) + after
    ensures buf == before + head + (str + after)
    ensures var at := |before| + |head|; buf[at..at + |str|] == str
  {}

  lemma DecodeString(buf: seq<Byte>, at: nat, str: seq<Byte>, end: nat)
    requires end == at + 4 + |str| <= |buf| && Word32(buf, at) == |str| && buf[at + 4..end] == str
    ensures DecodeAt(StringK, buf, at) == Some((StringF(str), end))
  {}

  lemma StringRoundTrip(before: seq<Byte>, str: seq<Byte>, bytes: seq<Byte>, after: seq<Byte>, buf: seq<Byte>, end: nat)
    requires |str| < 0x1_0000_0000 && bytes == Encode(StringF(str))
    requires buf == before + bytes + after && end == |before| + |bytes|
    ensures DecodeAt(StringK, buf, |before|) == Some((StringF(str), end))
  {
    var head := Big32(|str|);
    assert bytes == head + str by { StringForm(str); }
    StringSlice(before, head, str, after, buf);
    assert Word32(buf, |before|) == |str| by { Word32OfBig32(before, |str|, str + after); }
    DecodeString(buf, |before|, str, end);
  }

  /** One field survives the trip wherever in a message it sits. */
  lemma FieldRoundTrip(before: seq<Byte>, f: Field, bytes: seq<Byte>, after: seq<Byte>, buf: seq<Byte>, end: nat)
    requires f.Sendable() && bytes == Encode(f) && buf == before + bytes + after && end == |before| + |bytes|
    ensures DecodeAt(KindOf(f), buf, |before|) == Some((f, end))
  {
    if f.StringF? {
      StringRoundTrip(before, f.str, bytes, after, buf, end);
    } else {
      NumberRoundTrip(before, f, bytes, after, buf, end);
    }
  }

  /** Unpacking the kinds of `fs` from `at` yields `fs` and leaves the cursor at `end`. */
  ghost predicate Reads(fs: seq<Field>, buf: seq<Byte>, at: nat, end: nat) {
    var r := DecodeAll(Kinds(fs), buf, at);
    r.Some? && r.value.0 == fs && r.value.1 == end
  }

  lemma ReadsNext(fs: seq<Field>, f: Field, buf: seq<Byte>, at: nat, mid: nat, end: nat)
    requires fs != [] && f == fs[|fs| - 1]
    requires Reads(fs[..|fs| - 1], buf, at, mid)
    requires DecodeAt(KindOf(f), buf, mid) == Some((f, end))
    ensures Reads(fs, buf, at, end)
  {
    var n, ks := |fs| - 1, Kinds(fs);
    assert ks[..|ks| - 1] == Kinds(fs[..n]) && ks[|ks| - 1] == KindOf(f);
    assert fs == fs[..n] + [f];
  }

  lemma Split(before: seq<Byte>, first: seq<Byte>, rest: seq<Byte>, after: seq<Byte>, buf: seq<Byte>)
    requires buf == before + (first + rest) + after
    ensures buf == before + first + (rest + after)
    ensures buf == (before + first) + rest + after
  {}

  /** Any sequence of fields, packed in order, unpacks in order to the same values, and the
      unpacking cursor ends exactly where the packing cursor stopped. */
  lemma {:induction false} RoundTrip(before: seq<Byte>, fs: seq<Field>, after: seq<Byte>, buf: seq<Byte>)
    requires AllSendable(fs) && buf == before + EncodeAll(fs) + after
    ensures Reads(fs, buf, |before|, |before| + |EncodeAll(fs)|)
    decreases |fs|
  {
    if fs == [] {
    } else {
      var n, f := |fs| - 1, fs[|fs| - 1];
      var front, bytes := EncodeAll(fs[..n]), Encode(f);
      var mid := before + front;
      var end := |mid| + |bytes|;
      assert EncodeAll(fs) == front + bytes;
      Split(before, front, bytes, after, buf);
      RoundTrip(before, fs[..n], bytes + after, buf);
      FieldRoundTrip(mid, f, bytes, after, buf, end);
      ReadsNext(fs, f, buf, |before|, |mid|, end);
    }
  }
}
