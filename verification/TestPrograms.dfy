/**
 The test server and the test client: C programs that build packets word by word in a plain
 buffer.  What they receive is a parameter; what they send is a result.
 */
module TestPrograms {
  import opened Wire
  import opened NetMessage
  import opened Messages
  import opened Paging

  const MAXLINE: nat := 4096

  /** Writes one word at offset `at`; returns the offset behind it and the new packet size. */
  method PackUInt32(host: Host, data: UInt32, buffer: array<Byte>, at: nat, size: nat) returns (end: nat, newSize: nat)
    requires at + 4 <= buffer.Length
    modifies buffer
    ensures buffer[..] == old(buffer[..at]) + Big32(data) + old(buffer[at + 4..])
    ensures end == at + 4 && newSize == size + 4
  {
    StoreIsNetworkOrder32(host, data);
    var netorder := Htonl(host, data);
    CopyInto(buffer, at, Store32(host, netorder));
    newSize := size + 4;
    end := at + 4;
  }

  method UnpackUInt32(host: Host, buffer: array<Byte>, at: nat) returns (dest: UInt32, end: nat)
    requires at + 4 <= buffer.Length
    ensures dest == Word32(buffer[..], at) && end == at + 4
  {
    var bytes := buffer[at..at + 4];
    LoadIsNetworkOrder32(host, bytes);
    dest := Htonl(host, Load32(host, bytes));
    end := at + 4;
  }

  /** Packs a message of one word into a buffer and returns what sendto() is given. */
  method OneWordPacket(host: Host, mesg: array<Byte>, a: UInt32) returns (packet: seq<Byte>)
    requires mesg.Length == MAXLINE
    modifies mesg
    ensures packet == Words([a])
  {
    var ptr, packetSize := PackUInt32(host, a, mesg, 0, 0);
    FewWords(a, 0, 0);
    packet := mesg[..packetSize];
  }

  method TwoWordPacket(host: Host, mesg: array<Byte>, a: UInt32, b: UInt32) returns (packet: seq<Byte>)
    requires mesg.Length == MAXLINE
    modifies mesg
    ensures packet == Words([a, b])
  {
    var ptr, packetSize := PackUInt32(host, a, mesg, 0, 0);
    ptr, packetSize := PackUInt32(host, b, mesg, ptr, packetSize);
    FewWords(a, b, 0);
    packet := mesg[..packetSize];
  }

  /** recvfrom() into the start of the buffer. */
  method Receive(mesg: array<Byte>, reply: seq<Byte>)
    requires |reply| <= mesg.Length
    modifies mesg
    ensures mesg[..|reply|] == reply
  {
    CopyInto(mesg, 0, reply);
  }

  lemma SameWord(long: seq<Byte>, short: seq<Byte>, at: nat)
    requires at + 4 <= |short| <= |long| && long[..|short|] == short
    ensures Word32(long, at) == Word32(short, at)
  {
    assert forall k :: 0 <= k < |short| ==> long[k] == long[..|short|][k];
  }

  /** The packet that answers a handshake reply: it carries the value of the reply. */
  function ShakePacket(shakeType: UInt32, reply: seq<Byte>): (packet: seq<Byte>)
    requires 8 <= |reply|
    ensures |packet| == 8
  {
    Words([shakeType, Word32(reply, 4)])
  }

  lemma BytesOfWord(bytes: seq<Byte>)
    requires |bytes| == 4
    ensures Big32(Word32(bytes, 0)) == bytes
  {
    SplitWord32(bytes[0], bytes[1], bytes[2], bytes[3]);
  }

  /** The packets in bytes: whether a reply is a handshake, and the shake with the bytes of its value. */
  lemma PacketBytes(shakeType: Byte, reply: seq<Byte>)
    requires 4 <= |reply|
    ensures Word32(reply, 0) == NMT_HANDSHAKE <==> reply[..4] == [0, 0, 0, 3]
    ensures 8 <= |reply| ==> ShakePacket(shakeType, reply) == [0, 0, 0, shakeType] + reply[4..8]
  {
    BytesOfWord(reply[..4]);
    assert Word32(reply, 0) == Word32(reply[..4], 0);
    if 8 <= |reply| {
      BytesOfWord(reply[4..8]);
      assert Word32(reply, 4) == Word32(reply[4..8], 0);
      FewWords(shakeType, Word32(reply, 4), 0);
    }
  }

  // ---------- The test server ----------

  /** One keepalive: it is sent, and a handshake reply is answered with a server shake that carries
      the same value; any other reply is not answered. */
  method MetaserverKeepalive(host: Host, reply: seq<Byte>) returns (sent: seq<seq<Byte>>)
    requires 4 <= |reply| <= MAXLINE
    requires Word32(reply, 0) == NMT_HANDSHAKE ==> 8 <= |reply|
    ensures sent == [Words([NMT_SERVERKEEPALIVE])]
                    + if Word32(reply, 0) == NMT_HANDSHAKE then [ShakePacket(NMT_SERVERSHAKE, reply)] else []
    ensures sent[0] == [0, 0, 0, 1] && |sent| == if reply[..4] == [0, 0, 0, 3] then 2 else 1
    ensures reply[..4] == [0, 0, 0, 3] ==> sent[1] == [0, 0, 0, 4] + reply[4..8]
  {
    TypeBytes();
    PacketBytes(4, reply);
    var mesg := new Byte[MAXLINE];
    var packet := OneWordPacket(host, mesg, NMT_SERVERKEEPALIVE);
    sent := [packet];
    Receive(mesg, reply);
    SameWord(mesg[..], reply, 0);
    var command, ptr := UnpackUInt32(host, mesg, 0);
    if command == NMT_HANDSHAKE {
      SameWord(mesg[..], reply, 4);
      var handshake;
      handshake, ptr := UnpackUInt32(host, mesg, ptr);
      packet := TwoWordPacket(host, mesg, NMT_SERVERSHAKE, handshake);
      sent := sent + [packet];
    }
  }

  method MetaserverTerminate(host: Host) returns (sent: seq<seq<Byte>>)
    ensures sent == [Words([NMT_TERMINATE])] && sent[0] == [0, 0, 0, 6]
  {
    TypeBytes();
    var mesg := new Byte[MAXLINE];
    var packet := OneWordPacket(host, mesg, NMT_TERMINATE);
    sent := [packet];
  }

  // ---------- The test client ----------

  /** What the client does before it asks for the list: the same exchange on the client's side. */
  method Greet(host: Host, reply: seq<Byte>) returns (sent: seq<seq<Byte>>)
    requires 4 <= |reply| <= MAXLINE
    requires Word32(reply, 0) == NMT_HANDSHAKE ==> 8 <= |reply|
    ensures sent == [Words([NMT_CLIENTKEEPALIVE])]
                    + if Word32(reply, 0) == NMT_HANDSHAKE then [ShakePacket(NMT_CLIENTSHAKE, reply)] else []
    ensures sent[0] == [0, 0, 0, 2] && |sent| == if reply[..4] == [0, 0, 0, 3] then 2 else 1
    ensures reply[..4] == [0, 0, 0, 3] ==> sent[1] == [0, 0, 0, 5] + reply[4..8]
  {
    TypeBytes();
    PacketBytes(5, reply);
    var mesg := new Byte[MAXLINE];
    var packet := OneWordPacket(host, mesg, NMT_CLIENTKEEPALIVE);
    sent := [packet];
    Receive(mesg, reply);
    SameWord(mesg[..], reply, 0);
    var command, ptr := UnpackUInt32(host, mesg, 0);
    if command == NMT_HANDSHAKE {
      SameWord(mesg[..], reply, 4);
      var handshake;
      handshake, ptr := UnpackUInt32(host, mesg, ptr);
      packet := TwoWordPacket(host, mesg, NMT_CLIENTSHAKE, handshake);
      sent := sent + [packet];
    }
  }

  /** A reply the client can read: a list response holds the addresses it announces. */
  predicate Readable(d: seq<Byte>) {
    && 4 <= |d| <= MAXLINE
    && (Word32(d, 0) == NMT_LISTRESP ==> 12 <= |d| && 12 + 4 * Word32(d, 8) <= |d|)
  }

  predicate IsPage(d: seq<Byte>) {
    Readable(d) && Word32(d, 0) == NMT_LISTRESP
  }

  function AddressesIn(d: seq<Byte>, n: nat): (l: seq<UInt32>)
    requires 12 + 4 * n <= |d|
    ensures |l| == n
  {
    seq(n, i requires 0 <= i < n => Word32(d, 12 + 4 * i))
  }

  function ReplyOf(d: seq<Byte>): Reply
    requires IsPage(d)
  {
    Reply(Word32(d, 4), AddressesIn(d, Word32(d, 8)))
  }

  /** Request `k` went out with the client's offset, and reply `k` was taken in. */
  ghost predicate TurnAt(replies: seq<seq<Byte>>, requests: seq<seq<Byte>>, cs: seq<Client>, k: nat)
    requires k < |replies| && k < |requests| && k + 1 < |cs|
  {
    && !cs[k].Done()
    && requests[k] == Words([NMT_LISTREQ, cs[k].from])
    && IsPage(replies[k])
    && cs[k + 1] == Absorb(cs[k], ReplyOf(replies[k]))
  }

  /** Later requests and states leave the turns taken so far as they were. */
  lemma TurnsStay(replies: seq<seq<Byte>>, requests: seq<seq<Byte>>, requests': seq<seq<Byte>>, cs: seq<Client>,
                  cs': seq<Client>, n: nat)
    requires n <= |replies| && n <= |requests| && n < |cs| && requests <= requests' && cs <= cs'
    requires forall k :: 0 <= k < n ==> TurnAt(replies, requests, cs, k)
    ensures forall k :: 0 <= k < n ==> TurnAt(replies, requests', cs', k)
  {
    forall k | 0 <= k < n
      ensures TurnAt(replies, requests', cs', k)
    {
      assert TurnAt(replies, requests, cs, k);
    }
  }

  /** Reads one page into the client's variables. */
  method ReadPage(host: Host, mesg: array<Byte>, d: seq<Byte>)
    returns (total: UInt32, packed: UInt32, page: seq<UInt32>)
    requires IsPage(d) && mesg.Length == MAXLINE && mesg[..|d|] == d
    ensures Reply(total, page) == ReplyOf(d) && packed == |page|
  {
    SameWord(mesg[..], d, 4);
    SameWord(mesg[..], d, 8);
    var ptr := 4;
    total, ptr := UnpackUInt32(host, mesg, ptr);
    packed, ptr := UnpackUInt32(host, mesg, ptr);
    page := [];
    var count := packed;
    while count > 0
      invariant 0 <= count <= packed && ptr == 12 + 4 * (packed - count)
      invariant page == AddressesIn(d, packed)[..packed - count]
    {
      SameWord(mesg[..], d, ptr);
      var address;
      address, ptr := UnpackUInt32(host, mesg, ptr);
      assert address == AddressesIn(d, packed)[packed - count];
      page := page + [address];
      count := count - 1;
    }
  }

  /** The paging loop.  It runs until the client is done, until a reply is no page, or until it
      waits for a reply that has not come; `taken` replies were pages. */
  method MetaserverListReq(host: Host, replies: seq<seq<Byte>>)
    returns (requests: seq<seq<Byte>>, servers: seq<UInt32>, taken: nat, done: bool, ghost cs: seq<Client>)
    requires forall k :: 0 <= k < |replies| ==> Readable(replies[k])
    ensures taken <= |replies| && taken <= |requests| && |cs| == taken + 1 && cs[0] == START
    ensures forall k :: 0 <= k < taken ==> TurnAt(replies, requests, cs, k)
    ensures servers == cs[taken].got && done == cs[taken].Done()
    ensures if done then |requests| == taken
            else requests[taken..] == [Words([NMT_LISTREQ, cs[taken].from])]
                 && (taken < |replies| ==> !IsPage(replies[taken]))
  {
    var mesg := new Byte[MAXLINE];
    var total: UInt32, from: UInt32 := 1, 0;
    requests, servers, taken, done := [], [], 0, false;
    cs := [START];
    while true
      invariant mesg.Length == MAXLINE && fresh(mesg)
      invariant taken <= |replies| && |requests| == taken && |cs| == taken + 1 && cs[0] == START
      invariant forall k :: 0 <= k < taken ==> TurnAt(replies, requests, cs, k)
      invariant cs[taken] == Client(from, total, servers)
      decreases |replies| - taken
    {
      if from > total || total == 0 {
        done := true;
        break;
      }
      var packet := TwoWordPacket(host, mesg, NMT_LISTREQ, from);
      ghost var earlier := requests;
      requests := requests + [packet];
      TurnsStay(replies, earlier, requests, cs, cs, taken);
      if taken == |replies| {
        break;
      }
      var reply := replies[taken];
      Receive(mesg, reply);
      SameWord(mesg[..], reply, 0);
      var command, ptr := UnpackUInt32(host, mesg, 0);
      if command == NMT_PROTO_ERANGE {
        break;
      } else if command == NMT_LISTRESP {
        var packed, page;
        total, packed, page := ReadPage(host, mesg, reply);
        from := ToUInt32(from + packed);
        servers := servers + page;
        ghost var before := cs;
        cs := cs + [Absorb(cs[taken], ReplyOf(reply))];
        TurnsStay(replies, requests, requests, before, cs, taken);
        assert TurnAt(replies, requests, cs, taken);
        taken := taken + 1;
      } else {
        break;
      }
    }
  }

  lemma ReversedTwice(bytes: seq<Byte>)
    ensures Reversed(Reversed(bytes)) == bytes
  {}

  /** The address of a server is four bytes in network order, which the metaserver takes for a number
      of its own host and converts to network order when it packs them; the client converts back and
      stores the number as an address.  It has the right address exactly when both hosts have the same
      byte order, or the bytes read the same backwards. */
  lemma AddressArrives(server: Host, client: Host, bytes: seq<Byte>)
    requires |bytes| == 4
    ensures var wire := Store32(server, Htonl(server, Load32(server, bytes)));
            var got := Store32(client, Htonl(client, Load32(client, wire)));
            got == bytes <==> server == client || bytes == Reversed(bytes)
  {
    var wire := Store32(server, Htonl(server, Load32(server, bytes)));
    var sent := if server.BigEndian? then bytes else Reversed(bytes);
    StoreIsNetworkOrder32(server, Load32(server, bytes));
    BytesOfWord(sent);
    assert wire == sent;
    LoadIsNetworkOrder32(client, wire);
    BytesOfWord(wire);
    ReversedTwice(bytes);
  }

  /** The client reads from a list response exactly what the metaserver put into it. */
  lemma PageReadsBack(r: Reply)
    requires 12 + 4 * |r.page| < MAX_MSG_LENGTH
    ensures |ListResponseBytes(r.total, r.page)| == 12 + 4 * |r.page|
    ensures IsPage(ListResponseBytes(r.total, r.page))
    ensures ReplyOf(ListResponseBytes(r.total, r.page)) == r
  {
    var d := ListResponseBytes(r.total, r.page);
    ListResponseWords(r.total, r.page, []);
    assert d + [] == d;
    assert AddressesIn(d, |r.page|) == r.page;
  }

  lemma PageCut(b: Build, l: seq<UInt32>, from: nat)
    requires from <= |l| < 0x1_0000_0000
    ensures var r, k := ReplyTo(b, l, from), Min(PageMax(b), |l| - from);
            && r.page == l[from..from + k] && |r.page| == k && 12 + 4 * k <= 568
            && r.total == (if k == 0 then 0 else |l|)
  {}

  /** The answer to a list request for any list and any offset into it: the page is the next
      addresses in list order, as many as fit; its bytes stay below the buffer size; and the client
      reads back the total and every address. */
  lemma PageOnTheWire(b: Build, l: seq<UInt32>, from: nat)
    requires from <= |l| < 0x1_0000_0000
    ensures var r, k := ReplyTo(b, l, from), Min(PageMax(b), |l| - from);
            && r.page == l[from..from + k]
            && r.total == (if k == 0 then 0 else |l|)
            && |ListResponseBytes(r.total, r.page)| == 12 + 4 * k <= 568 < MAX_MSG_LENGTH
            && IsPage(ListResponseBytes(r.total, r.page))
            && ReplyOf(ListResponseBytes(r.total, r.page)) == r
  {
    PageCut(b, l, from);
    PageReadsBack(ReplyTo(b, l, from));
  }

  /** `d` is the metaserver's answer, from the list `l`, to a request at this offset. */
  ghost predicate Answered(b: Build, l: seq<UInt32>, d: seq<Byte>, from: nat)
    requires from <= |l|
  {
    var r := ReplyTo(b, l, from);
    d == ListResponseBytes(r.total, r.page)
  }

  /** Reply `k` is the metaserver's answer, for the list as it is then, to the client's offset. */
  ghost predicate Answers(b: Build, ls: seq<seq<UInt32>>, replies: seq<seq<Byte>>, cs: seq<Client>, k: nat)
    requires k < |ls| && k < |replies| && k < |cs|
  {
    cs[k].from <= |ls[k]| < 0x1_0000_0000 && Answered(b, ls[k], replies[k], cs[k].from)
  }

  /** When the replies are the metaserver's answers to the lists `ls`, the client's loop is a
      session of the paging protocol. */
  lemma LoopIsSession(b: Build, ls: seq<seq<UInt32>>, replies: seq<seq<Byte>>, requests: seq<seq<Byte>>,
                      cs: seq<Client>)
    requires |ls| <= |replies| && |ls| <= |requests| && |cs| == |ls| + 1 && cs[0] == START
    requires forall k :: 0 <= k < |ls| ==> TurnAt(replies, requests, cs, k)
    requires forall k :: 0 <= k < |ls| ==> Answers(b, ls, replies, cs, k)
    ensures IsSession(b, ls, cs)
  {
    forall k | 0 <= k < |ls|
      ensures RequestAt(b, ls, cs, k)
    {
      assert TurnAt(replies, requests, cs, k) && Answers(b, ls, replies, cs, k);
      PageReadsBack(ReplyTo(b, ls[k], cs[k].from));
    }
  }

  lemma {:induction false} FixedListSession(b: Build, l: seq<UInt32>, replies: seq<seq<Byte>>, requests: seq<seq<Byte>>,
                                            cs: seq<Client>, n: nat)
    requires |l| < 0x1_0000_0000
    requires n <= |replies| && n <= |requests| && n < |cs| && cs[0] == START
    requires forall k :: 0 <= k < n ==> TurnAt(replies, requests, cs, k)
    requires forall k :: 0 <= k < n && cs[k].from <= |l| ==> Answered(b, l, replies[k], cs[k].from)
    ensures IsSession(b, Fixed(l, n), cs[..n + 1])
    ensures cs[n].from <= |l|
  {
    if n == 0 {
      assert cs[..1] == [START];
    } else {
      var k := n - 1;
      var ls, states := Fixed(l, k), cs[..n];
      FixedListSession(b, l, replies, requests, cs, k);
      assert TurnAt(replies, requests, cs, k) && Answered(b, l, replies[k], cs[k].from);
      PageReadsBack(ReplyTo(b, l, cs[k].from));
      SessionExtends(b, ls, states, l);
      assert Fixed(l, n) == ls + [l] && cs[..n + 1] == states + [cs[n]];
      RequestsLeft(b, Fixed(l, n), cs[..n + 1], l, n);
    }
  }

  /** While the list does not change, the client's loop stops after exactly ceil(size / page size) + 1
      list requests, and has then collected the list. */
  lemma FixedListIsFetched(b: Build, l: seq<UInt32>, replies: seq<seq<Byte>>, requests: seq<seq<Byte>>,
                           cs: seq<Client>, n: nat)
    requires |l| < 0x1_0000_0000
    requires n <= |replies| && n <= |requests| && n < |cs| && cs[0] == START
    requires forall k :: 0 <= k < n ==> TurnAt(replies, requests, cs, k)
    requires forall k :: 0 <= k < n && cs[k].from <= |l| ==> Answered(b, l, replies[k], cs[k].from)
    ensures cs[n].Done() <==> n == FullPages(b, |l|) + 1
    ensures n <= FullPages(b, |l|) + 1
    ensures cs[n].Done() ==> cs[n].got == l
  {
    FixedListSession(b, l, replies, requests, cs, n);
    ExactCost(b, Fixed(l, n), cs[..n + 1], l);
    if n > 0 {
      CollectsPrefix(b, Fixed(l, n), cs[..n + 1], n - 1);
    }
  }
}
