/**
 From datagrams to events and from events to answers: what the dispatch loop makes of the bytes
 it receives, and the bytes it sends back.
 */
module Dispatch {
  import opened Wire
  import opened NetMessage
  import opened Messages
  import opened Registry
  import opened Lists
  import opened Paging
  import opened Histories

  /** A datagram of 4 to 569 bytes. */
  type Packet = d: seq<Byte> | 4 <= |d| < MAX_MSG_LENGTH witness [0, 0, 0, 0]

  /** The event that a datagram is, by its first two words.  `random` is what
      random() would return while it is handled. */
  function EventOf(d: Packet, sender: UInt32, now: int, random: UInt32): Event {
    var t := Word32(d, 0);
    if t == NMT_SERVERKEEPALIVE then ServerKeepalive(sender, random, now)
    else if t == NMT_CLIENTKEEPALIVE then ClientKeepalive(sender, random, now)
    else if t == NMT_SERVERSHAKE then ServerShake(sender, Payload(d), now)
    else if t == NMT_CLIENTSHAKE then ClientShake(sender, Payload(d), now)
    else if t == NMT_TERMINATE then ServerTerminate(sender, now)
    else if t == NMT_LISTREQ then ListRequest(sender, Payload(d), now)
    else Ignored(sender, now)
  }

  /** Only the first eight bytes of the zero-padded datagram matter. */
  lemma TrailingBytesIgnored(d: Packet, d': Packet, sender: UInt32, now: int, random: UInt32)
    requires ZeroPad(d)[..8] == ZeroPad(d')[..8]
    ensures EventOf(d, sender, now, random) == EventOf(d', sender, now, random)
  {
    var p, p' := ZeroPad(d), ZeroPad(d');
    assert forall k :: 0 <= k < 8 ==> p[k] == p[..8][k] == p'[..8][k] == p'[k];
    assert forall k :: 0 <= k < 4 ==> d[k] == p[k] && d'[k] == p'[k];
  }

  // ---------- Datagrams by their bytes ----------

  /** The four bytes behind the type; what was not received counts as 0. */
  function ValueBytes(d: Packet): (bs: seq<Byte>)
    ensures |bs| == 4 && BigEndianValue(bs) < 0x1_0000_0000
    ensures forall i :: 0 <= i < 4 ==> bs[i] == if 4 + i < |d| then d[4 + i] else 0
  {
    var b0: Byte := if 4 < |d| then d[4] else 0;
    var b1: Byte := if 5 < |d| then d[5] else 0;
    var b2: Byte := if 6 < |d| then d[6] else 0;
    var b3: Byte := if 7 < |d| then d[7] else 0;
    FourBytes(b0, b1, b2, b3);
    [b0, b1, b2, b3]
  }

  lemma PayloadByBytes(d: Packet)
    ensures Payload(d) == BigEndianValue(ValueBytes(d))
  {
    var p := ZeroPad(d);
    ZeroPadBytes(d);
    assert forall i :: 0 <= i < |d| ==> p[i] == p[..|d|][i];
    assert p[4..8] == ValueBytes(d);
    assert Word32(p, 4) == Word32(p[4..8], 0);
    WordBytes32(0, p[4..8]);
  }

  lemma TypeByBytes(d: Packet, n: Byte)
    ensures Word32(d, 0) == n <==> d[..4] == [0, 0, 0, n]
  {
    assert d[..4] == [d[0], d[1], d[2], d[3]];
  }

  /** The types that are handled. */
  predicate Known(d: Packet) {
    || d[..4] == [0, 0, 0, 1] || d[..4] == [0, 0, 0, 2] || d[..4] == [0, 0, 0, 4]
    || d[..4] == [0, 0, 0, 5] || d[..4] == [0, 0, 0, 6] || d[..4] == [0, 0, 0, 7]
  }

  /** What each datagram is, byte by byte, however long it is.  Everything else is ignored. */
  lemma EventByBytes(d: Packet, sender: UInt32, now: int, random: UInt32)
    ensures var e, value := EventOf(d, sender, now, random), BigEndianValue(ValueBytes(d));
            && (d[..4] == [0, 0, 0, 1] ==> e == ServerKeepalive(sender, random, now))
            && (d[..4] == [0, 0, 0, 2] ==> e == ClientKeepalive(sender, random, now))
            && (d[..4] == [0, 0, 0, 4] ==> e == ServerShake(sender, value, now))
            && (d[..4] == [0, 0, 0, 5] ==> e == ClientShake(sender, value, now))
            && (d[..4] == [0, 0, 0, 6] ==> e == ServerTerminate(sender, now))
            && (d[..4] == [0, 0, 0, 7] ==> e == ListRequest(sender, value, now))
            && (!Known(d) ==> e == Ignored(sender, now))
  {
    PayloadByBytes(d);
    TypeByBytes(d, 1);
    TypeByBytes(d, 2);
    TypeByBytes(d, 4);
    TypeByBytes(d, 5);
    TypeByBytes(d, 6);
    TypeByBytes(d, 7);
  }

  /** A message of two words is dispatched by the first and carries the second. */
  lemma TwoWords(t: UInt32, w: UInt32, after: seq<Byte>)
    requires 8 + |after| < MAX_MSG_LENGTH
    ensures var d := Words([t, w]) + after;
            Word32(d, 0) == t && Payload(d) == w
  {
    var d := Words([t, w]) + after;
    var tail := Zeros(MAX_MSG_LENGTH - |d|);
    WordsAt([t, w], after, 0);
    WordsAt([t, w], after + tail, 1);
    assert ZeroPad(d) == Words([t, w]) + (after + tail);
  }

  /** A datagram handed to sendto(). */
  datatype Outgoing = Outgoing(to: UInt32, bytes: seq<Byte>)

  /** A list request may not point behind the end of the list. */
  predicate InRange(s: State, e: Event) {
    e.ListRequest? ==> e.from <= |s.servers.active|
  }

  /** What is sent while an event is handled. */
  function AnswerTo(b: Build, s: State, e: Event): seq<Outgoing>
    requires InRange(s, e)
  {
    match e
    case ServerKeepalive(a, h, _) => [Outgoing(a, HandshakeBytes(h))]
    case ClientKeepalive(a, h, _) => [Outgoing(a, HandshakeBytes(h))]
    case ListRequest(a, from, _) =>
      var r := ReplyTo(b, Addresses(s.servers.active), from);
      [Outgoing(a, ListResponseBytes(r.total, r.page))]
    case _ => []
  }

  /** The events that are answered at all. */
  predicate Asks(e: Event) {
    e.ServerKeepalive? || e.ClientKeepalive? || e.ListRequest?
  }

  /** Keepalives and list requests get one datagram back, sent to where they came from; nothing else
      is answered. */
  lemma OneAnswerEach(b: Build, s: State, e: Event)
    requires InRange(s, e)
    ensures |AnswerTo(b, s, e)| == if Asks(e) then 1 else 0
    ensures Asks(e) ==> AnswerTo(b, s, e)[0].to == e.addr
  {}

  /** A datagram of any type but the six is dropped: no list or peak changes and nothing is sent. */
  lemma OtherTypesDropped(b: Build, s: State, d: Packet, sender: UInt32, now: int, random: UInt32)
    requires !Known(d)
    ensures InRange(s, EventOf(d, sender, now, random))
    ensures Step(b, s, EventOf(d, sender, now, random)) == s && AnswerTo(b, s, EventOf(d, sender, now, random)) == []
  {
    EventByBytes(d, sender, now, random);
  }

  // ---------- The input of the dispatch loop ----------

  datatype Received = Failed | Datagram(sender: UInt32, bytes: Packet, now: int, random: UInt32)

  /** One turn of the loop: the alarm flag, the clock readings a reap pass would make, and what
      recvfrom() returns. */
  datatype Turn = Turn(alarm: bool, sweep: Sweep, received: Received)

  function TurnEvents(t: Turn): seq<Event> {
    (if t.alarm then [ReapPass(t.sweep)] else [])
    + match t.received
      case Failed => []
      case Datagram(sender, bytes, now, random) => [EventOf(bytes, sender, now, random)]
  }

  function EventsOf(ts: seq<Turn>): seq<Event> {
    if ts == [] then [] else EventsOf(ts[..|ts| - 1]) + TurnEvents(ts[|ts| - 1])
  }

  function DatagramCount(ts: seq<Turn>): nat {
    if ts == [] then 0 else
      DatagramCount(ts[..|ts| - 1]) + if ts[|ts| - 1].received.Datagram? then 1 else 0
  }

  /** The state after some events. */
  function After(b: Build, s: State, es: seq<Event>): State {
    if es == [] then s else Step(b, After(b, s, es[..|es| - 1]), es[|es| - 1])
  }

  /** Every list request points into the list as it is when the request is handled. */
  predicate Servable(b: Build, s: State, es: seq<Event>) {
    if es == [] then true else
      var front := es[..|es| - 1];
      Servable(b, s, front) && InRange(After(b, s, front), es[|es| - 1])
  }

  /** All that is sent while the events are handled. */
  function SentBy(b: Build, s: State, es: seq<Event>): seq<Outgoing>
    requires Servable(b, s, es)
  {
    if es == [] then [] else
      var front := es[..|es| - 1];
      SentBy(b, s, front) + AnswerTo(b, After(b, s, front), es[|es| - 1])
  }

  function Recipients(out: seq<Outgoing>): (to: seq<UInt32>)
    ensures |to| == |out|
  {
    seq(|out|, i requires 0 <= i < |out| => out[i].to)
  }

  /** Where the keepalives and list requests among the events came from. */
  function Askers(es: seq<Event>): seq<UInt32> {
    if es == [] then [] else
      var e := es[|es| - 1];
      Askers(es[..|es| - 1]) + if Asks(e) then [e.addr] else []
  }

  /** Over any input each keepalive and each list request is answered once, in order, and nothing else
      is sent to anybody. */
  lemma {:induction false} AnswersInOrder(b: Build, s: State, es: seq<Event>)
    requires Servable(b, s, es)
    ensures Recipients(SentBy(b, s, es)) == Askers(es)
  {
    if es == [] {
    } else {
      var front, e := es[..|es| - 1], es[|es| - 1];
      AnswersInOrder(b, s, front);
      var before := After(b, s, front);
      OneAnswerEach(b, before, e);
      assert Recipients(AnswerTo(b, before, e)) == if Asks(e) then [e.addr] else [];
      RecipientsConcat(SentBy(b, s, front), AnswerTo(b, before, e));
    }
  }

  lemma RecipientsConcat(x: seq<Outgoing>, y: seq<Outgoing>)
    ensures Recipients(x + y) == Recipients(x) + Recipients(y)
  {}

  lemma {:induction false} AfterConcat(b: Build, s: State, es: seq<Event>, more: seq<Event>)
    ensures After(b, s, es + more) == After(b, After(b, s, es), more)
    ensures Servable(b, s, es + more) <==> Servable(b, s, es) && Servable(b, After(b, s, es), more)
    ensures Servable(b, s, es + more) ==>
              SentBy(b, s, es + more) == SentBy(b, s, es) + SentBy(b, After(b, s, es), more)
    decreases |more|
  {
    if more == [] {
      assert es + more == es;
    } else {
      var n := |more| - 1;
      assert (es + more)[..|es + more| - 1] == es + more[..n];
      AfterConcat(b, s, es, more[..n]);
    }
  }

  /** The state after some events from the start is the last state of their history. */
  lemma {:induction false} AfterIsHistory(b: Build, es: seq<Event>) returns (xs: seq<State>)
    ensures IsHistory(b, es, xs) && xs[|es|] == After(b, INITIAL, es)
  {
    if es == [] {
      xs := [INITIAL];
    } else {
      var front := es[..|es| - 1];
      var states := AfterIsHistory(b, front);
      HistoryExtends(b, front, states, es[|es| - 1]);
      assert es == front + [es[|es| - 1]];
      xs := states + [Step(b, states[|front|], es[|es| - 1])];
    }
  }

  lemma {:induction false} EventsPrefix(ts: seq<Turn>, k: nat) returns (more: seq<Event>)
    requires k <= |ts|
    ensures EventsOf(ts) == EventsOf(ts[..k]) + more
    decreases |ts|
  {
    if k == |ts| {
      assert ts[..k] == ts;
      more := [];
    } else {
      var front := ts[..|ts| - 1];
      assert front[..k] == ts[..k];
      var m := EventsPrefix(front, k);
      more := m + TurnEvents(ts[|ts| - 1]);
    }
  }

  /** The state in which the datagram of a turn is handled. */
  function Reaped(b: Build, s: State, t: Turn): State {
    if t.alarm then Step(b, s, ReapPass(t.sweep)) else s
  }

  lemma ReapFirst(b: Build, s: State, t: Turn)
    ensures var first := if t.alarm then [ReapPass(t.sweep)] else [];
            Servable(b, s, first) && After(b, s, first) == Reaped(b, s, t) && SentBy(b, s, first) == []
  {
    var first := if t.alarm then [ReapPass(t.sweep)] else [];
    assert t.alarm ==> first[..0] == [];
  }

  /** Without a datagram a turn is at most a reap pass. */
  lemma QuietTurn(b: Build, s: State, t: Turn)
    requires t.received.Failed?
    ensures Servable(b, s, TurnEvents(t))
    ensures After(b, s, TurnEvents(t)) == Reaped(b, s, t) && SentBy(b, s, TurnEvents(t)) == []
  {
    ReapFirst(b, s, t);
    assert TurnEvents(t) == if t.alarm then [ReapPass(t.sweep)] else [];
  }

  /** With a datagram it is that datagram, after the reap pass if there is one. */
  lemma BusyTurn(b: Build, s: State, t: Turn)
    requires t.received.Datagram? && Servable(b, s, TurnEvents(t))
    ensures var e := EventOf(t.received.bytes, t.received.sender, t.received.now, t.received.random);
            && InRange(Reaped(b, s, t), e)
            && After(b, s, TurnEvents(t)) == Step(b, Reaped(b, s, t), e)
            && SentBy(b, s, TurnEvents(t)) == AnswerTo(b, Reaped(b, s, t), e)
  {
    var e := EventOf(t.received.bytes, t.received.sender, t.received.now, t.received.random);
    var first := if t.alarm then [ReapPass(t.sweep)] else [];
    ReapFirst(b, s, t);
    assert TurnEvents(t) == first + [e];
    assert TurnEvents(t)[..|TurnEvents(t)| - 1] == first;
    assert [] + AnswerTo(b, Reaped(b, s, t), e) == AnswerTo(b, Reaped(b, s, t), e);
  }

  lemma PassThenRequest(b: Build, s: State, t: Turn, from: UInt32, l: seq<Entry>)
    requires t.alarm && t.received.Datagram? && Servable(b, s, TurnEvents(t))
    requires EventOf(t.received.bytes, t.received.sender, t.received.now, t.received.random)
             == ListRequest(t.received.sender, from, t.received.now)
    requires l == Survivors(s.servers.active, t.sweep.servers, ReapInterval(b))
    ensures from <= |l| &&
            var r := ReplyTo(b, Addresses(l), from);
            SentBy(b, s, TurnEvents(t)) == [Outgoing(t.received.sender, ListResponseBytes(r.total, r.page))]
  {
    BusyTurn(b, s, t);
    assert Reaped(b, s, t).servers.active == l;
  }

  /** In a turn with the alarm set, the list request that came is answered from what the pass leaves:
      only servers that were young enough when the pass checked them, in the old order. */
  lemma AnswerAfterAlarm(b: Build, s: State, t: Turn) returns (l: seq<Entry>, kept: seq<nat>)
    requires t.alarm && t.received.Datagram? && t.received.bytes[..4] == [0, 0, 0, 7]
    requires Servable(b, s, TurnEvents(t))
    ensures Selects(kept, s.servers.active, l, t.sweep.servers, if b.Normal? then 930 else 7)
    ensures var from := BigEndianValue(ValueBytes(t.received.bytes));
            from <= |l| &&
            var r := ReplyTo(b, Addresses(l), from);
            SentBy(b, s, TurnEvents(t)) == [Outgoing(t.received.sender, ListResponseBytes(r.total, r.page))]
  {
    var d, a := t.received.bytes, t.received.sender;
    l := Survivors(s.servers.active, t.sweep.servers, ReapInterval(b));
    kept := PassSelects(b, s.servers.active, t.sweep.servers);
    var from := BigEndianValue(ValueBytes(d));
    assert EventOf(d, a, t.received.now, t.received.random) == ListRequest(a, from, t.received.now) by {
      EventByBytes(d, a, t.received.now, t.received.random);
    }
    PassThenRequest(b, s, t, from, l);
  }

  /** How many of the events are no reap passes. */
  function NonPasses(es: seq<Event>): nat {
    if es == [] then 0 else NonPasses(es[..|es| - 1]) + if es[|es| - 1].ReapPass? then 0 else 1
  }

  lemma {:induction false} NonPassesConcat(es: seq<Event>, more: seq<Event>)
    ensures NonPasses(es + more) == NonPasses(es) + NonPasses(more)
    decreases |more|
  {
    if more == [] {
      assert es + more == es;
    } else {
      assert (es + more)[..|es + more| - 1] == es + more[..|more| - 1];
      NonPassesConcat(es, more[..|more| - 1]);
    }
  }

  lemma NonPassesInTurn(t: Turn)
    ensures NonPasses(TurnEvents(t)) == if t.received.Datagram? then 1 else 0
  {
    var es := TurnEvents(t);
    var pass := if t.alarm then [ReapPass(t.sweep)] else [];
    assert NonPasses(pass) == 0 by {
      assert t.alarm ==> pass[..0] == [];
    }
    match t.received
    case Failed =>
      assert es == pass;
    case Datagram(sender, bytes, now, random) =>
      var e := EventOf(bytes, sender, now, random);
      assert es == pass + [e];
      assert es[..|es| - 1] == pass;
  }

  /** Every datagram is exactly one event, of whatever kind, and counts as one packet. */
  lemma {:induction false} PacketsCounted(ts: seq<Turn>)
    ensures NonPasses(EventsOf(ts)) == DatagramCount(ts)
  {
    if ts == [] {
    } else {
      var front, t := ts[..|ts| - 1], ts[|ts| - 1];
      PacketsCounted(front);
      NonPassesInTurn(t);
      NonPassesConcat(EventsOf(front), TurnEvents(t));
    }
  }

  /** After the events `es` from state `s` the registry is in state `now`, and `base` has grown to `out`. */
  ghost predicate Reached(b: Build, s: State, es: seq<Event>, now: State, base: seq<Outgoing>, out: seq<Outgoing>) {
    && Servable(b, s, es)
    && now == After(b, s, es)
    && out == base + SentBy(b, s, es)
  }

  lemma ReachedNext(b: Build, s: State, es: seq<Event>, events: seq<Event>, more: seq<Event>,
                    now: State, base: seq<Outgoing>, out: seq<Outgoing>)
    requires Servable(b, s, es + events + more) && Reached(b, s, es, now, base, out)
    ensures Servable(b, now, events)
    ensures Reached(b, s, es + events, After(b, now, events), base, out + SentBy(b, now, events))
  {
    assert Servable(b, s, es + events) by { AfterConcat(b, s, es + events, more); }
    AfterConcat(b, s, es, events);
    Assoc(base, SentBy(b, s, es), SentBy(b, now, events));
  }

  lemma Assoc<T>(x: seq<T>, y: seq<T>, z: seq<T>)
    ensures x + y + z == x + (y + z)
  {}

  /** One more turn of a servable input. */
  lemma TurnByTurn(b: Build, s: State, ts: seq<Turn>, k: nat, now: State, base: seq<Outgoing>, out: seq<Outgoing>)
    requires k < |ts| && Servable(b, s, EventsOf(ts)) && Reached(b, s, EventsOf(ts[..k]), now, base, out)
    ensures var events := TurnEvents(ts[k]);
            && Servable(b, now, events)
            && Reached(b, s, EventsOf(ts[..k + 1]), After(b, now, events), base, out + SentBy(b, now, events))
    ensures DatagramCount(ts[..k + 1]) == DatagramCount(ts[..k]) + if ts[k].received.Datagram? then 1 else 0
  {
    assert ts[..k + 1][..k] == ts[..k];
    var more := EventsPrefix(ts, k + 1);
    ReachedNext(b, s, EventsOf(ts[..k]), TurnEvents(ts[k]), more, now, base, out);
  }
}
