/**
 The metaserver itself: four lists of handshakes and four peak counters, updated in place by the
 handlers, the reaper and the dispatch loop.  Every method is proved against the steps of the
 registry.
 */
module MetaserverProcess {
  import opened Wire
  import opened NetMessage
  import opened Messages
  import opened Registry
  import opened Paging
  import opened Histories
  import opened Dispatch

  /** The record that a handler fills in.  A list holds copies of such records, never the record
      itself: an element is an Entry. */
  class Handshake {
    var mAddr: UInt32
    var mHandshake: UInt32
    var mTimestamp: int

    function Value(): Entry
      reads this
    {
      Entry(mAddr, mHandshake, mTimestamp)
    }

    constructor ()
    {
    }

    method SetValues(a: UInt32, h: UInt32, t: int)
      modifies this
      ensures Value() == Entry(a, h, t)
    {
      mAddr := a;
      mHandshake := h;
      mTimestamp := t;
    }
  }

  /** The first element with the handshake value of `value`, or the end of the list. */
  method FindByHS(l: seq<Entry>, value: Handshake) returns (first: nat)
    ensures first == FirstByHandshake(l, value.mHandshake)
  {
    first := 0;
    while first != |l|
      invariant first <= |l|
      invariant forall j :: 0 <= j < first ==> l[j].handshake != value.mHandshake
    {
      if l[first].handshake == value.mHandshake {
        return;
      }
      first := first + 1;
    }
  }

  /** The first element with the address of `value`, or the end of the list. */
  method FindByAddr(l: seq<Entry>, value: Handshake) returns (first: nat)
    ensures first == FirstByAddress(l, value.mAddr)
  {
    first := 0;
    while first != |l|
      invariant first <= |l|
      invariant forall j :: 0 <= j < first ==> l[j].addr != value.mAddr
    {
      if l[first].addr == value.mAddr {
        return;
      }
      first := first + 1;
    }
  }

  datatype ListType = SERVER_HANDSHAKE_LIST | CLIENT_HANDSHAKE_LIST | SERVER_LIST | CLIENT_LIST

  /** Checking one more entry: it is erased at the cursor, or the cursor moves on. */
  lemma ReapOne(before: seq<Entry>, checks: nat, list: seq<Entry>, lead: nat, clock: nat -> int, interval: nat)
    requires lead < |list| && checks < |before| && list[lead..] == before[checks..]
    requires list[..lead] == Survivors(before[..checks], clock, interval)
    ensures list[lead] == before[checks]
    ensures var e := list[lead];
            var list', lead' := if Stale(e, clock(checks), interval) then Erase(list, lead) else list,
                                if Stale(e, clock(checks), interval) then lead else lead + 1;
            list'[lead'..] == before[checks + 1..]
            && list'[..lead'] == Survivors(before[..checks + 1], clock, interval)
  {
    var e := list[lead];
    assert e == list[lead..][0] == before[checks];
    assert list[lead..][1..] == before[checks + 1..];
    assert before[..checks + 1][..checks] == before[..checks];
    if Stale(e, clock(checks), interval) {
      assert Erase(list, lead)[..lead] == list[..lead] + [] && Erase(list, lead)[lead..] == list[lead..][1..];
    } else {
      assert list[..lead + 1] == list[..lead] + [e];
    }
  }

  lemma HalfReaped(b: Build, s: Half, start: int, end: int, activeClock: nat -> int, pendingClock: nat -> int, s': Half)
    requires s'.active == Survivors(s.active, activeClock, ReapInterval(b))
    requires s'.pending == Survivors(s.pending, pendingClock, ReapInterval(b))
    requires s'.peakActive == Max(s.peakActive, |s.active|) && s'.peakPending == Max(s.peakPending, |s.pending|)
    ensures s' == Next(b, s, Reap(start, end, activeClock, pendingClock))
  {}

  class Metaserver {
    const build: Build
    const host: Host

    var mActiveServers: seq<Entry>
    var mActiveClients: seq<Entry>
    var mServerHandshakes: seq<Entry>
    var mClientHandshakes: seq<Entry>
    var mPeakActiveServers: int
    var mPeakActiveClients: int
    var mPeakPendingServerHandshakes: int
    var mPeakPendingClientHandshakes: int
    var mPacketCount: nat

    /** Everything given to sendto() so far. */
    var sent: seq<Outgoing>

    /** The lists and peaks as one value. */
    function View(): State
      reads this
    {
      State(Half(mActiveServers, mServerHandshakes, mPeakActiveServers, mPeakPendingServerHandshakes),
            Half(mActiveClients, mClientHandshakes, mPeakActiveClients, mPeakPendingClientHandshakes))
    }

    constructor (build: Build, host: Host)
      ensures View() == INITIAL && sent == [] && mPacketCount == 0
      ensures this.build == build && this.host == host
    {
      this.build := build;
      this.host := host;
      mActiveServers := [];
      mActiveClients := [];
      mServerHandshakes := [];
      mClientHandshakes := [];
      mPeakActiveServers := 0;
      mPeakActiveClients := 0;
      mPeakPendingServerHandshakes := 0;
      mPeakPendingClientHandshakes := 0;
      mPacketCount := 0;
      sent := [];
    }

    // ---------- Keepalives ----------

    /** The reply goes through the message class and both its getters. */
    method SendHandshake(to: UInt32, handshake: UInt32)
      modifies this`sent
      ensures sent == old(sent) + [Outgoing(to, HandshakeBytes(handshake))]
    {
      ConversionsInvert(handshake, 0, 0, 0, 0, 0);
      var msg := new HandshakeMsg(host, ToInt32(handshake));
      var buffer := msg.GetPackedBuffer();
      assert msg.base.Packed() == HandshakeBytes(handshake);
      var length := msg.GetPackedBufferLength();
      sent := sent + [Outgoing(to, buffer[..length])];
    }

    method HandleServerKeepalive(sender: UInt32, now: int, random: UInt32)
      modifies this`mServerHandshakes, this`mPeakPendingServerHandshakes, this`sent
      ensures View() == Step(build, old(View()), ServerKeepalive(sender, random, now))
      ensures mServerHandshakes == old(mServerHandshakes) + [Entry(sender, random, now)]
      ensures sent == old(sent) + AnswerTo(build, old(View()), ServerKeepalive(sender, random, now))
      ensures sent == old(sent) + [Outgoing(sender, HandshakeBytes(random))]
    {
      var handshake: UInt32 := random;
      var hs := new Handshake();
      hs.SetValues(sender, handshake, now);
      mServerHandshakes := mServerHandshakes + [hs.Value()];
      var active := |mServerHandshakes|;
      if active > mPeakPendingServerHandshakes {
        mPeakPendingServerHandshakes := active;
      }
      SendHandshake(sender, handshake);
    }

    method HandleClientKeepalive(sender: UInt32, now: int, random: UInt32)
      modifies this`mClientHandshakes, this`mPeakPendingClientHandshakes, this`sent
      ensures View() == Step(build, old(View()), ClientKeepalive(sender, random, now))
      ensures mClientHandshakes == old(mClientHandshakes) + [Entry(sender, random, now)]
      ensures sent == old(sent) + AnswerTo(build, old(View()), ClientKeepalive(sender, random, now))
      ensures sent == old(sent) + [Outgoing(sender, HandshakeBytes(random))]
    {
      var handshake: UInt32 := random;
      var hs := new Handshake();
      hs.SetValues(sender, handshake, now);
      mClientHandshakes := mClientHandshakes + [hs.Value()];
      var active := |mClientHandshakes|;
      if active > mPeakPendingClientHandshakes {
        mPeakPendingClientHandshakes := active;
      }
      SendHandshake(sender, handshake);
    }

    // ---------- Shakes ----------

    /** Whoever sends a pending value is listed, or its timestamp refreshed; a value that is not
        pending changes nothing. */
    method HandleServerShake(sender: UInt32, msg: ServerShakeMsg, now: int)
      modifies this`mServerHandshakes, this`mActiveServers, this`mPeakActiveServers
      ensures View() == Step(build, old(View()), ServerShake(sender, msg.mHandshake, now))
    {
      var handshake: UInt32 := msg.mHandshake;
      var searchFor := new Handshake();
      searchFor.SetValues(sender, handshake, 0);
      var i := FindByHS(mServerHandshakes, searchFor);
      if i != |mServerHandshakes| {
        mServerHandshakes := mServerHandshakes[..i] + mServerHandshakes[i + 1..];
        i := FindByAddr(mActiveServers, searchFor);
        if i == |mActiveServers| {
          searchFor.SetValues(sender, 0, now);
          mActiveServers := mActiveServers + [searchFor.Value()];
          var active := |mActiveServers|;
          if active > mPeakActiveServers {
            mPeakActiveServers := active;
          }
        } else {
          mActiveServers := mActiveServers[i := mActiveServers[i].(time := now)];
        }
      }
    }

    method HandleClientShake(sender: UInt32, msg: ClientShakeMsg, now: int)
      modifies this`mClientHandshakes, this`mActiveClients, this`mPeakActiveClients
      ensures View() == Step(build, old(View()), ClientShake(sender, ToUInt32(msg.mHandshake), now))
    {
      var handshake := ToUInt32(msg.mHandshake);
      var searchFor := new Handshake();
      searchFor.SetValues(sender, handshake, 0);
      var i := FindByHS(mClientHandshakes, searchFor);
      if i != |mClientHandshakes| {
        mClientHandshakes := mClientHandshakes[..i] + mClientHandshakes[i + 1..];
        i := FindByAddr(mActiveClients, searchFor);
        if i == |mActiveClients| {
          searchFor.SetValues(sender, 0, now);
          mActiveClients := mActiveClients + [searchFor.Value()];
          var active := |mActiveClients|;
          if active > mPeakActiveClients {
            mPeakActiveClients := active;
          }
        } else {
          mActiveClients := mActiveClients[i := mActiveClients[i].(time := now)];
        }
      }
    }

    // ---------- Terminations ----------

    /** Erases only the first match. */
    method HandleTerminate(sender: UInt32, ghost now: int)
      modifies this`mActiveServers
      ensures View() == Step(build, old(View()), ServerTerminate(sender, now))
    {
      var searchFor := new Handshake();
      searchFor.SetValues(sender, 0, 0);
      var i := FindByAddr(mActiveServers, searchFor);
      if i != |mActiveServers| {
        mActiveServers := mActiveServers[..i] + mActiveServers[i + 1..];
      }
    }

    // ---------- The reaper ----------

    function ListOf(which: ListType): seq<Entry>
      reads this
    {
      match which
      case SERVER_LIST => mActiveServers
      case CLIENT_LIST => mActiveClients
      case SERVER_HANDSHAKE_LIST => mServerHandshakes
      case CLIENT_HANDSHAKE_LIST => mClientHandshakes
    }

    function PeakOf(which: ListType): int
      reads this
    {
      match which
      case SERVER_LIST => mPeakActiveServers
      case CLIENT_LIST => mPeakActiveClients
      case SERVER_HANDSHAKE_LIST => mPeakPendingServerHandshakes
      case CLIENT_HANDSHAKE_LIST => mPeakPendingClientHandshakes
    }

    /** Write through the list pointer. */
    method SetList(which: ListType, l: seq<Entry>)
      modifies this`mActiveServers, this`mActiveClients, this`mServerHandshakes, this`mClientHandshakes
      ensures forall w :: ListOf(w) == if w == which then l else old(ListOf(w))
    {
      match which
      case SERVER_LIST => mActiveServers := l;
      case CLIENT_LIST => mActiveClients := l;
      case SERVER_HANDSHAKE_LIST => mServerHandshakes := l;
      case CLIENT_HANDSHAKE_LIST => mClientHandshakes := l;
    }

    /** Write through the peak pointer. */
    method SetPeak(which: ListType, peak: int)
      modifies this`mPeakActiveServers, this`mPeakActiveClients
      modifies this`mPeakPendingServerHandshakes, this`mPeakPendingClientHandshakes
      ensures forall w :: PeakOf(w) == if w == which then peak else old(PeakOf(w))
    {
      match which
      case SERVER_LIST => mPeakActiveServers := peak;
      case CLIENT_LIST => mPeakActiveClients := peak;
      case SERVER_HANDSHAKE_LIST => mPeakPendingServerHandshakes := peak;
      case CLIENT_HANDSHAKE_LIST => mPeakPendingClientHandshakes := peak;
    }

    /** Erases while iterating; every iteration reads the clock once, and `checks` counts them. */
    method ReapList(which: ListType, clock: nat -> int)
      modifies this
      ensures ListOf(which) == Survivors(old(ListOf(which)), clock, ReapInterval(build))
      ensures PeakOf(which) == Max(old(PeakOf(which)), |old(ListOf(which))|)
      ensures forall w :: w != which ==> ListOf(w) == old(ListOf(w)) && PeakOf(w) == old(PeakOf(w))
      ensures sent == old(sent) && mPacketCount == old(mPacketCount)
    {
      var list := ListOf(which);
      ghost var before := list;
      var active := |list|;
      if active > PeakOf(which) {
        SetPeak(which, active);
      }
      var lead, checks := 0, 0;
      while lead != |list|
        invariant lead <= |list| && checks <= |before| && list[lead..] == before[checks..]
        invariant list[..lead] == Survivors(before[..checks], clock, ReapInterval(build))
        decreases |list| - lead
        modifies {}
      {
        ReapOne(before, checks, list, lead, clock, ReapInterval(build));
        if clock(checks) > list[lead].time + ReapInterval(build) {
          list := list[..lead] + list[lead + 1..];
        } else {
          lead := lead + 1;
        }
        checks := checks + 1;
      }
      assert before[..checks] == before && list[..lead] == list;
      SetList(which, list);
    }

    method Reaper(sweep: Sweep)
      modifies this
      ensures View() == Step(build, old(View()), ReapPass(sweep))
      ensures sent == old(sent) && mPacketCount == old(mPacketCount)
    {
      ghost var s := View();
      ReapList(SERVER_LIST, sweep.servers);
      ReapList(CLIENT_LIST, sweep.clients);
      ReapList(SERVER_HANDSHAKE_LIST, sweep.serverHandshakes);
      ReapList(CLIENT_HANDSHAKE_LIST, sweep.clientHandshakes);
      assert ListOf(SERVER_LIST) == Survivors(s.servers.active, sweep.servers, ReapInterval(build));
      assert ListOf(CLIENT_LIST) == Survivors(s.clients.active, sweep.clients, ReapInterval(build));
      assert ListOf(SERVER_HANDSHAKE_LIST) == Survivors(s.servers.pending, sweep.serverHandshakes, ReapInterval(build));
      assert ListOf(CLIENT_HANDSHAKE_LIST) == Survivors(s.clients.pending, sweep.clientHandshakes, ReapInterval(build));
      assert PeakOf(SERVER_LIST) == Max(s.servers.peakActive, |s.servers.active|);
      assert PeakOf(CLIENT_LIST) == Max(s.clients.peakActive, |s.clients.active|);
      assert PeakOf(SERVER_HANDSHAKE_LIST) == Max(s.servers.peakPending, |s.servers.pending|);
      assert PeakOf(CLIENT_HANDSHAKE_LIST) == Max(s.clients.peakPending, |s.clients.pending|);
      HalfReaped(build, s.servers, sweep.start, sweep.end, sweep.servers, sweep.serverHandshakes, View().servers);
      HalfReaped(build, s.clients, sweep.start, sweep.end, sweep.clients, sweep.clientHandshakes, View().clients);
    }

    // ---------- List requests ----------

    /** Fill one response from position `start` until it refuses or the list ends. */
    method FillResponse(start: nat) returns (response: ListResponseMsg)
      requires start <= |mActiveServers|
      ensures fresh(response) && fresh(response.base) && fresh(response.base.mBuffer)
      ensures response.Valid() && !response.base.mPacked && response.base.mLength == 0
      ensures Reply(response.mTotal, Unsigned(response.mList)) == ReplyTo(build, Addresses(mActiveServers), start)
    {
      var i := start;
      response := new ListResponseMsg(host, build);
      ghost var addresses := Addresses(mActiveServers);
      if i != |mActiveServers| {
        response.SetTotalServers(ToUInt32(|mActiveServers|));
        while i != |mActiveServers|
          invariant start <= i <= |mActiveServers| && i - start <= PageMax(build)
          invariant response.Valid() && fresh(response) && fresh(response.base) && fresh(response.base.mBuffer)
          invariant !response.base.mPacked && response.base.mLength == 0
          invariant response.mMax == PageMax(build) && response.mTotal == ToUInt32(|mActiveServers|)
          invariant response.mList == Signed(addresses[start..i])
        {
          var added := response.AddServer(ToInt32(mActiveServers[i].addr));
          if !added {
            break;
          }
          assert addresses[start..i + 1] == addresses[start..i] + [mActiveServers[i].addr];
          i := i + 1;
        }
        UnsignedOfSigned(addresses[start..i]);
      }
    }

    /** Walks to the offset, then answers with the page that starts there. */
    method HandleListRequest(sender: UInt32, msg: ListRequestMsg, ghost now: int)
      requires ToUInt32(msg.mBeginningFrom) <= |mActiveServers|
      modifies this`sent
      ensures sent == old(sent) + AnswerTo(build, View(), ListRequest(sender, ToUInt32(msg.mBeginningFrom), now))
    {
      var from := ToUInt32(msg.mBeginningFrom);
      var i, j := 0, 0;
      if from != 0 {
        while j < from
          invariant i == j <= from
        {
          j := j + 1;
          i := i + 1;
        }
      }
      var response := FillResponse(i);
      ghost var page := ListResponseBytes(response.mTotal, Unsigned(response.mList));
      var buffer := response.GetPackedBuffer();
      assert response.base.Packed() == page;
      var length := response.GetPackedBufferLength();
      sent := sent + [Outgoing(sender, buffer[..length])];
    }

    // ---------- The dispatch loop ----------

    /** The switch over the message type.  The selected message class parses the datagram again and
        always verifies the type that the dispatcher saw. */
    method HandleDatagram(sender: UInt32, mesg: Packet, now: int, random: UInt32)
      requires InRange(View(), EventOf(mesg, sender, now, random))
      modifies this
      ensures View() == Step(build, old(View()), EventOf(mesg, sender, now, random))
      ensures sent == old(sent) + AnswerTo(build, old(View()), EventOf(mesg, sender, now, random))
      ensures mPacketCount == old(mPacketCount)
    {
      ConversionsInvert(Payload(mesg), 0, 0, 0, 0, 0);
      var netmsg := new NetMsg.FromMessage(host, mesg);
      var t := netmsg.GetType();
      if t == NMT_SERVERKEEPALIVE {
        HandleServerKeepalive(sender, now, random);
      } else if t == NMT_CLIENTKEEPALIVE {
        HandleClientKeepalive(sender, now, random);
      } else if t == NMT_SERVERSHAKE {
        var msg := new ServerShakeMsg.FromMessage(host, mesg);
        HandleServerShake(sender, msg, now);
      } else if t == NMT_CLIENTSHAKE {
        var msg := new ClientShakeMsg.FromMessage(host, mesg);
        HandleClientShake(sender, msg, now);
      } else if t == NMT_TERMINATE {
        var msg := new TerminateMsg.FromMessage(host, mesg);
        var good := msg.base.Good();
        if good {
          HandleTerminate(sender, now);
        }
      } else if t == NMT_LISTREQ {
        var msg := new ListRequestMsg.FromMessage(host, mesg);
        var good := msg.base.Good();
        if good {
          HandleListRequest(sender, msg, now);
        }
      }
    }

    /** One turn: the reaper if the alarm flag is set, then the datagram if one was received. */
    method TakeTurn(turn: Turn)
      requires Servable(build, View(), TurnEvents(turn))
      modifies this
      ensures View() == After(build, old(View()), TurnEvents(turn))
      ensures sent == old(sent) + SentBy(build, old(View()), TurnEvents(turn))
      ensures mPacketCount == old(mPacketCount) + if turn.received.Datagram? then 1 else 0
    {
      ghost var s := View();
      if turn.alarm {
        Reaper(turn.sweep);
      }
      match turn.received
      case Failed =>
        QuietTurn(build, s, turn);
      case Datagram(sender, bytes, now, random) =>
        BusyTurn(build, s, turn);
        HandleDatagram(sender, bytes, now, random);
        mPacketCount := mPacketCount + 1;
    }

    /** Turn `k` of an input whose earlier turns led here. */
    ghost predicate Standing(turns: seq<Turn>, k: nat, s: State, base: seq<Outgoing>, count: nat)
      requires k <= |turns|
      reads this
    {
      && Reached(build, s, EventsOf(turns[..k]), View(), base, sent)
      && mPacketCount == count + DatagramCount(turns[..k])
    }

    method ProcessTurn(turns: seq<Turn>, k: nat, ghost s: State, ghost base: seq<Outgoing>, ghost count: nat)
      requires k < |turns| && Servable(build, s, EventsOf(turns)) && Standing(turns, k, s, base, count)
      modifies this
      ensures Standing(turns, k + 1, s, base, count)
    {
      TurnByTurn(build, s, turns, k, View(), base, sent);
      TakeTurn(turns[k]);
    }

    /** The endless loop, up to any point: the registry goes through exactly the steps that the
        received datagrams and alarms call for, and sends exactly the answers. */
    method Process(turns: seq<Turn>)
      requires Servable(build, View(), EventsOf(turns))
      modifies this
      ensures View() == After(build, old(View()), EventsOf(turns))
      ensures sent == old(sent) + SentBy(build, old(View()), EventsOf(turns))
      ensures mPacketCount == old(mPacketCount) + DatagramCount(turns)
    {
      var k := 0;
      while k < |turns|
        invariant k <= |turns| && Standing(turns, k, old(View()), old(sent), old(mPacketCount))
      {
        ProcessTurn(turns, k, old(View()), old(sent), old(mPacketCount));
        k := k + 1;
      }
      assert turns[..k] == turns;
    }
  }

  /** The main program: a fresh metaserver serves any input.  Its lists and peaks end in the last
      state of the history of that input, so everything proved of histories holds of the object. */
  method Serve(build: Build, host: Host, turns: seq<Turn>) returns (metaserver: Metaserver, ghost xs: seq<State>)
    requires Servable(build, INITIAL, EventsOf(turns))
    ensures IsHistory(build, EventsOf(turns), xs) && metaserver.View() == xs[|EventsOf(turns)|]
    ensures metaserver.sent == SentBy(build, INITIAL, EventsOf(turns))
    ensures metaserver.mPacketCount == DatagramCount(turns)
  {
    metaserver := new Metaserver(build, host);
    metaserver.Process(turns);
    xs := AfterIsHistory(build, EventsOf(turns));
  }
}
