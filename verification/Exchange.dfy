/**
 The handshake exchange from end to end: keepalive, handshake reply, shake, listing; first on one
 half of the registry, then on the bytes that travel.
 */
module Exchange {
  import opened Wire
  import opened NetMessage
  import opened Messages
  import opened Registry
  import opened Lists
  import opened Listing
  import opened Ledger
  import opened Histories
  import opened Dispatch
  import opened TestPrograms

  /** This action leaves every pending entry `e` where it is: it is no accepted shake with its
      value, and no reap check finds the entry stale. */
  ghost predicate LeavesPending(b: Build, s: Half, act: Action, e: Entry) {
    && !(Accepted(s, act) && act.h == e.handshake)
    && (act.Reap? ==>
          forall p :: 0 <= p < |s.pending| && s.pending[p] == e ==>
            act.pendingClock(p) <= e.time + ReapInterval(b))
  }

  lemma StillPending(b: Build, s: Half, act: Action, e: Entry)
    requires e in s.pending && LeavesPending(b, s, act, e)
    ensures e in Next(b, s, act).pending
  {
    var p :| 0 <= p < |s.pending| && s.pending[p] == e;
    match act {
      case Keepalive(_, _, _) =>
      case Shake(_, h, _) =>
        AcceptedIffFound(s, act);
        var i := FirstByHandshake(s.pending, h);
        if i < |s.pending| {
          assert Erase(s.pending, i)[if p < i then p else p - 1] == e;
        }
      case Terminate(_, _) =>
      case Reap(_, _, _, clock) =>
        var kept := SurvivorsSelect(s.pending, clock, ReapInterval(b));
        assert p in kept;
        var k :| 0 <= k < |kept| && kept[k] == p;
        assert Survivors(s.pending, clock, ReapInterval(b))[k] == e;
      case Idle(_, _) =>
    }
  }

  lemma {:induction false} PendingSurvives(b: Build, acts: seq<Action>, ss: seq<Half>, n: nat, m: nat, e: Entry)
    requires IsRun(b, acts, ss) && n < m <= |acts|
    requires acts[n] == Keepalive(e.addr, e.handshake, e.time)
    requires forall k :: n < k < m ==> LeavesPending(b, ss[k], acts[k], e)
    ensures e in ss[m].pending
  {
    assert StepAt(b, acts, ss, m - 1);
    if m - 1 == n {
      assert ss[m].pending[|ss[n].pending|] == e;
    } else {
      PendingSurvives(b, acts, ss, n, m - 1, e);
      StillPending(b, ss[m - 1], acts[m - 1], e);
    }
  }

  /** If nobody else spends the value in between, and no reap check finds it stale, the shake that
      carries it back is accepted: its sender is listed under the time of its arrival, and one
      pending handshake with this value is gone. */
  lemma ExchangeSucceeds(b: Build, acts: seq<Action>, ss: seq<Half>, n: nat, m: nat, e: Entry)
    requires IsRun(b, acts, ss) && n < m < |acts|
    requires acts[n] == Keepalive(e.addr, e.handshake, e.time)
    requires forall k :: n < k < m ==> LeavesPending(b, ss[k], acts[k], e)
    requires acts[m].Shake? && acts[m].h == e.handshake
    ensures Accepted(ss[m], acts[m])
    ensures Lookup(ss[m + 1].active, acts[m].addr) == Some(acts[m].now)
    ensures Values(ss[m].pending) == Values(ss[m + 1].pending) + multiset{e.handshake}
  {
    PendingSurvives(b, acts, ss, n, m, e);
    assert Accepted(ss[m], acts[m]);
    AddressesDistinct(b, acts, ss, m);
    assert StepAt(b, acts, ss, m);
    LookupNext(b, ss[m], acts[m], acts[m].addr);
    ShakeSpendsOne(b, ss[m], acts[m]);
  }

  // ---------- On the wire ----------

  function KeepaliveType(role: Role): UInt32 {
    if role.ServerRole? then NMT_SERVERKEEPALIVE else NMT_CLIENTKEEPALIVE
  }

  function ShakeType(role: Role): UInt32 {
    if role.ServerRole? then NMT_SERVERSHAKE else NMT_CLIENTSHAKE
  }

  lemma KeepaliveEvent(role: Role, a: UInt32, now: int, h: UInt32)
    ensures EventOf(Words([KeepaliveType(role)]), a, now, h)
            == if role.ServerRole? then ServerKeepalive(a, h, now) else ClientKeepalive(a, h, now)
  {
    WordsAt([KeepaliveType(role)], [], 0);
    assert Words([KeepaliveType(role)]) + [] == Words([KeepaliveType(role)]);
  }

  lemma ShakeEvent(role: Role, a: UInt32, now: int, h: UInt32, random: UInt32)
    ensures EventOf(Words([ShakeType(role), h]), a, now, random)
            == if role.ServerRole? then ServerShake(a, h, now) else ClientShake(a, h, now)
  {
    TwoWords(ShakeType(role), h, []);
    assert Words([ShakeType(role), h]) + [] == Words([ShakeType(role), h]);
  }

  lemma TerminateEvent(a: UInt32, now: int, random: UInt32)
    ensures EventOf(Words([NMT_TERMINATE]), a, now, random) == ServerTerminate(a, now)
    ensures Words([NMT_TERMINATE]) == [0, 0, 0, 6]
  {
    TypeBytes();
    EventByBytes(Words([NMT_TERMINATE]), a, now, random);
  }

  lemma HandshakeReadsBack(h: UInt32)
    ensures |HandshakeBytes(h)| == 8
    ensures Word32(HandshakeBytes(h), 0) == NMT_HANDSHAKE && Word32(HandshakeBytes(h), 4) == h
  {
    WordsAt([NMT_HANDSHAKE, h], [], 0);
    WordsAt([NMT_HANDSHAKE, h], [], 1);
    assert HandshakeBytes(h) + [] == HandshakeBytes(h);
  }

  /** The whole exchange in bytes, from any reachable state.  The metaserver receives a keepalive
      packet from `a` as event `n` and answers it with a handshake reply; the peer builds its shake
      from the bytes of that reply; the metaserver receives it from `a` as event `m`.  Unless the
      value is spent or reaped in between, `a` is listed under the arrival time and one pending
      value is gone. */
  lemma ExchangeOnTheWire(b: Build, role: Role, es: seq<Event>, xs: seq<State>, n: nat, m: nat,
                          a: UInt32, now: int, h: UInt32, t: int, random: UInt32)
    requires IsHistory(b, es, xs) && n < m < |es|
    requires es[n] == EventOf(Words([KeepaliveType(role)]), a, now, h)
    requires es[m] == EventOf(ShakePacket(ShakeType(role), HandshakeBytes(h)), a, t, random)
    requires forall k :: n < k < m ==> LeavesPending(b, HalfOf(role, xs[k]), Part(role, es[k]), Entry(a, h, now))
    ensures InRange(xs[n], es[n]) && AnswerTo(b, xs[n], es[n]) == [Outgoing(a, HandshakeBytes(h))]
    ensures Lookup(HalfOf(role, xs[m + 1]).active, a) == Some(t)
    ensures Values(HalfOf(role, xs[m]).pending) == Values(HalfOf(role, xs[m + 1]).pending) + multiset{h}
  {
    var acts, ss := Parts(role, es), Halves(role, xs);
    KeepaliveEvent(role, a, now, h);
    assert acts[n] == Keepalive(a, h, now);
    assert acts[m] == Shake(a, h, t) by {
      HandshakeReadsBack(h);
      ShakeEvent(role, a, t, h, random);
    }
    HalfIsRun(b, role, es, xs);
    assert ss[m] == HalfOf(role, xs[m]) && ss[m + 1] == HalfOf(role, xs[m + 1]);
    ExchangeSucceeds(b, acts, ss, n, m, Entry(a, h, now));
  }

  /** In any history a shake packet with a value that is not pending on its side changes nothing at all
      and is not answered. */
  lemma BogusShakeIgnored(b: Build, role: Role, es: seq<Event>, xs: seq<State>, n: nat, a: UInt32, h: UInt32,
                          now: int, random: UInt32)
    requires IsHistory(b, es, xs) && n < |es|
    requires es[n] == EventOf(Words([ShakeType(role), h]), a, now, random)
    requires forall e :: e in HalfOf(role, xs[n]).pending ==> e.handshake != h
    ensures xs[n + 1] == xs[n]
    ensures InRange(xs[n], es[n]) && AnswerTo(b, xs[n], es[n]) == []
  {
    ShakeEvent(role, a, now, h, random);
    assert EventAt(b, es, xs, n);
    PartMoves(b, role, xs[n], es[n]);
    OtherHalfUntouched(b, xs[n], es[n]);
    assert FirstByHandshake(HalfOf(role, xs[n]).pending, h) == |HalfOf(role, xs[n]).pending|;
  }

  /** In any history, when a termination packet from `a` arrives, `a` is off the list of servers, every
      other server is listed as before, no pending handshake and no client is touched, and nothing is
      sent. */
  lemma TerminateOnTheWire(b: Build, es: seq<Event>, xs: seq<State>, n: nat, a: UInt32, now: int, random: UInt32,
                           x: UInt32)
    requires IsHistory(b, es, xs) && n < |es|
    requires es[n] == EventOf([0, 0, 0, 6], a, now, random)
    ensures Lookup(xs[n + 1].servers.active, x) == if x == a then None else Lookup(xs[n].servers.active, x)
    ensures xs[n + 1].servers.pending == xs[n].servers.pending && xs[n + 1].clients == xs[n].clients
    ensures InRange(xs[n], es[n]) && AnswerTo(b, xs[n], es[n]) == []
  {
    var acts, ss := Parts(ServerRole, es), Halves(ServerRole, xs);
    TerminateEvent(a, now, random);
    assert es[n] == ServerTerminate(a, now);
    HalfIsRun(b, ServerRole, es, xs);
    assert acts[n] == Terminate(a, now) && ss[n] == xs[n].servers && ss[n + 1] == xs[n + 1].servers;
    LookupAt(b, acts, ss, n, x);
    assert EventAt(b, es, xs, n);
    OtherHalfUntouched(b, xs[n], es[n]);
  }
}
