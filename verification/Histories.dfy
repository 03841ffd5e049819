/**
 The whole registry: both halves together, moved by the datagrams the metaserver handles and by
 its reap passes; and the independence of the two halves.
 */
module Histories {
  import opened Wire
  import opened Messages
  import opened Registry
  import opened Lists
  import opened Ageing

  datatype State = State(servers: Half, clients: Half)

  const INITIAL := State(EMPTY_HALF, EMPTY_HALF)

  /** The clock readings of one reap pass, list by list in the order of the pass. */
  datatype Sweep = Sweep(
    start: int, end: int,
    servers: nat -> int, clients: nat -> int, serverHandshakes: nat -> int, clientHandshakes: nat -> int)

  /** What the metaserver handles: a datagram from `addr` at time `now`, or the alarm. */
  datatype Event =
    | ServerKeepalive(addr: UInt32, h: UInt32, now: int)
    | ClientKeepalive(addr: UInt32, h: UInt32, now: int)
    | ServerShake(addr: UInt32, h: UInt32, now: int)
    | ClientShake(addr: UInt32, h: UInt32, now: int)
    | ServerTerminate(addr: UInt32, now: int)
    | ListRequest(addr: UInt32, from: UInt32, now: int)
    | Ignored(addr: UInt32, now: int)
    | ReapPass(sweep: Sweep)
  {
    function Begin(): int {
      if ReapPass? then sweep.start else now
    }

    function End(): int {
      if ReapPass? then sweep.end else now
    }
  }

  /** What the handlers do to the eight fields of the registry. */
  function Step(b: Build, s: State, e: Event): State {
    match e
    case ServerKeepalive(a, h, now) => s.(servers := Next(b, s.servers, Keepalive(a, h, now)))
    case ClientKeepalive(a, h, now) => s.(clients := Next(b, s.clients, Keepalive(a, h, now)))
    case ServerShake(a, h, now) => s.(servers := Next(b, s.servers, Shake(a, h, now)))
    case ClientShake(a, h, now) => s.(clients := Next(b, s.clients, Shake(a, h, now)))
    case ServerTerminate(a, now) => s.(servers := Next(b, s.servers, Terminate(a, now)))
    case ListRequest(_, _, _) => s
    case Ignored(_, _) => s
    case ReapPass(w) =>
      State(Next(b, s.servers, Reap(w.start, w.end, w.servers, w.serverHandshakes)),
            Next(b, s.clients, Reap(w.start, w.end, w.clients, w.clientHandshakes)))
  }

  ghost predicate EventAt(b: Build, es: seq<Event>, xs: seq<State>, i: nat)
    requires i < |es| && |xs| == |es| + 1
  {
    xs[i + 1] == Step(b, xs[i], es[i])
  }

  /** `xs` are the states the registry goes through when `es` happen to it. */
  ghost predicate IsHistory(b: Build, es: seq<Event>, xs: seq<State>) {
    && |xs| == |es| + 1
    && xs[0] == INITIAL
    && forall i :: 0 <= i < |es| ==> EventAt(b, es, xs, i)
  }

  lemma HistoryExtends(b: Build, es: seq<Event>, xs: seq<State>, e: Event)
    requires IsHistory(b, es, xs)
    ensures IsHistory(b, es + [e], xs + [Step(b, xs[|es|], e)])
  {
    var es', xs' := es + [e], xs + [Step(b, xs[|es|], e)];
    forall i | 0 <= i < |es'|
      ensures EventAt(b, es', xs', i)
    {
      assert i < |es| ==> EventAt(b, es, xs, i);
    }
  }

  // ---------- One half of the system ----------

  datatype Role = ServerRole | ClientRole

  function HalfOf(role: Role, s: State): Half {
    if role.ServerRole? then s.servers else s.clients
  }

  /** What an event is to one half. */
  function Part(role: Role, e: Event): Action {
    match e
    case ServerKeepalive(a, h, now) => if role.ServerRole? then Keepalive(a, h, now) else Idle(now, now)
    case ClientKeepalive(a, h, now) => if role.ClientRole? then Keepalive(a, h, now) else Idle(now, now)
    case ServerShake(a, h, now) => if role.ServerRole? then Shake(a, h, now) else Idle(now, now)
    case ClientShake(a, h, now) => if role.ClientRole? then Shake(a, h, now) else Idle(now, now)
    case ServerTerminate(a, now) => if role.ServerRole? then Terminate(a, now) else Idle(now, now)
    case ListRequest(_, _, now) => Idle(now, now)
    case Ignored(_, now) => Idle(now, now)
    case ReapPass(w) =>
      if role.ServerRole? then Reap(w.start, w.end, w.servers, w.serverHandshakes)
      else Reap(w.start, w.end, w.clients, w.clientHandshakes)
  }

  function Parts(role: Role, es: seq<Event>): (acts: seq<Action>)
    ensures |acts| == |es|
  {
    seq(|es|, i requires 0 <= i < |es| => Part(role, es[i]))
  }

  function Halves(role: Role, xs: seq<State>): (ss: seq<Half>)
    ensures |ss| == |xs|
  {
    seq(|xs|, i requires 0 <= i < |xs| => HalfOf(role, xs[i]))
  }

  lemma PartMoves(b: Build, role: Role, s: State, e: Event)
    ensures HalfOf(role, Step(b, s, e)) == Next(b, HalfOf(role, s), Part(role, e))
  {}

  /** Each half of a history is a run, event by event, so all that holds of runs holds of both
      halves of the registry. */
  lemma HalfIsRun(b: Build, role: Role, es: seq<Event>, xs: seq<State>)
    requires IsHistory(b, es, xs)
    ensures IsRun(b, Parts(role, es), Halves(role, xs))
  {
    var acts, ss := Parts(role, es), Halves(role, xs);
    forall i | 0 <= i < |acts|
      ensures StepAt(b, acts, ss, i)
    {
      assert EventAt(b, es, xs, i);
      PartMoves(b, role, xs[i], es[i]);
    }
  }

  /** The clock never runs backwards, from event to event or inside a pass. */
  ghost predicate OnTime(es: seq<Event>) {
    && (forall i :: 0 <= i < |es| ==> es[i].Begin() <= es[i].End())
    && (forall i, j :: 0 <= i < j < |es| ==> es[i].End() <= es[j].Begin())
    && (forall i :: 0 <= i < |es| && es[i].ReapPass? ==> SweepOnTime(es[i].sweep))
  }

  ghost predicate Ordered(c: nat -> int, d: nat -> int) {
    && (forall i: nat, j: nat :: i <= j ==> c(i) <= c(j))
    && (forall i: nat, j: nat :: c(i) <= d(j))
  }

  ghost predicate SweepOnTime(w: Sweep) {
    && (forall i: nat :: w.start <= w.servers(i) && w.clientHandshakes(i) <= w.end)
    && Ordered(w.servers, w.clients) && Ordered(w.clients, w.serverHandshakes)
    && Ordered(w.serverHandshakes, w.clientHandshakes)
    && (forall i: nat, j: nat :: i <= j ==> w.clientHandshakes(i) <= w.clientHandshakes(j))
  }

  lemma SweepParts(role: Role, w: Sweep)
    requires w.start <= w.end && SweepOnTime(w)
    ensures Timely(Part(role, ReapPass(w)))
  {
    var act := Part(role, ReapPass(w));
    forall i: nat, j: nat
      ensures act.start <= act.activeClock(i) <= act.pendingClock(j) <= act.end
    {
      assert w.start <= w.servers(i) <= w.clients(i) <= w.serverHandshakes(j) <= w.clientHandshakes(j) <= w.end;
    }
    assert forall j: nat :: act.activeClock(0) <= act.pendingClock(j);
    assert forall i: nat :: act.activeClock(i) <= act.pendingClock(0);
  }

  lemma PartsClocked(role: Role, es: seq<Event>)
    requires OnTime(es)
    ensures Clocked(Parts(role, es))
  {
    var acts := Parts(role, es);
    forall i | 0 <= i < |acts|
      ensures Timely(acts[i])
    {
      if es[i].ReapPass? {
        SweepParts(role, es[i].sweep);
      }
    }
  }

  // ---------- Staleness in the whole system ----------

  /** Event `n` starts at most `d` seconds after a reap pass or the first event started. */
  predicate SweptWithin(es: seq<Event>, n: nat, d: nat)
    requires n < |es|
  {
    || es[n].Begin() <= es[0].Begin() + d
    || exists k :: 0 <= k < n && es[k].ReapPass? && es[n].Begin() <= es[k].sweep.start + d
  }

  lemma SweptIsReaped(role: Role, es: seq<Event>, n: nat, d: nat)
    requires n < |es| && SweptWithin(es, n, d)
    ensures ReapedWithin(Parts(role, es), n, d)
  {
    var acts := Parts(role, es);
    if es[n].Begin() > es[0].Begin() + d {
      var k :| 0 <= k < n && es[k].ReapPass? && es[n].Begin() <= es[k].sweep.start + d;
      assert acts[k].Reap? && acts[n].Begin() <= acts[k].start + d;
    }
  }

  /** With reap passes at most one interval apart, nothing in any of the four lists is older than
      two intervals when a datagram is handled: 1860 seconds in a normal build. */
  lemma NothingOlderThanTwoIntervals(b: Build, es: seq<Event>, xs: seq<State>, n: nat, e: Entry)
    requires IsHistory(b, es, xs) && OnTime(es) && n < |es| && SweptWithin(es, n, ReapInterval(b))
    requires e in xs[n].servers.active + xs[n].clients.active + xs[n].servers.pending + xs[n].clients.pending
    ensures es[n].Begin() - e.time <= 2 * ReapInterval(b)
    ensures b.Normal? ==> es[n].Begin() - e.time <= 1860
  {
    forall role: Role
      ensures NoneBefore(HalfOf(role, xs[n]), es[n].Begin() - 2 * ReapInterval(b))
    {
      HalfIsRun(b, role, es, xs);
      PartsClocked(role, es);
      SweptIsReaped(role, es, n, ReapInterval(b));
      StalenessBound(b, Parts(role, es), Halves(role, xs), n, ReapInterval(b));
    }
    assert NoneBefore(HalfOf(ServerRole, xs[n]), es[n].Begin() - 2 * ReapInterval(b));
    assert NoneBefore(HalfOf(ClientRole, xs[n]), es[n].Begin() - 2 * ReapInterval(b));
  }

  // ---------- Reap passes ----------

  /** Each of the four lists is checked by its own readings of the clock, entry by entry, against 930
      seconds in a normal build and 7 in a debug build. */
  lemma ReapPassSelects(b: Build, s: State, w: Sweep) returns (k: seq<seq<nat>>)
    ensures |k| == 4
    ensures var s', seconds := Step(b, s, ReapPass(w)), if b.Normal? then 930 else 7;
            && Selects(k[0], s.servers.active, s'.servers.active, w.servers, seconds)
            && Selects(k[1], s.clients.active, s'.clients.active, w.clients, seconds)
            && Selects(k[2], s.servers.pending, s'.servers.pending, w.serverHandshakes, seconds)
            && Selects(k[3], s.clients.pending, s'.clients.pending, w.clientHandshakes, seconds)
  {
    var k0 := PassSelects(b, s.servers.active, w.servers);
    var k1 := PassSelects(b, s.clients.active, w.clients);
    var k2 := PassSelects(b, s.servers.pending, w.serverHandshakes);
    var k3 := PassSelects(b, s.clients.pending, w.clientHandshakes);
    k := [k0, k1, k2, k3];
  }

  // ---------- Independence ----------

  /** The events that may touch one half at all. */
  predicate Concerns(role: Role, e: Event) {
    match role
    case ServerRole => e.ServerKeepalive? || e.ServerShake? || e.ServerTerminate? || e.ReapPass?
    case ClientRole => e.ClientKeepalive? || e.ClientShake? || e.ReapPass?
  }

  /** Datagrams of the client side, list requests and ignored datagrams leave the server half as it is,
      lists and peaks; those of the server side, list requests and ignored ones the client half. */
  lemma OtherHalfUntouched(b: Build, s: State, e: Event)
    ensures e.ClientKeepalive? || e.ClientShake? || e.ListRequest? || e.Ignored? ==> Step(b, s, e).servers == s.servers
    ensures e.ServerKeepalive? || e.ServerShake? || e.ServerTerminate? || e.ListRequest? || e.Ignored? ==>
              Step(b, s, e).clients == s.clients
  {}

  /** So a half changes only through events of its own side. */
  lemma {:induction false} UntouchedThroughout(b: Build, role: Role, es: seq<Event>, xs: seq<State>, m: nat, n: nat)
    requires IsHistory(b, es, xs) && m <= n <= |es|
    requires forall k :: m <= k < n ==> !Concerns(role, es[k])
    ensures HalfOf(role, xs[n]) == HalfOf(role, xs[m])
  {
    if m == n {
    } else {
      UntouchedThroughout(b, role, es, xs, m, n - 1);
      assert EventAt(b, es, xs, n - 1);
      OtherHalfUntouched(b, xs[n - 1], es[n - 1]);
    }
  }

  function Only(role: Role, es: seq<Event>): seq<Event> {
    if es == [] then [] else
      var n := |es| - 1;
      Only(role, es[..n]) + if Concerns(role, es[n]) then [es[n]] else []
  }

  lemma HistoryPrefix(b: Build, es: seq<Event>, xs: seq<State>, n: nat)
    requires IsHistory(b, es, xs) && n <= |es|
    ensures IsHistory(b, es[..n], xs[..n + 1])
  {
    var front, states := es[..n], xs[..n + 1];
    forall i | 0 <= i < |front|
      ensures EventAt(b, front, states, i)
    {
      assert EventAt(b, es, xs, i);
    }
  }

  /** Deleting from a history every event that does not concern one half changes neither the lists
      nor the peaks of that half. */
  lemma {:induction false} OtherHalfIrrelevant(b: Build, role: Role, es: seq<Event>, xs: seq<State>)
    returns (ys: seq<State>)
    requires IsHistory(b, es, xs)
    ensures IsHistory(b, Only(role, es), ys)
    ensures HalfOf(role, ys[|ys| - 1]) == HalfOf(role, xs[|xs| - 1])
    decreases |es|
  {
    if es == [] {
      ys := xs;
    } else {
      var n := |es| - 1;
      HistoryPrefix(b, es, xs, n);
      var front := OtherHalfIrrelevant(b, role, es[..n], xs[..n + 1]);
      var last := front[|front| - 1];
      assert EventAt(b, es, xs, n);
      PartMoves(b, role, xs[n], es[n]);
      if Concerns(role, es[n]) {
        ys := front + [Step(b, last, es[n])];
        HistoryExtends(b, Only(role, es[..n]), front, es[n]);
        PartMoves(b, role, last, es[n]);
      } else {
        ys := front;
        assert Only(role, es) == Only(role, es[..n]);
      }
    }
  }
}
