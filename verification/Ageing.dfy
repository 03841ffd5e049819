/**
 How large the lists of one half get over a run, in which order its pending handshakes stand,
 and how old its entries can be.
 */
module Ageing {
  import opened Wire
  import opened Messages
  import opened Registry
  import opened Lists

  // ---------- Peaks ----------

  lemma PeaksNext(b: Build, s: Half, act: Action)
    requires |s.active| <= s.peakActive && |s.pending| <= s.peakPending
    ensures var s' := Next(b, s, act);
            && s'.peakActive == Max(s.peakActive, |s'.active|)
            && s'.peakPending == Max(s.peakPending, |s'.pending|)
            && (act.Reap? ==> s'.peakActive == s.peakActive && s'.peakPending == s.peakPending)
  {
    if act.Reap? {
      SurvivorsAreEntries(s.active, act.activeClock, ReapInterval(b));
      SurvivorsAreEntries(s.pending, act.pendingClock, ReapInterval(b));
    }
  }

  /** `peak` is the largest size among the first `n + 1`. */
  ghost predicate IsPeak(sizes: seq<nat>, n: nat, peak: int)
    requires n < |sizes|
  {
    && (forall i :: 0 <= i <= n ==> sizes[i] <= peak)
    && exists i :: 0 <= i <= n && sizes[i] == peak
  }

  lemma PeakGrows(sizes: seq<nat>, n: nat, peak: int)
    requires 0 < n < |sizes| && IsPeak(sizes, n - 1, peak)
    ensures IsPeak(sizes, n, Max(peak, sizes[n]))
  {
    var i :| 0 <= i <= n - 1 && sizes[i] == peak;
    assert sizes[i] == Max(peak, sizes[n]) || sizes[n] == Max(peak, sizes[n]);
  }

  ghost function ActiveSizes(ss: seq<Half>): (r: seq<nat>)
    ensures |r| == |ss|
  {
    seq(|ss|, i requires 0 <= i < |ss| => |ss[i].active|)
  }

  ghost function PendingSizes(ss: seq<Half>): (r: seq<nat>)
    ensures |r| == |ss|
  {
    seq(|ss|, i requires 0 <= i < |ss| => |ss[i].pending|)
  }

  /** Each peak is the largest size its list has had since the start. */
  lemma {:induction false} PeaksExact(b: Build, acts: seq<Action>, ss: seq<Half>, n: nat)
    requires IsRun(b, acts, ss) && n <= |acts|
    ensures IsPeak(ActiveSizes(ss), n, ss[n].peakActive)
    ensures IsPeak(PendingSizes(ss), n, ss[n].peakPending)
  {
    if n == 0 {
      assert ActiveSizes(ss)[0] == 0 && PendingSizes(ss)[0] == 0;
    } else {
      PeaksExact(b, acts, ss, n - 1);
      assert ActiveSizes(ss)[n - 1] <= ss[n - 1].peakActive;
      assert PendingSizes(ss)[n - 1] <= ss[n - 1].peakPending;
      assert StepAt(b, acts, ss, n - 1);
      PeaksNext(b, ss[n - 1], acts[n - 1]);
      PeakGrows(ActiveSizes(ss), n, ss[n - 1].peakActive);
      PeakGrows(PendingSizes(ss), n, ss[n - 1].peakPending);
    }
  }

  /** So the peak update at the start of a reap pass never changes anything. */
  lemma ReapNeverRaisesPeaks(b: Build, acts: seq<Action>, ss: seq<Half>, n: nat)
    requires IsRun(b, acts, ss) && n < |acts| && acts[n].Reap?
    ensures ss[n + 1].peakActive == ss[n].peakActive && ss[n + 1].peakPending == ss[n].peakPending
  {
    PeaksExact(b, acts, ss, n);
    assert ActiveSizes(ss)[n] <= ss[n].peakActive && PendingSizes(ss)[n] <= ss[n].peakPending;
    assert StepAt(b, acts, ss, n);
    PeaksNext(b, ss[n], acts[n]);
  }

  // ---------- Order of the pending list ----------

  ghost predicate SortedByTime(l: seq<Entry>) {
    forall i, j :: 0 <= i < j < |l| ==> l[i].time <= l[j].time
  }

  ghost predicate NoneAfter(l: seq<Entry>, t: int) {
    forall i :: 0 <= i < |l| ==> l[i].time <= t
  }

  lemma SurvivorsSorted(l: seq<Entry>, clock: nat -> int, interval: nat, t: int)
    requires SortedByTime(l) && NoneAfter(l, t)
    ensures SortedByTime(Survivors(l, clock, interval)) && NoneAfter(Survivors(l, clock, interval), t)
  {
    var kept := SurvivorsSelect(l, clock, interval);
  }

  lemma EraseSorted(l: seq<Entry>, i: nat, t: int)
    requires SortedByTime(l) && NoneAfter(l, t) && i < |l|
    ensures SortedByTime(Erase(l, i)) && NoneAfter(Erase(l, i), t)
  {}

  lemma PendingSortedNext(b: Build, s: Half, act: Action)
    requires SortedByTime(s.pending) && NoneAfter(s.pending, act.Begin()) && Timely(act)
    ensures SortedByTime(Next(b, s, act).pending) && NoneAfter(Next(b, s, act).pending, act.End())
  {
    match act {
      case Shake(_, h, _) =>
        var i := FirstByHandshake(s.pending, h);
        if i < |s.pending| {
          EraseSorted(s.pending, i, act.Begin());
        }
      case Reap(_, _, _, clock) =>
        SurvivorsSorted(s.pending, clock, ReapInterval(b), act.Begin());
      case _ =>
    }
  }

  /** Pending handshakes always stand in order of age, and none is newer than the last action. */
  lemma {:induction false} PendingSorted(b: Build, acts: seq<Action>, ss: seq<Half>, n: nat)
    requires IsRun(b, acts, ss) && Clocked(acts) && n <= |acts|
    ensures SortedByTime(ss[n].pending)
    ensures if n == 0 then ss[n].pending == [] else NoneAfter(ss[n].pending, acts[n - 1].End())
  {
    if n == 0 {
    } else {
      PendingSorted(b, acts, ss, n - 1);
      assert n > 1 ==> acts[n - 2].End() <= acts[n - 1].Begin();
      assert StepAt(b, acts, ss, n - 1);
      PendingSortedNext(b, ss[n - 1], acts[n - 1]);
    }
  }

  /** When a value is pending several times, an accepted shake spends the oldest of them. */
  lemma OldestIsSpent(b: Build, acts: seq<Action>, ss: seq<Half>, n: nat) returns (i: nat)
    requires IsRun(b, acts, ss) && Clocked(acts) && n < |acts| && Accepted(ss[n], acts[n])
    ensures i < |ss[n].pending| && ss[n].pending[i].handshake == acts[n].h
    ensures forall j :: 0 <= j < |ss[n].pending| && ss[n].pending[j].handshake == acts[n].h ==>
              ss[n].pending[i].time <= ss[n].pending[j].time
    ensures ss[n + 1].pending == Erase(ss[n].pending, i)
  {
    PendingSorted(b, acts, ss, n);
    AcceptedIffFound(ss[n], acts[n]);
    assert StepAt(b, acts, ss, n);
    i := FirstByHandshake(ss[n].pending, acts[n].h);
  }

  lemma {:induction false} SurvivorsNone(l: seq<Entry>, clock: nat -> int, interval: nat)
    requires forall i :: 0 <= i < |l| ==> Stale(l[i], clock(i), interval)
    ensures Survivors(l, clock, interval) == []
  {
    if l == [] {
    } else {
      SurvivorsNone(l[..|l| - 1], clock, interval);
    }
  }

  /** A pass over `l` removes the first `k` entries and keeps all others. */
  ghost predicate TakesPrefix(l: seq<Entry>, clock: nat -> int, interval: nat, k: nat) {
    k <= |l| && forall i :: 0 <= i < |l| ==> (i < k <==> Stale(l[i], clock(i), interval))
  }

  /** The clock reaches entry `i` in time to find it fresh, and a later entry `j` too late. */
  ghost predicate Outrun(l: seq<Entry>, clock: nat -> int, interval: nat, i: nat, j: nat) {
    i < j < |l| && !Stale(l[i], clock(i), interval) && Stale(l[j], clock(j), interval)
  }

  lemma {:induction false} PrefixReaped(l: seq<Entry>, clock: nat -> int, interval: nat, k: nat)
    requires TakesPrefix(l, clock, interval, k)
    ensures Survivors(l, clock, interval) == l[k..]
  {
    if k == |l| {
      SurvivorsNone(l, clock, interval);
    } else {
      var front := l[..|l| - 1];
      assert TakesPrefix(front, clock, interval, k);
      PrefixReaped(front, clock, interval, k);
      assert l[k..] == front[k..] + [l[|l| - 1]];
    }
  }

  lemma {:induction false} NoOneOutrun(l: seq<Entry>, clock: nat -> int, interval: nat) returns (k: nat)
    requires forall i: nat, j: nat :: !Outrun(l, clock, interval, i, j)
    ensures TakesPrefix(l, clock, interval, k)
  {
    if l == [] {
      k := 0;
    } else {
      var n := |l| - 1;
      var front := l[..n];
      forall i: nat, j: nat
        ensures !Outrun(front, clock, interval, i, j)
      {
        assert !Outrun(l, clock, interval, i, j);
      }
      k := NoOneOutrun(front, clock, interval);
      assert forall i :: 0 <= i < n ==> front[i] == l[i];
      if Stale(l[n], clock(n), interval) {
        forall i | 0 <= i < n
          ensures Stale(l[i], clock(i), interval)
        {
          assert !Outrun(l, clock, interval, i, n);
        }
        k := |l|;
      }
    }
  }

  /** A pass removes exactly a prefix, and leaves the rest of the list, if and only if no entry
      found fresh stands before one found stale. */
  lemma ReapTakesPrefixIff(l: seq<Entry>, clock: nat -> int, interval: nat)
    ensures (exists k: nat :: TakesPrefix(l, clock, interval, k))
            <==> forall i: nat, j: nat :: !Outrun(l, clock, interval, i, j)
    ensures forall k: nat :: TakesPrefix(l, clock, interval, k) ==> Survivors(l, clock, interval) == l[k..]
  {
    forall k: nat | TakesPrefix(l, clock, interval, k)
      ensures Survivors(l, clock, interval) == l[k..]
    {
      PrefixReaped(l, clock, interval, k);
    }
    if forall i: nat, j: nat :: !Outrun(l, clock, interval, i, j) {
      var k := NoOneOutrun(l, clock, interval);
    }
  }

  /** In a list in order of age that takes the clock to advance, between the two checks, by more
      than the two entries are apart. */
  lemma OutrunNeedsTime(l: seq<Entry>, clock: nat -> int, interval: nat, i: nat, j: nat)
    requires SortedByTime(l) && Outrun(l, clock, interval, i, j)
    ensures clock(j) - clock(i) > l[j].time - l[i].time >= 0
  {}

  /** What is known of the clock before a pass: it reads between `start` and `end`, and never runs
      backwards. */
  ghost predicate RunsBetween(clock: nat -> int, start: int, end: int) {
    && (forall i: nat :: start <= clock(i) <= end)
    && (forall i: nat, j: nat :: i <= j ==> clock(i) <= clock(j))
  }

  /** Entry `i` is young enough to be kept at the start, and a later entry `j` old enough to go
      before the end. */
  predicate Exposed(l: seq<Entry>, interval: nat, start: int, end: int, i: nat, j: nat) {
    i < j < |l| && start <= l[i].time + interval && l[j].time + interval < end
  }

  lemma OutrunIsExposed(l: seq<Entry>, clock: nat -> int, interval: nat, start: int, end: int)
    requires RunsBetween(clock, start, end)
    requires forall i: nat, j: nat :: !Exposed(l, interval, start, end, i, j)
    ensures forall i: nat, j: nat :: !Outrun(l, clock, interval, i, j)
  {
    forall i: nat, j: nat
      ensures !Outrun(l, clock, interval, i, j)
    {
      assert !Exposed(l, interval, start, end, i, j);
    }
  }

  /** A clock that jumps from the start to the end right after entry `i`. */
  lemma ExposedIsOutrun(l: seq<Entry>, interval: nat, start: int, end: int, i: nat, j: nat) returns (clock: nat -> int)
    requires start <= end && Exposed(l, interval, start, end, i, j)
    ensures RunsBetween(clock, start, end) && Outrun(l, clock, interval, i, j)
  {
    clock := (k: nat) => if k <= i then start else end;
  }

  /** Said before the pass: whatever the clock does between `start` and `end`, a prefix goes, if and
      only if no entry young enough at the start stands before one that may be too old at the end. */
  lemma ReapTakesPrefixForesight(l: seq<Entry>, interval: nat, start: int, end: int)
    requires start <= end
    ensures (forall clock: nat -> int :: RunsBetween(clock, start, end) ==>
               exists k: nat :: TakesPrefix(l, clock, interval, k))
            <==> forall i: nat, j: nat :: !Exposed(l, interval, start, end, i, j)
  {
    if i: nat, j: nat :| Exposed(l, interval, start, end, i, j) {
      var clock := ExposedIsOutrun(l, interval, start, end, i, j);
      ReapTakesPrefixIff(l, clock, interval);
    } else {
      forall clock: nat -> int | RunsBetween(clock, start, end)
        ensures exists k: nat :: TakesPrefix(l, clock, interval, k)
      {
        OutrunIsExposed(l, clock, interval, start, end);
        ReapTakesPrefixIff(l, clock, interval);
      }
    }
  }

  /** So a pass over a list in order of age, all at one clock reading, removes exactly a prefix. */
  lemma SortedReapTakesPrefix(l: seq<Entry>, clock: nat -> int, now: int, interval: nat)
    returns (k: nat)
    requires SortedByTime(l)
    requires forall i: nat :: clock(i) == now
    ensures k <= |l| && Survivors(l, clock, interval) == l[k..]
    ensures forall i :: 0 <= i < |l| ==> (i < k <==> Stale(l[i], now, interval))
  {
    forall i: nat, j: nat
      ensures !Outrun(l, clock, interval, i, j)
    {
      if Outrun(l, clock, interval, i, j) {
        OutrunNeedsTime(l, clock, interval, i, j);
      }
    }
    k := NoOneOutrun(l, clock, interval);
    PrefixReaped(l, clock, interval, k);
  }

  /** Two keepalives in one second, and one reap pass during which the clock moves on by a second
      between the checks of the two. */
  ghost predicate TwoThenReap(acts: seq<Action>, interval: nat) {
    && |acts| == 3
    && acts[0] == Keepalive(1, 1, 0) && acts[1] == Keepalive(2, 2, 0)
    && acts[2].Reap? && acts[2].start == interval && acts[2].end == interval + 1
    && (forall i: nat :: acts[2].activeClock(i) == interval)
    && (forall i: nat :: acts[2].pendingClock(i) == if i == 0 then interval else interval + 1)
  }

  lemma FirstStays(l: seq<Entry>, clock: nat -> int, interval: nat)
    requires l == [Entry(1, 1, 0), Entry(2, 2, 0)]
    requires forall i: nat :: clock(i) == if i == 0 then interval else interval + 1
    ensures Outrun(l, clock, interval, 0, 1) && Survivors(l, clock, interval) == [l[0]]
  {
    assert l[..1] == [l[0]];
    SurvivorsAll([l[0]], clock, interval);
    assert Survivors(l, clock, interval) == Survivors(l[..1], clock, interval) + [];
  }

  lemma TwoThenReapStates(b: Build, acts: seq<Action>, ss: seq<Half>)
    requires IsRun(b, acts, ss) && TwoThenReap(acts, ReapInterval(b))
    ensures ss[2].pending == [Entry(1, 1, 0), Entry(2, 2, 0)]
    ensures ss[3].pending == Survivors(ss[2].pending, acts[2].pendingClock, ReapInterval(b))
  {
    assert StepAt(b, acts, ss, 0) && StepAt(b, acts, ss, 1) && StepAt(b, acts, ss, 2);
  }

  lemma TwoThenReapRun(b: Build) returns (acts: seq<Action>, ss: seq<Half>)
    ensures IsRun(b, acts, ss) && Clocked(acts) && TwoThenReap(acts, ReapInterval(b))
  {
    var t := ReapInterval(b);
    acts := [Keepalive(1, 1, 0), Keepalive(2, 2, 0), Reap(t, t + 1, _ => t, (i: nat) => if i == 0 then t else t + 1)];
    ss := RunExists(b, acts);
  }

  /** It happens in a run, to a pending list in order of age: of two handshakes of one second the
      first stays and the second goes. */
  lemma AdvancingReapNotPrefix(b: Build) returns (acts: seq<Action>, ss: seq<Half>)
    ensures IsRun(b, acts, ss) && Clocked(acts) && TwoThenReap(acts, ReapInterval(b))
    ensures ss[2].pending == [Entry(1, 1, 0), Entry(2, 2, 0)] && ss[3].pending == [Entry(1, 1, 0)]
    ensures forall k: nat :: !TakesPrefix(ss[2].pending, acts[2].pendingClock, ReapInterval(b), k)
  {
    acts, ss := TwoThenReapRun(b);
    TwoThenReapStates(b, acts, ss);
    FirstStays(ss[2].pending, acts[2].pendingClock, ReapInterval(b));
    ReapTakesPrefixIff(ss[2].pending, acts[2].pendingClock, ReapInterval(b));
  }

  // ---------- Order of the active list ----------

  /** An accepted shake refreshes a peer that stands before one last heard of at an earlier time. */
  ghost predicate OutOfTurn(s: Half, act: Action) {
    Accepted(s, act)
    && var p := FirstByAddress(s.active, act.addr); p + 1 < |s.active| && s.active[p + 1].time < act.now
  }

  lemma WelcomeSorted(l: seq<Entry>, a: UInt32, now: int)
    requires SortedByTime(l) && NoneAfter(l, now)
    ensures NoneAfter(Welcome(l, a, now), now)
    ensures var p := FirstByAddress(l, a);
            SortedByTime(Welcome(l, a, now)) <==> !(p + 1 < |l| && l[p + 1].time < now)
  {
    var p, w := FirstByAddress(l, a), Welcome(l, a, now);
    if p + 1 < |l| {
      assert w[p].time == now && w[p + 1] == l[p + 1];
    }
  }

  /** An action on an active list in order of age leaves it in order unless it is out of turn. */
  lemma ActiveSortedNext(b: Build, s: Half, act: Action)
    requires SortedByTime(s.active) && NoneAfter(s.active, act.Begin()) && Timely(act)
    ensures SortedByTime(Next(b, s, act).active) <==> !OutOfTurn(s, act)
  {
    match act {
      case Shake(a, h, now) =>
        AcceptedIffFound(s, act);
        WelcomeSorted(s.active, a, now);
      case Terminate(a, _) =>
        var i := FirstByAddress(s.active, a);
        if i < |s.active| {
          EraseSorted(s.active, i, act.Begin());
        }
      case Reap(_, _, clock, _) =>
        SurvivorsSorted(s.active, clock, ReapInterval(b), act.Begin());
      case _ =>
    }
  }

  lemma ActiveNoneAfterNext(b: Build, s: Half, act: Action)
    requires NoneAfter(s.active, act.Begin()) && Timely(act)
    ensures NoneAfter(Next(b, s, act).active, act.End())
  {
    if act.Reap? {
      var kept := SurvivorsSelect(s.active, act.activeClock, ReapInterval(b));
    }
  }

  lemma {:induction false} ActiveNoneAfter(b: Build, acts: seq<Action>, ss: seq<Half>, n: nat)
    requires IsRun(b, acts, ss) && Clocked(acts) && n < |acts|
    ensures NoneAfter(ss[n].active, acts[n].Begin())
  {
    if n == 0 {
    } else {
      ActiveNoneAfter(b, acts, ss, n - 1);
      assert acts[n - 1].End() <= acts[n].Begin();
      assert StepAt(b, acts, ss, n - 1);
      ActiveNoneAfterNext(b, ss[n - 1], acts[n - 1]);
    }
  }

  /** The active list is in order of age at all times up to `n` exactly when no action before `n` was
      out of turn. */
  lemma {:induction false} ActiveSortedIff(b: Build, acts: seq<Action>, ss: seq<Half>, n: nat)
    requires IsRun(b, acts, ss) && Clocked(acts) && n <= |acts|
    ensures (forall k :: 0 <= k <= n ==> SortedByTime(ss[k].active))
            <==> forall k :: 0 <= k < n ==> !OutOfTurn(ss[k], acts[k])
  {
    if n == 0 {
    } else {
      ActiveSortedIff(b, acts, ss, n - 1);
      if SortedByTime(ss[n - 1].active) {
        assert StepAt(b, acts, ss, n - 1);
        ActiveNoneAfter(b, acts, ss, n - 1);
        ActiveSortedNext(b, ss[n - 1], acts[n - 1]);
      }
    }
  }

  /** One full exchange of a peer while no other handshake is pending. */
  lemma Login(b: Build, s: Half, a: UInt32, h: UInt32, t: int)
    requires s.pending == []
    ensures var s' := Next(b, Next(b, s, Keepalive(a, h, t)), Shake(a, h, t + 1));
            s'.active == Welcome(s.active, a, t + 1) && s'.pending == []
  {
    var pending := Next(b, s, Keepalive(a, h, t)).pending;
    assert pending == [Entry(a, h, t)];
    assert FirstByHandshake(pending, h) == 0;
  }

  lemma LoginAt(b: Build, acts: seq<Action>, ss: seq<Half>, n: nat, a: UInt32, h: UInt32, t: int)
    requires IsRun(b, acts, ss) && n + 1 < |acts| && ss[n].pending == []
    requires acts[n] == Keepalive(a, h, t) && acts[n + 1] == Shake(a, h, t + 1)
    ensures ss[n + 2].active == Welcome(ss[n].active, a, t + 1) && ss[n + 2].pending == []
  {
    assert StepAt(b, acts, ss, n);
    assert StepAt(b, acts, ss, n + 1);
    Login(b, ss[n], a, h, t);
  }

  ghost predicate JoinJoinRefresh(acts: seq<Action>) {
    && |acts| == 6
    && acts[0] == Keepalive(1, 10, 0) && acts[1] == Shake(1, 10, 1)
    && acts[2] == Keepalive(2, 20, 2) && acts[3] == Shake(2, 20, 3)
    && acts[4] == Keepalive(1, 30, 4) && acts[5] == Shake(1, 30, 5)
  }

  lemma JoinJoinRefreshClocked(acts: seq<Action>)
    requires JoinJoinRefresh(acts)
    ensures Clocked(acts)
  {
    assert forall i :: 0 <= i < 6 ==> !acts[i].Reap? && acts[i].Begin() == acts[i].End() == i;
  }

  /** They stand in order of joining: a peer that refreshes keeps its place before others that were
      heard of less recently.  The last action of this run is such a refresh. */
  lemma ActiveNotSorted(b: Build) returns (acts: seq<Action>, ss: seq<Half>)
    ensures JoinJoinRefresh(acts) && IsRun(b, acts, ss) && Clocked(acts)
    ensures OutOfTurn(ss[5], acts[5]) && !SortedByTime(ss[6].active)
  {
    acts := [Keepalive(1, 10, 0), Shake(1, 10, 1), Keepalive(2, 20, 2), Shake(2, 20, 3), Keepalive(1, 30, 4),
      Shake(1, 30, 5)];
    ss := RunExists(b, acts);
    JoinJoinRefreshClocked(acts);
    JoinJoinRefreshStates(b, acts, ss);
  }

  lemma JoinJoinRefreshStates(b: Build, acts: seq<Action>, ss: seq<Half>)
    requires JoinJoinRefresh(acts) && IsRun(b, acts, ss)
    ensures OutOfTurn(ss[5], acts[5]) && !SortedByTime(ss[6].active)
  {
    LoginAt(b, acts, ss, 0, 1, 10, 0);
    LoginAt(b, acts, ss, 2, 2, 20, 2);
    LoginAt(b, acts, ss, 4, 1, 30, 4);
    RefreshKeepsPlace(ss[2].active, ss[4].active, ss[6].active);
    assert ss[6].active[0].time > ss[6].active[1].time;
    assert StepAt(b, acts, ss, 4);
    LastRefreshOutOfTurn(b, ss[4], ss[5], acts[4], acts[5]);
  }

  lemma LastRefreshOutOfTurn(b: Build, s: Half, s': Half, act: Action, act': Action)
    requires act == Keepalive(1, 30, 4) && act' == Shake(1, 30, 5) && s' == Next(b, s, act)
    requires s.active == [Entry(1, 0, 1), Entry(2, 0, 3)]
    ensures OutOfTurn(s', act')
  {
    assert s'.pending[|s.pending|].handshake == 30;
    assert FirstByAddress(s'.active, 1) == 0;
  }

  lemma RefreshKeepsPlace(x: seq<Entry>, y: seq<Entry>, z: seq<Entry>)
    requires x == Welcome([], 1, 1) && y == Welcome(x, 2, 3) && z == Welcome(y, 1, 5)
    ensures y == [Entry(1, 0, 1), Entry(2, 0, 3)] && z == [Entry(1, 0, 5), Entry(2, 0, 3)]
  {
    assert x == [Entry(1, 0, 1)];
    assert y == [Entry(1, 0, 1), Entry(2, 0, 3)];
    assert FirstByAddress(y, 1) == 0;
  }

  // ---------- Staleness ----------

  /** No entry of either list carries a timestamp before `t`. */
  ghost predicate NoneBefore(s: Half, t: int) {
    && (forall i :: 0 <= i < |s.active| ==> t <= s.active[i].time)
    && (forall i :: 0 <= i < |s.pending| ==> t <= s.pending[i].time)
  }

  lemma NoneBeforeNext(b: Build, s: Half, act: Action, t: int)
    requires NoneBefore(s, t) && t <= act.Begin()
    ensures NoneBefore(Next(b, s, act), t)
  {
    if act.Reap? {
      var kept := SurvivorsSelect(s.active, act.activeClock, ReapInterval(b));
      var kept' := SurvivorsSelect(s.pending, act.pendingClock, ReapInterval(b));
    }
  }

  lemma SurvivorsYoung(l: seq<Entry>, clock: nat -> int, interval: nat, start: int)
    requires forall i: nat :: start <= clock(i)
    ensures forall k :: 0 <= k < |Survivors(l, clock, interval)| ==>
              start - interval <= Survivors(l, clock, interval)[k].time
  {
    var kept := SurvivorsSelect(l, clock, interval);
    assert forall k :: 0 <= k < |kept| ==> kept[k] in kept;
  }

  lemma ReapRenews(b: Build, s: Half, act: Action)
    requires act.Reap? && Timely(act)
    ensures NoneBefore(Next(b, s, act), act.start - ReapInterval(b))
  {
    SurvivorsYoung(s.active, act.activeClock, ReapInterval(b), act.start);
    SurvivorsYoung(s.pending, act.pendingClock, ReapInterval(b), act.start);
  }

  lemma {:induction false} NoneBeforeStays(b: Build, acts: seq<Action>, ss: seq<Half>, m: nat, n: nat, t: int)
    requires IsRun(b, acts, ss) && m <= n <= |acts| && NoneBefore(ss[m], t)
    requires forall k :: m <= k < n ==> t <= acts[k].Begin()
    ensures NoneBefore(ss[n], t)
  {
    if m == n {
    } else {
      NoneBeforeStays(b, acts, ss, m, n - 1, t);
      assert StepAt(b, acts, ss, n - 1);
      NoneBeforeNext(b, ss[n - 1], acts[n - 1], t);
    }
  }

  /** At most `d` seconds before action `n` began, a reap pass or the run itself started. */
  predicate ReapedWithin(acts: seq<Action>, n: nat, d: nat)
    requires n < |acts|
  {
    || acts[n].Begin() <= acts[0].Begin() + d
    || exists k :: 0 <= k < n && acts[k].Reap? && acts[n].Begin() <= acts[k].start + d
  }

  /** When a datagram is handled at most `d` seconds after a reap pass started, no entry is
      older than the interval plus `d`. */
  lemma StalenessBound(b: Build, acts: seq<Action>, ss: seq<Half>, n: nat, d: nat)
    requires IsRun(b, acts, ss) && Clocked(acts) && n < |acts| && ReapedWithin(acts, n, d)
    ensures NoneBefore(ss[n], acts[n].Begin() - ReapInterval(b) - d)
  {
    var t := acts[n].Begin() - ReapInterval(b) - d;
    if acts[n].Begin() <= acts[0].Begin() + d {
      forall k | 0 <= k < n
        ensures t <= acts[k].Begin()
      {
        assert Timely(acts[0]) && (k == 0 || acts[0].End() <= acts[k].Begin());
      }
      NoneBeforeStays(b, acts, ss, 0, n, t);
    } else {
      var k :| 0 <= k < n && acts[k].Reap? && acts[n].Begin() <= acts[k].start + d;
      assert Timely(acts[k]) && StepAt(b, acts, ss, k);
      ReapRenews(b, ss[k], acts[k]);
      forall j | k + 1 <= j < n
        ensures t <= acts[j].Begin()
      {
        assert acts[k].End() <= acts[j].Begin();
      }
      NoneBeforeStays(b, acts, ss, k + 1, n, t);
    }
  }

  /** The alarm is set for one interval when the process starts, at time `s`, and again at the end of
      every reap pass, so no pass starts before it has run out. */
  ghost predicate AlarmPaced(b: Build, acts: seq<Action>, s: int) {
    forall k :: 0 <= k < |acts| && acts[k].Reap? ==>
      && s + ReapInterval(b) <= acts[k].start
      && forall j :: 0 <= j < k && acts[j].Reap? ==> acts[j].end + ReapInterval(b) <= acts[k].start
  }

  /** A keepalive when the process starts, the first reap pass as soon as the alarm allows, within
      that second, and a datagram `d` seconds after it. */
  ghost predicate KeepaliveReapWait(acts: seq<Action>, interval: nat, d: nat) {
    && |acts| == 3
    && acts[0] == Keepalive(1, 1, 0)
    && acts[1].Reap? && acts[1].start == acts[1].end == interval
    && (forall i: nat :: acts[1].activeClock(i) == acts[1].pendingClock(i) == interval)
    && acts[2] == Idle(interval + d, interval + d)
  }

  lemma WaitRun(b: Build, d: nat) returns (acts: seq<Action>, ss: seq<Half>)
    ensures IsRun(b, acts, ss) && KeepaliveReapWait(acts, ReapInterval(b), d)
  {
    var t := ReapInterval(b);
    acts := [Keepalive(1, 1, 0), Reap(t, t, _ => t, _ => t), Idle(t + d, t + d)];
    ss := RunExists(b, acts);
  }

  lemma StillFresh(b: Build, s: Half, act: Action)
    requires s.pending == [Entry(1, 1, 0)] && act.Reap? && act.pendingClock(0) <= ReapInterval(b)
    ensures Next(b, s, act).pending == s.pending
  {
    SurvivorsAll(s.pending, act.pendingClock, ReapInterval(b));
  }

  lemma WaitStates(b: Build, d: nat, acts: seq<Action>, ss: seq<Half>)
    requires IsRun(b, acts, ss) && KeepaliveReapWait(acts, ReapInterval(b), d)
    ensures ss[2].pending == [Entry(1, 1, 0)]
  {
    assert ss[1].pending == [Entry(1, 1, 0)] by { assert StepAt(b, acts, ss, 0); }
    assert ss[2].pending == Next(b, ss[1], acts[1]).pending by { assert StepAt(b, acts, ss, 1); }
    StillFresh(b, ss[1], acts[1]);
  }

  /** The bound is reached for every `d`, with passes no closer than the alarm lets them be; from one
      interval up, no action at all comes later than `d` after a pass or the start. */
  lemma StalenessTight(b: Build, d: nat) returns (acts: seq<Action>, ss: seq<Half>)
    ensures IsRun(b, acts, ss) && Clocked(acts) && AlarmPaced(b, acts, 0)
    ensures KeepaliveReapWait(acts, ReapInterval(b), d) && ReapedWithin(acts, 2, d)
    ensures d >= ReapInterval(b) ==> forall m :: 0 <= m < |acts| ==> ReapedWithin(acts, m, d)
    ensures ss[2].pending == [Entry(1, 1, acts[2].Begin() - ReapInterval(b) - d)]
  {
    acts, ss := WaitRun(b, d);
    WaitStates(b, d, acts, ss);
    assert acts[1].Reap? && acts[2].Begin() <= acts[1].start + d;
  }
}
