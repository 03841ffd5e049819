/**
 Who is on an active list after a run, since when, and at which position.
 */
module Listing {
  import opened Wire
  import opened Messages
  import opened Registry
  import opened Lists

  lemma DistinctNext(b: Build, s: Half, act: Action)
    requires DistinctAddrs(s.active)
    ensures DistinctAddrs(Next(b, s, act).active)
  {
    match act {
      case Keepalive(_, _, _) =>
      case Shake(a, h, now) =>
        WelcomeDistinct(s.active, a, now);
      case Terminate(a, _) =>
        if FirstByAddress(s.active, a) < |s.active| {
          EraseDistinct(s.active, FirstByAddress(s.active, a));
        }
      case Reap(_, _, clock, _) =>
        SurvivorsDistinct(s.active, clock, ReapInterval(b));
      case Idle(_, _) =>
    }
  }

  /** No address is ever listed twice. */
  lemma {:induction false} AddressesDistinct(b: Build, acts: seq<Action>, ss: seq<Half>, n: nat)
    requires IsRun(b, acts, ss) && n <= |acts|
    ensures DistinctAddrs(ss[n].active)
  {
    if n == 0 {
    } else {
      AddressesDistinct(b, acts, ss, n - 1);
      assert StepAt(b, acts, ss, n - 1);
      DistinctNext(b, ss[n - 1], acts[n - 1]);
    }
  }

  /** This action takes the listing that address `a` got at time `t` off the list: a termination
      from `a`, or a reap check of the entry of `a` too long after `t`. */
  predicate Delists(b: Build, s: Half, act: Action, a: UInt32, t: int) {
    || (act.Terminate? && act.addr == a)
    || (act.Reap?
        && var p := FirstByAddress(s.active, a);
           p < |s.active| && act.activeClock(p) > t + ReapInterval(b))
  }

  /** This action puts `a` on the list, or refreshes it there. */
  predicate Admits(s: Half, act: Action, a: UInt32) {
    Accepted(s, act) && act.addr == a
  }

  /** One step, seen from one address. */
  lemma LookupNext(b: Build, s: Half, act: Action, a: UInt32)
    requires DistinctAddrs(s.active)
    ensures Lookup(Next(b, s, act).active, a) ==
              if Admits(s, act, a) then Some(act.now)
              else match Lookup(s.active, a)
                   case None => None
                   case Some(t) => if Delists(b, s, act, a, t) then None else Some(t)
  {
    match act {
      case Keepalive(_, _, _) =>
      case Shake(x, h, now) =>
        AcceptedIffFound(s, act);
        LookupWelcome(s.active, x, now, a);
      case Terminate(x, _) =>
        var i := FirstByAddress(s.active, x);
        if i < |s.active| {
          LookupErase(s.active, i, a);
        }
      case Reap(_, _, clock, _) =>
        LookupSurvivors(s.active, clock, ReapInterval(b), a);
      case Idle(_, _) =>
    }
  }

  lemma LookupAt(b: Build, acts: seq<Action>, ss: seq<Half>, n: nat, a: UInt32)
    requires IsRun(b, acts, ss) && n < |acts|
    ensures Lookup(ss[n + 1].active, a) ==
              if Admits(ss[n], acts[n], a) then Some(acts[n].now)
              else match Lookup(ss[n].active, a)
                   case None => None
                   case Some(t) => if Delists(b, ss[n], acts[n], a, t) then None else Some(t)
  {
    AddressesDistinct(b, acts, ss, n);
    assert StepAt(b, acts, ss, n);
    LookupNext(b, ss[n], acts[n], a);
  }

  /** Action `j` is the accepted shake from `a` that its listing after `n` actions goes back to:
      nothing since then refreshed it or took it off the list. */
  ghost predicate ListedBy(b: Build, acts: seq<Action>, ss: seq<Half>, n: nat, a: UInt32, j: nat)
    requires n <= |acts| && |ss| == |acts| + 1
  {
    && j < n && Admits(ss[j], acts[j], a)
    && forall k :: j < k < n ==>
         !Admits(ss[k], acts[k], a) && !Delists(b, ss[k], acts[k], a, acts[j].now)
  }

  /** An address is listed under timestamp `t` exactly when its last accepted shake came at time
      `t` and since then neither it terminated nor was its entry checked after `t` plus the interval. */
  lemma {:induction false} ListedIffHistory(b: Build, acts: seq<Action>, ss: seq<Half>, n: nat, a: UInt32, t: int)
    requires IsRun(b, acts, ss) && n <= |acts|
    ensures Lookup(ss[n].active, a) == Some(t)
            <==> exists j: nat :: ListedBy(b, acts, ss, n, a, j) && acts[j].now == t
  {
    if n == 0 {
    } else {
      var s, act, s' := ss[n - 1], acts[n - 1], ss[n];
      ListedIffHistory(b, acts, ss, n - 1, a, t);
      LookupAt(b, acts, ss, n - 1, a);
      if Admits(s, act, a) {
        assert ListedBy(b, acts, ss, n, a, n - 1);
        assert forall j: nat :: ListedBy(b, acts, ss, n, a, j) ==> j == n - 1;
      } else if Lookup(s'.active, a) == Some(t) {
        var j: nat :| ListedBy(b, acts, ss, n - 1, a, j) && acts[j].now == t;
        assert ListedBy(b, acts, ss, n, a, j);
      } else {
        forall j: nat | ListedBy(b, acts, ss, n, a, j)
          ensures acts[j].now != t
        {
          assert j < n - 1 && ListedBy(b, acts, ss, n - 1, a, j);
          assert !Delists(b, s, act, a, acts[j].now);
        }
      }
    }
  }

  /** The same in plain seconds: since the accepted shake `j` no other came from `a`, no termination
      came from `a`, and no check of its entry came more than `seconds` after the shake. */
  ghost predicate ListedWithin(acts: seq<Action>, ss: seq<Half>, n: nat, a: UInt32, j: nat, seconds: nat)
    requires n <= |acts| && |ss| == |acts| + 1
  {
    && j < n && Admits(ss[j], acts[j], a)
    && forall k :: j < k < n ==>
         && !Admits(ss[k], acts[k], a)
         && !(acts[k].Terminate? && acts[k].addr == a)
         && (acts[k].Reap? && FirstByAddress(ss[k].active, a) < |ss[k].active| ==>
               acts[k].activeClock(FirstByAddress(ss[k].active, a)) <= acts[j].now + seconds)
  }

  /** 930 seconds in a normal build, 7 in a debug build. */
  lemma ListedIffInSeconds(b: Build, acts: seq<Action>, ss: seq<Half>, n: nat, a: UInt32, t: int)
    requires IsRun(b, acts, ss) && n <= |acts|
    ensures b.Normal? ==>
              (Lookup(ss[n].active, a) == Some(t)
               <==> exists j: nat :: ListedWithin(acts, ss, n, a, j, 930) && acts[j].now == t)
    ensures b.Debug? ==>
              (Lookup(ss[n].active, a) == Some(t)
               <==> exists j: nat :: ListedWithin(acts, ss, n, a, j, 7) && acts[j].now == t)
  {
    ListedIffHistory(b, acts, ss, n, a, t);
    forall j: nat
      ensures b.Normal? ==> (ListedBy(b, acts, ss, n, a, j) <==> ListedWithin(acts, ss, n, a, j, 930))
      ensures b.Debug? ==> (ListedBy(b, acts, ss, n, a, j) <==> ListedWithin(acts, ss, n, a, j, 7))
    {
    }
  }

  // ---------- The list as a finite map ----------

  function Table(l: seq<Entry>): map<UInt32, int> {
    map a | a in Addresses(l) :: l[FirstByAddress(l, a)].time
  }

  /** The same steps on a map from addresses to timestamps, which has no order and no duplicates.
      `reading` is the clock reading at which the pass checks an address. */
  function TableNext(b: Build, m: map<UInt32, int>, accepted: bool, act: Action, reading: UInt32 -> int)
    : map<UInt32, int>
  {
    match act
    case Shake(a, _, now) => if accepted then m[a := now] else m
    case Terminate(a, _) => m - {a}
    case Reap(_, _, _, _) => map a | a in m && reading(a) <= m[a] + ReapInterval(b) :: m[a]
    case _ => m
  }

  /** Looking up a key of a map, in the way a list is looked up. */
  function Find(m: map<UInt32, int>, a: UInt32): Option<int> {
    if a in m then Some(m[a]) else None
  }

  lemma TableLookup(l: seq<Entry>, a: UInt32)
    ensures Find(Table(l), a) == Lookup(l, a)
  {
    assert forall i :: 0 <= i < |l| ==> Addresses(l)[i] == l[i].addr;
    var i := FirstByAddress(l, a);
    if i < |l| {
      assert Addresses(l)[i] == a;
    }
  }

  lemma SameMap(m: map<UInt32, int>, m': map<UInt32, int>)
    requires forall a: UInt32 :: Find(m, a) == Find(m', a)
    ensures m == m'
  {
    forall a: UInt32
      ensures a in m <==> a in m'
      ensures a in m ==> m[a] == m'[a]
    {
      assert Find(m, a) == Find(m', a);
    }
  }

  function Reading(s: Half, act: Action): UInt32 -> int {
    (a: UInt32) => if act.Reap? then act.activeClock(FirstByAddress(s.active, a)) else 0
  }

  /** One step of the map, seen from one address of the list. */
  lemma TableNextFind(b: Build, s: Half, act: Action, a: UInt32)
    ensures Find(TableNext(b, Table(s.active), Accepted(s, act), act, Reading(s, act)), a) ==
              if Admits(s, act, a) then Some(act.now)
              else match Lookup(s.active, a)
                   case None => None
                   case Some(t) => if Delists(b, s, act, a, t) then None else Some(t)
  {
    TableLookup(s.active, a);
  }

  ghost function Members(s: seq<UInt32>): set<UInt32> {
    set a | a in s
  }

  lemma {:induction false} DistinctCount(s: seq<UInt32>)
    requires forall i, j :: 0 <= i < j < |s| ==> s[i] != s[j]
    ensures |Members(s)| == |s|
  {
    if s == [] {
    } else {
      var n := |s| - 1;
      DistinctCount(s[..n]);
      assert s == s[..n] + [s[n]];
      assert Members(s) == Members(s[..n]) + {s[n]};
    }
  }

  /** The map of a reachable half has one key for every list entry, and every step of the half is
      a step of the map; in particular a termination leaves no entry of its address although only
      the first match is erased. */
  lemma TableRefines(b: Build, acts: seq<Action>, ss: seq<Half>, n: nat)
    requires IsRun(b, acts, ss) && n < |acts|
    ensures |Table(ss[n].active)| == |ss[n].active|
    ensures Table(ss[n + 1].active)
            == TableNext(b, Table(ss[n].active), Accepted(ss[n], acts[n]), acts[n], Reading(ss[n], acts[n]))
  {
    var m' := TableNext(b, Table(ss[n].active), Accepted(ss[n], acts[n]), acts[n], Reading(ss[n], acts[n]));
    forall a: UInt32
      ensures Find(Table(ss[n + 1].active), a) == Find(m', a)
    {
      LookupAt(b, acts, ss, n, a);
      TableNextFind(b, ss[n], acts[n], a);
      TableLookup(ss[n + 1].active, a);
    }
    SameMap(Table(ss[n + 1].active), m');
    AddressesDistinct(b, acts, ss, n);
    DistinctCount(Addresses(ss[n].active));
    assert Table(ss[n].active).Keys == Members(Addresses(ss[n].active));
  }

  // ---------- Positions ----------

  /** While an address stays listed its position never grows. */
  lemma PositionNext(b: Build, s: Half, act: Action, a: UInt32)
    requires DistinctAddrs(s.active)
    requires Lookup(s.active, a).Some? && Lookup(Next(b, s, act).active, a).Some?
    ensures FirstByAddress(Next(b, s, act).active, a) <= FirstByAddress(s.active, a)
  {
    match act {
      case Keepalive(_, _, _) =>
      case Shake(x, h, now) =>
        LookupWelcome(s.active, x, now, a);
      case Terminate(x, _) =>
        var i := FirstByAddress(s.active, x);
        if i < |s.active| {
          LookupErase(s.active, i, a);
        }
      case Reap(_, _, clock, _) =>
        LookupSurvivors(s.active, clock, ReapInterval(b), a);
      case Idle(_, _) =>
    }
  }

  lemma PositionAfter(b: Build, acts: seq<Action>, ss: seq<Half>, n: nat, a: UInt32)
    requires IsRun(b, acts, ss) && n < |acts|
    requires Lookup(ss[n].active, a).Some? && Lookup(ss[n + 1].active, a).Some?
    ensures FirstByAddress(ss[n + 1].active, a) <= FirstByAddress(ss[n].active, a)
  {
    AddressesDistinct(b, acts, ss, n);
    assert StepAt(b, acts, ss, n);
    PositionNext(b, ss[n], acts[n], a);
  }

  ghost predicate ListedThroughout(ss: seq<Half>, from: nat, to: nat, a: UInt32)
    requires to < |ss|
  {
    forall k :: from <= k <= to ==> Lookup(ss[k].active, a).Some?
  }

  lemma {:induction false} PositionNeverGrows(b: Build, acts: seq<Action>, ss: seq<Half>, from: nat, to: nat, a: UInt32)
    requires IsRun(b, acts, ss) && from <= to <= |acts| && ListedThroughout(ss, from, to, a)
    ensures FirstByAddress(ss[to].active, a) <= FirstByAddress(ss[from].active, a)
  {
    if from == to {
    } else {
      assert ListedThroughout(ss, from, to - 1, a);
      PositionNeverGrows(b, acts, ss, from, to - 1, a);
      assert Lookup(ss[to - 1].active, a).Some? && Lookup(ss[to].active, a).Some?;
      PositionAfter(b, acts, ss, to - 1, a);
    }
  }

  /** An action that takes nobody off the list. */
  ghost predicate Spares(b: Build, s: Half, act: Action) {
    && !(act.Terminate? && Lookup(s.active, act.addr).Some?)
    && (act.Reap? ==> forall i :: 0 <= i < |s.active| ==> !Stale(s.active[i], act.activeClock(i), ReapInterval(b)))
  }

  /** Registrations and refreshes only ever append to the addresses of the list. */
  lemma GrowthNext(b: Build, s: Half, act: Action)
    requires Spares(b, s, act)
    ensures Addresses(s.active) <= Addresses(Next(b, s, act).active)
  {
    if act.Shake? {
      LookupWelcome(s.active, act.addr, act.now, act.addr);
    } else if act.Reap? {
      SurvivorsAll(s.active, act.activeClock, ReapInterval(b));
    }
  }

  lemma {:induction false} Growth(b: Build, acts: seq<Action>, ss: seq<Half>, from: nat, to: nat)
    requires IsRun(b, acts, ss) && from <= to <= |acts|
    requires forall k :: from <= k < to ==> Spares(b, ss[k], acts[k])
    ensures Addresses(ss[from].active) <= Addresses(ss[to].active)
  {
    if from == to {
    } else {
      Growth(b, acts, ss, from, to - 1);
      assert StepAt(b, acts, ss, to - 1);
      GrowthNext(b, ss[to - 1], acts[to - 1]);
      PrefixTrans(Addresses(ss[from].active), Addresses(ss[to - 1].active), Addresses(ss[to].active));
    }
  }

  lemma PrefixTrans<T>(a: seq<T>, b: seq<T>, c: seq<T>)
    requires a <= b <= c
    ensures a <= c
  {}
}
