/**
 Accounts over whole runs: what every handshake value was spent on, and how every listing came
 about and ended.
 */
module Ledger {
  import opened Wire
  import opened Messages
  import opened Registry
  import opened Lists

  /** The handshake values of a list, with multiplicity: random values may repeat. */
  ghost function Values(l: seq<Entry>): multiset<UInt32> {
    if l == [] then multiset{} else Values(l[..|l| - 1]) + multiset{l[|l| - 1].handshake}
  }

  lemma ValuesAppend(l: seq<Entry>, e: Entry)
    ensures Values(l + [e]) == Values(l) + multiset{e.handshake}
  {
    assert (l + [e])[..|l|] == l;
  }

  lemma EraseFront(l: seq<Entry>, i: nat)
    requires i < |l|
    ensures var n := |l| - 1;
            Erase(l, i) == if i == n then l[..n] else Erase(l[..n], i) + [l[n]]
  {}

  lemma Swap<T>(m: multiset<T>, x: T, y: T)
    ensures m + multiset{x} + multiset{y} == m + multiset{y} + multiset{x}
  {}

  lemma {:induction false} ValuesErase(l: seq<Entry>, i: nat)
    requires i < |l|
    ensures Values(l) == Values(Erase(l, i)) + multiset{l[i].handshake}
  {
    var n := |l| - 1;
    EraseFront(l, i);
    if i == n {
    } else {
      var front, short := l[..n], Erase(l[..n], i);
      ValuesErase(front, i);
      assert Values(l) == Values(front) + multiset{l[n].handshake};
      assert Values(Erase(l, i)) == Values(short) + multiset{l[n].handshake} by { ValuesAppend(short, l[n]); }
      Swap(Values(short), front[i].handshake, l[n].handshake);
    }
  }

  lemma AddToEither<T>(all: multiset<T>, s: multiset<T>, c: multiset<T>, m: multiset<T>)
    requires all == s + c
    ensures all + m == (s + m) + c && all + m == s + (c + m)
  {}

  lemma SplitNext(l: seq<Entry>, clock: nat -> int, interval: nat, n: nat)
    requires |l| == n + 1
    ensures var s, c := Survivors(l[..n], clock, interval), Casualties(l[..n], clock, interval);
            var h := multiset{l[n].handshake};
            if Stale(l[n], clock(n), interval) then
              Survivors(l, clock, interval) == s && Values(Casualties(l, clock, interval)) == Values(c) + h
            else
              Values(Survivors(l, clock, interval)) == Values(s) + h && Casualties(l, clock, interval) == c
  {
    var s, c := Survivors(l[..n], clock, interval), Casualties(l[..n], clock, interval);
    ValuesAppend(s, l[n]);
    ValuesAppend(c, l[n]);
    assert c + [] == c && s + [] == s;
  }

  /** A reap pass splits a list: nothing is lost but what it removes, nothing is kept twice. */
  lemma {:induction false} ValuesSplit(l: seq<Entry>, clock: nat -> int, interval: nat)
    ensures Values(l) == Values(Survivors(l, clock, interval)) + Values(Casualties(l, clock, interval))
  {
    if l == [] {
    } else {
      var n := |l| - 1;
      var front := l[..n];
      ValuesSplit(front, clock, interval);
      SplitNext(l, clock, interval, n);
      AddToEither(Values(front), Values(Survivors(front, clock, interval)), Values(Casualties(front, clock, interval)),
                  multiset{l[n].handshake});
    }
  }

  lemma {:induction false} SizesSplit(l: seq<Entry>, clock: nat -> int, interval: nat)
    ensures |l| == |Survivors(l, clock, interval)| + |Casualties(l, clock, interval)|
  {
    if l == [] {
    } else {
      SizesSplit(l[..|l| - 1], clock, interval);
    }
  }

  ghost function IssuedBy(act: Action): multiset<UInt32> {
    if act.Keepalive? then multiset{act.h} else multiset{}
  }

  ghost function ConsumedBy(s: Half, act: Action): multiset<UInt32> {
    if Accepted(s, act) then multiset{act.h} else multiset{}
  }

  ghost function ReapedBy(b: Build, s: Half, act: Action): multiset<UInt32> {
    if act.Reap? then Values(Casualties(s.pending, act.pendingClock, ReapInterval(b))) else multiset{}
  }

  /** All values handed out in answer to the first `n` actions. */
  ghost function Issued(acts: seq<Action>, n: nat): multiset<UInt32>
    requires n <= |acts|
  {
    if n == 0 then multiset{} else Issued(acts, n - 1) + IssuedBy(acts[n - 1])
  }

  /** All values carried by accepted shakes. */
  ghost function Consumed(acts: seq<Action>, ss: seq<Half>, n: nat): multiset<UInt32>
    requires n <= |acts| < |ss|
  {
    if n == 0 then multiset{} else Consumed(acts, ss, n - 1) + ConsumedBy(ss[n - 1], acts[n - 1])
  }

  /** All values of pending handshakes that reap passes removed. */
  ghost function Reaped(b: Build, acts: seq<Action>, ss: seq<Half>, n: nat): multiset<UInt32>
    requires n <= |acts| < |ss|
  {
    if n == 0 then multiset{} else Reaped(b, acts, ss, n - 1) + ReapedBy(b, ss[n - 1], acts[n - 1])
  }

  lemma KeepaliveIssuesOne(b: Build, s: Half, act: Action)
    requires act.Keepalive?
    ensures Values(Next(b, s, act).pending) == Values(s.pending) + IssuedBy(act)
  {
    ValuesAppend(s.pending, Entry(act.addr, act.h, act.now));
  }

  lemma ShakeSpendsOne(b: Build, s: Half, act: Action)
    requires act.Shake?
    ensures Values(s.pending) == Values(Next(b, s, act).pending) + ConsumedBy(s, act)
  {
    AcceptedIffFound(s, act);
    var i := FirstByHandshake(s.pending, act.h);
    if i < |s.pending| {
      ValuesErase(s.pending, i);
    }
  }

  lemma ReapSplits(b: Build, s: Half, act: Action)
    requires act.Reap?
    ensures Values(s.pending) == Values(Next(b, s, act).pending) + ReapedBy(b, s, act)
  {
    ValuesSplit(s.pending, act.pendingClock, ReapInterval(b));
  }

  lemma ValuesNext(b: Build, s: Half, act: Action)
    ensures Values(s.pending) + IssuedBy(act)
            == Values(Next(b, s, act).pending) + ConsumedBy(s, act) + ReapedBy(b, s, act)
  {
    match act {
      case Keepalive(_, _, _) => KeepaliveIssuesOne(b, s, act);
      case Shake(_, _, _) => ShakeSpendsOne(b, s, act);
      case Reap(_, _, _, _) => ReapSplits(b, s, act);
      case _ => assert Next(b, s, act).pending == s.pending;
    }
  }

  lemma Balance<T>(i: multiset<T>, p: multiset<T>, c: multiset<T>, r: multiset<T>,
                   di: multiset<T>, p': multiset<T>, dc: multiset<T>, dr: multiset<T>)
    requires i == p + c + r && p + di == p' + dc + dr
    ensures i + di == p' + (c + dc) + (r + dr)
  {
    assert i + di == (p + di) + c + r;
  }

  /** Every value ever issued is pending, was consumed by one accepted shake, or was reaped. */
  lemma {:induction false} HandshakeLedger(b: Build, acts: seq<Action>, ss: seq<Half>, n: nat)
    requires IsRun(b, acts, ss) && n <= |acts|
    ensures Issued(acts, n) == Values(ss[n].pending) + Consumed(acts, ss, n) + Reaped(b, acts, ss, n)
  {
    if n == 0 {
    } else {
      var s, act, s' := ss[n - 1], acts[n - 1], ss[n];
      HandshakeLedger(b, acts, ss, n - 1);
      assert Values(s.pending) + IssuedBy(act) == Values(s'.pending) + ConsumedBy(s, act) + ReapedBy(b, s, act) by {
        assert StepAt(b, acts, ss, n - 1);
        ValuesNext(b, s, act);
      }
      Balance(Issued(acts, n - 1), Values(s.pending), Consumed(acts, ss, n - 1), Reaped(b, acts, ss, n - 1),
              IssuedBy(act), Values(s'.pending), ConsumedBy(s, act), ReapedBy(b, s, act));
    }
  }

  /** Consequently no value is accepted more often than it was issued. */
  lemma NoForgedShake(b: Build, acts: seq<Action>, ss: seq<Half>, n: nat, h: UInt32)
    requires IsRun(b, acts, ss) && n <= |acts|
    ensures Consumed(acts, ss, n)[h] <= Issued(acts, n)[h]
  {
    HandshakeLedger(b, acts, ss, n);
  }

  function One(b: bool): nat { if b then 1 else 0 }

  /** Accepted shakes from addresses that were not listed. */
  ghost function Joins(acts: seq<Action>, ss: seq<Half>, n: nat): nat
    requires n <= |acts| < |ss|
  {
    if n == 0 then 0 else
      var s, act := ss[n - 1], acts[n - 1];
      Joins(acts, ss, n - 1) + One(Accepted(s, act) && Lookup(s.active, act.addr).None?)
  }

  /** Accepted shakes from addresses that were listed. */
  ghost function Refreshes(acts: seq<Action>, ss: seq<Half>, n: nat): nat
    requires n <= |acts| < |ss|
  {
    if n == 0 then 0 else
      var s, act := ss[n - 1], acts[n - 1];
      Refreshes(acts, ss, n - 1) + One(Accepted(s, act) && Lookup(s.active, act.addr).Some?)
  }

  /** Terminations of listed addresses. */
  ghost function Departures(acts: seq<Action>, ss: seq<Half>, n: nat): nat
    requires n <= |acts| < |ss|
  {
    if n == 0 then 0 else
      var s, act := ss[n - 1], acts[n - 1];
      Departures(acts, ss, n - 1) + One(act.Terminate? && Lookup(s.active, act.addr).Some?)
  }

  ghost function ExpiredBy(b: Build, s: Half, act: Action): nat {
    if act.Reap? then |Casualties(s.active, act.activeClock, ReapInterval(b))| else 0
  }

  /** Listings that reap passes removed. */
  ghost function Expiries(b: Build, acts: seq<Action>, ss: seq<Half>, n: nat): nat
    requires n <= |acts| < |ss|
  {
    if n == 0 then 0 else Expiries(b, acts, ss, n - 1) + ExpiredBy(b, ss[n - 1], acts[n - 1])
  }

  lemma SizeNext(b: Build, s: Half, act: Action)
    ensures |s.active| + One(Accepted(s, act) && Lookup(s.active, act.addr).None?)
            == |Next(b, s, act).active| + One(act.Terminate? && Lookup(s.active, act.addr).Some?)
               + ExpiredBy(b, s, act)
  {
    if act.Shake? {
      AcceptedIffFound(s, act);
    } else if act.Reap? {
      SizesSplit(s.active, act.activeClock, ReapInterval(b));
    }
  }

  lemma {:induction false} JoinsAndRefreshes(acts: seq<Action>, ss: seq<Half>, n: nat)
    requires n <= |acts| < |ss|
    ensures |Consumed(acts, ss, n)| == Joins(acts, ss, n) + Refreshes(acts, ss, n)
  {
    if n == 0 {
    } else {
      JoinsAndRefreshes(acts, ss, n - 1);
    }
  }

  lemma {:induction false} JoinsAccounted(b: Build, acts: seq<Action>, ss: seq<Half>, n: nat)
    requires IsRun(b, acts, ss) && n <= |acts|
    ensures Joins(acts, ss, n) == |ss[n].active| + Departures(acts, ss, n) + Expiries(b, acts, ss, n)
  {
    if n == 0 {
    } else {
      JoinsAccounted(b, acts, ss, n - 1);
      assert ss[n] == Next(b, ss[n - 1], acts[n - 1]) by { assert StepAt(b, acts, ss, n - 1); }
      SizeNext(b, ss[n - 1], acts[n - 1]);
    }
  }

  /** Accepted shakes are joins or refreshes, one each; and whoever joined is still listed, has
      terminated or has expired. */
  lemma ListingLedger(b: Build, acts: seq<Action>, ss: seq<Half>, n: nat)
    requires IsRun(b, acts, ss) && n <= |acts|
    ensures |Consumed(acts, ss, n)| == Joins(acts, ss, n) + Refreshes(acts, ss, n)
    ensures Joins(acts, ss, n) == |ss[n].active| + Departures(acts, ss, n) + Expiries(b, acts, ss, n)
  {
    JoinsAndRefreshes(acts, ss, n);
    JoinsAccounted(b, acts, ss, n);
  }
}
