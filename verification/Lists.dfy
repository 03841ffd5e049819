/**
 How the list operations of the registry act on addresses, timestamps and positions.
 */
module Lists {
  import opened Wire
  import opened Messages
  import opened Registry

  ghost predicate DistinctAddrs(l: seq<Entry>) {
    forall i, j :: 0 <= i < j < |l| ==> l[i].addr != l[j].addr
  }

  /** The timestamp under which an address is listed. */
  function Lookup(l: seq<Entry>, a: UInt32): Option<int> {
    var i := FirstByAddress(l, a);
    if i < |l| then Some(l[i].time) else None
  }

  /** `l'` is what is left of `l`, in the old order, when entry `i` stays exactly if `clock(i)` is at most
      `seconds` after its time. */
  ghost predicate Selects(kept: seq<nat>, l: seq<Entry>, l': seq<Entry>, clock: nat -> int, seconds: nat) {
    && |kept| == |l'|
    && (forall k :: 0 <= k < |kept| ==> kept[k] < |l| && l'[k] == l[kept[k]])
    && (forall j, k :: 0 <= j < k < |kept| ==> kept[j] < kept[k])
    && forall i :: 0 <= i < |l| ==> (i in kept <==> clock(i) <= l[i].time + seconds)
  }

  lemma DropLast(kept: seq<nat>, front: seq<Entry>, r: seq<Entry>, e: Entry, clock: nat -> int, seconds: nat)
    requires Selects(kept, front, r, clock, seconds) && clock(|front|) > e.time + seconds
    ensures Selects(kept, front + [e], r, clock, seconds)
  {}

  lemma KeepLast(kept: seq<nat>, front: seq<Entry>, r: seq<Entry>, e: Entry, clock: nat -> int, seconds: nat)
    requires Selects(kept, front, r, clock, seconds) && clock(|front|) <= e.time + seconds
    ensures Selects(kept + [|front|], front + [e], r + [e], clock, seconds)
  {
    forall i | 0 <= i <= |front|
      ensures i in kept + [|front|] <==> clock(i) <= (front + [e])[i].time + seconds
    {
      assert i in kept + [|front|] <==> i in kept || i == |front|;
    }
  }

  lemma {:induction false} SelectSurvivors(l: seq<Entry>, clock: nat -> int, interval: nat) returns (kept: seq<nat>)
    ensures Selects(kept, l, Survivors(l, clock, interval), clock, interval)
  {
    if l == [] {
      kept := [];
    } else {
      var n := |l| - 1;
      var front, e := l[..n], l[n];
      var r := Survivors(front, clock, interval);
      kept := SelectSurvivors(front, clock, interval);
      assert l == front + [e];
      if Stale(e, clock(n), interval) {
        DropLast(kept, front, r, e, clock, interval);
        assert Survivors(l, clock, interval) == r;
      } else {
        KeepLast(kept, front, r, e, clock, interval);
        assert Survivors(l, clock, interval) == r + [e];
        kept := kept + [n];
      }
    }
  }

  /** A reap pass leaves a sublist in the old order, picked by each entry's own clock reading. */
  lemma SurvivorsSelect(l: seq<Entry>, clock: nat -> int, interval: nat) returns (kept: seq<nat>)
    ensures |kept| == |Survivors(l, clock, interval)|
    ensures forall k :: 0 <= k < |kept| ==> kept[k] < |l| && Survivors(l, clock, interval)[k] == l[kept[k]]
    ensures forall j, k :: 0 <= j < k < |kept| ==> kept[j] < kept[k]
    ensures forall i :: 0 <= i < |l| ==> (i in kept <==> !Stale(l[i], clock(i), interval))
  {
    kept := SelectSurvivors(l, clock, interval);
  }

  /** When the clock stays between `start` and `end` during the pass, an entry too old at the
      start is lost and an entry young enough at the end is kept; those in between are decided by
      their own reading. */
  lemma ReapEqualsFilter(l: seq<Entry>, clock: nat -> int, interval: nat, start: int, end: int) returns (kept: seq<nat>)
    requires forall i: nat :: start <= clock(i) <= end
    ensures |kept| == |Survivors(l, clock, interval)|
    ensures forall k :: 0 <= k < |kept| ==> kept[k] < |l| && Survivors(l, clock, interval)[k] == l[kept[k]]
    ensures forall j, k :: 0 <= j < k < |kept| ==> kept[j] < kept[k]
    ensures forall i :: 0 <= i < |l| && start > l[i].time + interval ==> i !in kept
    ensures forall i :: 0 <= i < |l| && end <= l[i].time + interval ==> i in kept
    ensures forall i :: 0 <= i < |l| ==> (i in kept <==> clock(i) <= l[i].time + interval)
  {
    kept := SurvivorsSelect(l, clock, interval);
  }

  lemma PassSelects(b: Build, l: seq<Entry>, clock: nat -> int) returns (kept: seq<nat>)
    ensures Selects(kept, l, Survivors(l, clock, ReapInterval(b)), clock, if b.Normal? then 930 else 7)
  {
    kept := SelectSurvivors(l, clock, ReapInterval(b));
  }

  lemma {:induction false} SurvivorsAreEntries(l: seq<Entry>, clock: nat -> int, interval: nat)
    ensures |Survivors(l, clock, interval)| <= |l|
    ensures forall e :: e in Survivors(l, clock, interval) ==>
              exists i :: 0 <= i < |l| && e == l[i] && !Stale(l[i], clock(i), interval)
  {
    var kept := SurvivorsSelect(l, clock, interval);
    IncreasingBounded(kept, |l|);
  }

  lemma {:induction false} IncreasingBounded(idx: seq<nat>, n: nat)
    requires forall k :: 0 <= k < |idx| ==> idx[k] < n
    requires forall j, k :: 0 <= j < k < |idx| ==> idx[j] < idx[k]
    ensures |idx| <= n
  {
    if idx == [] {
    } else {
      IncreasingBounded(idx[..|idx| - 1], idx[|idx| - 1]);
    }
  }

  // Distinct addresses are kept by every operation.

  lemma SurvivorsDistinct(l: seq<Entry>, clock: nat -> int, interval: nat)
    requires DistinctAddrs(l)
    ensures DistinctAddrs(Survivors(l, clock, interval))
  {
    var kept := SurvivorsSelect(l, clock, interval);
  }

  lemma WelcomeDistinct(l: seq<Entry>, a: UInt32, now: int)
    requires DistinctAddrs(l)
    ensures DistinctAddrs(Welcome(l, a, now))
  {}

  lemma EraseDistinct(l: seq<Entry>, i: nat)
    requires DistinctAddrs(l) && i < |l|
    ensures DistinctAddrs(Erase(l, i))
  {}

  /** With distinct addresses an entry anywhere in the list is the one a search finds. */
  lemma FoundAt(l: seq<Entry>, i: nat)
    requires DistinctAddrs(l) && i < |l|
    ensures FirstByAddress(l, l[i].addr) == i
  {}

  // What each operation does to the entry of one address, and to its position.

  lemma LookupWelcome(l: seq<Entry>, a: UInt32, now: int, x: UInt32)
    ensures Lookup(Welcome(l, a, now), x) == if x == a then Some(now) else Lookup(l, x)
    ensures Lookup(l, x).Some? ==> FirstByAddress(Welcome(l, a, now), x) == FirstByAddress(l, x)
    ensures Addresses(l) <= Addresses(Welcome(l, a, now))
  {
    var w, p, q := Welcome(l, a, now), FirstByAddress(l, x), FirstByAddress(Welcome(l, a, now), x);
    assert forall k :: 0 <= k < |l| ==> w[k].addr == l[k].addr;
    if p < |l| {
      assert w[p].addr == x;
      assert q == p;
    } else if x == a {
      assert w[|l|].addr == x;
      assert q == |l|;
    } else {
      assert forall k :: 0 <= k < |w| ==> w[k].addr != x;
    }
  }

  /** Erasing the only entry of an address unlists it and moves no other entry backwards. */
  lemma LookupErase(l: seq<Entry>, i: nat, x: UInt32)
    requires DistinctAddrs(l) && i < |l|
    ensures Lookup(Erase(l, i), x) == if x == l[i].addr then None else Lookup(l, x)
    ensures Lookup(Erase(l, i), x).Some? ==> FirstByAddress(Erase(l, i), x) <= FirstByAddress(l, x)
  {
    var r, p := Erase(l, i), FirstByAddress(l, x);
    assert forall k :: 0 <= k < |r| ==> r[k] == l[if k < i then k else k + 1];
    if p < |l| && p != i {
      assert r[if p < i then p else p - 1] == l[p];
    }
  }

  lemma LookupSurvivors(l: seq<Entry>, clock: nat -> int, interval: nat, x: UInt32)
    requires DistinctAddrs(l)
    ensures var p := FirstByAddress(l, x);
            Lookup(Survivors(l, clock, interval), x)
            == if p < |l| && !Stale(l[p], clock(p), interval) then Some(l[p].time) else None
    ensures Lookup(Survivors(l, clock, interval), x).Some? ==>
              FirstByAddress(Survivors(l, clock, interval), x) <= FirstByAddress(l, x)
  {
    var r, p := Survivors(l, clock, interval), FirstByAddress(l, x);
    var kept := SurvivorsSelect(l, clock, interval);
    if p < |l| && p in kept {
      var k :| 0 <= k < |kept| && kept[k] == p;
      assert r[k] == l[p];
      IncreasingBounded(kept[..k], p);
      SurvivorsDistinct(l, clock, interval);
      FoundAt(r, k);
    } else {
      forall k | 0 <= k < |r|
        ensures r[k].addr != x
      {
        assert r[k] == l[kept[k]] && kept[k] in kept;
        FoundAt(l, kept[k]);
      }
    }
  }

  /** A pass that finds nothing stale changes nothing. */
  lemma {:induction false} SurvivorsAll(l: seq<Entry>, clock: nat -> int, interval: nat)
    requires forall i :: 0 <= i < |l| ==> !Stale(l[i], clock(i), interval)
    ensures Survivors(l, clock, interval) == l
  {
    if l == [] {
    } else {
      var n := |l| - 1;
      var front := l[..n];
      forall i | 0 <= i < n
        ensures !Stale(front[i], clock(i), interval)
      {
        assert front[i] == l[i];
      }
      SurvivorsAll(front, clock, interval);
      assert l == front + [l[n]];
    }
  }
}
