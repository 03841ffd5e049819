/**
 What the reap interval promises a peer: whoever refreshes often enough stays listed, and whoever
 falls silent disappears.
 */
module Promises {
  import opened Wire
  import opened Messages
  import opened Registry
  import opened Lists
  import opened Listing
  import opened Ageing

  /** Every reap pass between actions `m` and `n` ends at most one interval after some accepted
      shake from `a` that came before it, and `a` does not terminate. */
  ghost predicate KeptAlive(b: Build, acts: seq<Action>, ss: seq<Half>, m: nat, n: nat, a: UInt32)
    requires n <= |acts| && |ss| == |acts| + 1
  {
    forall k :: m < k < n ==>
      && !(acts[k].Terminate? && acts[k].addr == a)
      && (acts[k].Reap? ==>
            exists j :: m <= j < k && Admits(ss[j], acts[j], a) && acts[k].end <= acts[j].now + ReapInterval(b))
  }

  /** Time `t` is not before any accepted shake from `a` among the actions `m` to `n - 1`. */
  ghost predicate NoLaterShake(acts: seq<Action>, ss: seq<Half>, m: nat, n: nat, a: UInt32, t: int)
    requires n <= |acts| && |ss| == |acts| + 1
  {
    forall j :: m <= j < n && Admits(ss[j], acts[j], a) ==> acts[j].now <= t
  }

  lemma NotDelisted(b: Build, acts: seq<Action>, ss: seq<Half>, m: nat, k: nat, a: UInt32, t: int)
    requires |ss| == |acts| + 1 && m < k < |acts| && Timely(acts[k])
    requires KeptAlive(b, acts, ss, m, k + 1, a) && NoLaterShake(acts, ss, m, k, a, t)
    ensures !Delists(b, ss[k], acts[k], a, t)
  {
    if acts[k].Reap? {
      var j :| m <= j < k && Admits(ss[j], acts[j], a) && acts[k].end <= acts[j].now + ReapInterval(b);
      assert acts[j].now <= t;
    }
  }

  lemma NoLaterShakeNext(acts: seq<Action>, ss: seq<Half>, m: nat, k: nat, a: UInt32, t: int)
    requires m <= k < |acts| && |ss| == |acts| + 1 && Clocked(acts)
    ensures Admits(ss[k], acts[k], a) ==> NoLaterShake(acts, ss, m, k + 1, a, acts[k].now)
    ensures !Admits(ss[k], acts[k], a) && NoLaterShake(acts, ss, m, k, a, t) ==> NoLaterShake(acts, ss, m, k + 1, a, t)
  {
    assert forall j :: m <= j < k && acts[j].Shake? ==> acts[j].now == acts[j].End() <= acts[k].Begin();
  }

  /** A peer whose accepted shakes keep up with the reap passes stays listed, under a time not
      before any of them. */
  lemma {:induction false} KeptAliveStaysListed(b: Build, acts: seq<Action>, ss: seq<Half>, m: nat, n: nat, a: UInt32)
    requires IsRun(b, acts, ss) && Clocked(acts) && m < n <= |acts|
    requires Admits(ss[m], acts[m], a) && KeptAlive(b, acts, ss, m, n, a)
    ensures Lookup(ss[n].active, a).Some?
    ensures NoLaterShake(acts, ss, m, n, a, Lookup(ss[n].active, a).value)
  {
    var k := n - 1;
    LookupAt(b, acts, ss, k, a);
    if Admits(ss[k], acts[k], a) {
      NoLaterShakeNext(acts, ss, m, k, a, acts[k].now);
    } else {
      assert KeptAlive(b, acts, ss, m, k, a);
      KeptAliveStaysListed(b, acts, ss, m, k, a);
      var t := Lookup(ss[k].active, a).value;
      NotDelisted(b, acts, ss, m, k, a, t);
      NoLaterShakeNext(acts, ss, m, k, a, t);
    }
  }

  /** Every reap pass between actions `m` and `n` ends at most `seconds` after some accepted shake from
      `a` that came before it, and `a` does not terminate. */
  ghost predicate RefreshedWithin(acts: seq<Action>, ss: seq<Half>, m: nat, n: nat, a: UInt32, seconds: nat)
    requires n <= |acts| && |ss| == |acts| + 1
  {
    forall k :: m < k < n ==>
      && !(acts[k].Terminate? && acts[k].addr == a)
      && (acts[k].Reap? ==>
            exists j :: m <= j < k && Admits(ss[j], acts[j], a) && acts[k].end <= acts[j].now + seconds)
  }

  /** In a normal build 930 seconds are often enough to stay listed, in a debug build 7. */
  lemma KeptAliveInSeconds(b: Build, acts: seq<Action>, ss: seq<Half>, m: nat, n: nat, a: UInt32)
    requires IsRun(b, acts, ss) && Clocked(acts) && m < n <= |acts| && Admits(ss[m], acts[m], a)
    requires if b.Normal? then RefreshedWithin(acts, ss, m, n, a, 930) else RefreshedWithin(acts, ss, m, n, a, 7)
    ensures Lookup(ss[n].active, a).Some?
    ensures NoLaterShake(acts, ss, m, n, a, Lookup(ss[n].active, a).value)
  {
    assert KeptAlive(b, acts, ss, m, n, a);
    KeptAliveStaysListed(b, acts, ss, m, n, a);
  }

  /** A peer from which no shake was accepted after time `t` is gone once the interval and the
      spacing of the reap passes are over. */
  lemma SilentPeerIsGone(b: Build, acts: seq<Action>, ss: seq<Half>, n: nat, d: nat, a: UInt32, t: int)
    requires IsRun(b, acts, ss) && Clocked(acts) && n < |acts| && ReapedWithin(acts, n, d)
    requires NoLaterShake(acts, ss, 0, n, a, t)
    requires acts[n].Begin() > t + ReapInterval(b) + d
    ensures Lookup(ss[n].active, a) == None
  {
    StalenessBound(b, acts, ss, n, d);
    var l := ss[n].active;
    var i := FirstByAddress(l, a);
    if i < |l| {
      ListedIffHistory(b, acts, ss, n, a, l[i].time);
    }
  }
}
