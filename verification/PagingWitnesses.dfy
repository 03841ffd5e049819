/**
 Runs in which the paging protocol goes wrong: one server more than a page holds registers, the
 client fetches the first page, and then the first server leaves.
 */
module PagingWitnesses {
  import opened Wire
  import opened Messages
  import opened Registry
  import opened Ageing
  import opened Paging

  // ---------- A crowd registers ----------

  /** Keepalive and shake of the servers 0, 1, 2, ..., one action a second. */
  ghost predicate Registers(acts: seq<Action>, n: nat)
    requires n < 0x1_0000_0000
  {
    && 2 * n <= |acts|
    && forall i :: 0 <= i < n ==> acts[2 * i] == Keepalive(i, i, 2 * i) && acts[2 * i + 1] == Shake(i, i, 2 * i + 1)
  }

  /** The list after the first `n` of them. */
  function Crowd(n: nat): (l: seq<Entry>)
    requires n < 0x1_0000_0000
    ensures |l| == n
  {
    seq(n, i requires 0 <= i < n => Entry(i, 0, 2 * i + 1))
  }

  lemma NewcomerLast(n: nat)
    requires n + 1 < 0x1_0000_0000
    ensures Welcome(Crowd(n), n, 2 * n + 1) == Crowd(n + 1)
  {
    assert forall i :: 0 <= i < n ==> Crowd(n)[i].addr == i;
    assert Crowd(n + 1) == Crowd(n) + [Entry(n, 0, 2 * n + 1)];
  }

  lemma {:induction false} CrowdListed(b: Build, acts: seq<Action>, ss: seq<Half>, n: nat)
    requires n < 0x1_0000_0000 && IsRun(b, acts, ss) && Registers(acts, n)
    ensures ss[2 * n].active == Crowd(n) && ss[2 * n].pending == []
  {
    if n == 0 {
    } else {
      var k := n - 1;
      CrowdListed(b, acts, ss, k);
      assert acts[2 * k] == Keepalive(k, k, 2 * k);
      LoginAt(b, acts, ss, 2 * k, k, k, 2 * k);
      NewcomerLast(k);
    }
  }

  /** All actions come one second apart. */
  ghost predicate Ticking(acts: seq<Action>) {
    forall i :: 0 <= i < |acts| ==> !acts[i].Reap? && acts[i].Begin() == acts[i].End() == i
  }

  lemma TickingClocked(acts: seq<Action>)
    requires Ticking(acts)
    ensures Clocked(acts)
  {}

  lemma {:induction false} CrowdRegisters(n: nat) returns (acts: seq<Action>)
    requires n < 0x1_0000_0000
    ensures |acts| == 2 * n && Registers(acts, n) && Ticking(acts)
  {
    if n == 0 {
      acts := [];
    } else {
      var k := n - 1;
      var front := CrowdRegisters(k);
      acts := front + [Keepalive(k, k, 2 * k), Shake(k, k, 2 * k + 1)];
    }
  }

  // ---------- The first server leaves and comes back ----------

  ghost predicate LeaveAndReturn(acts: seq<Action>, n: nat)
    requires n < 0x1_0000_0000
  {
    && |acts| == 2 * n + 3 && Registers(acts, n) && Ticking(acts)
    && acts[2 * n] == Terminate(0, 2 * n)
    && acts[2 * n + 1] == Keepalive(0, 0, 2 * n + 1) && acts[2 * n + 2] == Shake(0, 0, 2 * n + 2)
  }

  lemma LeaveAndReturnRun(b: Build, n: nat) returns (acts: seq<Action>, ss: seq<Half>)
    requires n < 0x1_0000_0000
    ensures LeaveAndReturn(acts, n) && IsRun(b, acts, ss)
  {
    var front := CrowdRegisters(n);
    acts := front + [Terminate(0, 2 * n), Keepalive(0, 0, 2 * n + 1), Shake(0, 0, 2 * n + 2)];
    ss := RunExists(b, acts);
  }

  lemma FirstLeaves(b: Build, acts: seq<Action>, ss: seq<Half>, n: nat)
    requires 0 < n < 0x1_0000_0000 && LeaveAndReturn(acts, n) && IsRun(b, acts, ss)
    ensures ss[2 * n].active == Crowd(n)
    ensures ss[2 * n + 1].active == Crowd(n)[1..] && ss[2 * n + 1].pending == []
  {
    CrowdListed(b, acts, ss, n);
    assert StepAt(b, acts, ss, 2 * n);
    assert Crowd(n)[0].addr == 0;
  }

  lemma FirstReturns(b: Build, acts: seq<Action>, ss: seq<Half>, n: nat)
    requires 0 < n < 0x1_0000_0000 && LeaveAndReturn(acts, n) && IsRun(b, acts, ss)
    ensures ss[2 * n + 3].active == Crowd(n)[1..] + [Entry(0, 0, 2 * n + 2)]
  {
    FirstLeaves(b, acts, ss, n);
    LoginAt(b, acts, ss, 2 * n + 1, 0, 0, 2 * n + 1);
    assert forall i :: 0 <= i < n - 1 ==> Crowd(n)[1..][i].addr == i + 1;
  }

  // ---------- What the client makes of it ----------

  /** The numbers 0 up to the page size: one server more than a page holds. */
  function OverfullList(b: Build): (l: seq<UInt32>)
    ensures |l| == PageMax(b) + 1
  {
    seq(PageMax(b) + 1, i requires 0 <= i < PageMax(b) + 1 => i)
  }

  /** Two requests: the first meets an overfull list, the second the list `l` that came of it. */
  lemma TwoRequests(b: Build, l: seq<UInt32>) returns (ls: seq<seq<UInt32>>, cs: seq<Client>)
    requires PageMax(b) <= |l| <= PageMax(b) + 1
    ensures ls == [OverfullList(b), l] && IsSession(b, ls, cs)
    ensures cs[2].got == OverfullList(b)[..PageMax(b)] + l[PageMax(b)..]
    ensures |l| == PageMax(b) ==> cs[2].Done()
  {
    var m := PageMax(b);
    ls := [OverfullList(b), l];
    var c1 := Absorb(START, ReplyTo(b, ls[0], 0));
    assert c1 == Client(m, m + 1, ls[0][..m]);
    assert l[m..m + Min(m, |l| - m)] == l[m..];
    var c2 := Absorb(c1, ReplyTo(b, l, m));
    cs := [START, c1, c2];
    assert RequestAt(b, ls, cs, 0) && RequestAt(b, ls, cs, 1);
  }

  /** Two requests in states of a run that show the lists of `TwoRequests`. */
  lemma TwoRequestsInRun(b: Build, acts: seq<Action>, ss: seq<Half>, r: seq<nat>, l: seq<UInt32>)
    returns (cs: seq<Client>)
    requires IsRun(b, acts, ss) && |r| == 2 && r[0] <= r[1] < |ss|
    requires Addresses(ss[r[0]].active) == OverfullList(b) && Addresses(ss[r[1]].active) == l
    requires PageMax(b) <= |l| <= PageMax(b) + 1
    ensures SessionInRun(b, acts, ss, r, cs)
    ensures cs[2].got == OverfullList(b)[..PageMax(b)] + l[PageMax(b)..]
    ensures |l| == PageMax(b) ==> cs[2].Done()
  {
    var ls;
    ls, cs := TwoRequests(b, l);
    assert ListsAt(ss, r) == ls;
  }

  lemma CrowdAddresses(b: Build)
    ensures Addresses(Crowd(PageMax(b) + 1)) == OverfullList(b)
    ensures Addresses(Crowd(PageMax(b) + 1)[1..]) == OverfullList(b)[1..]
    ensures forall e :: Addresses(Crowd(PageMax(b) + 1)[1..] + [e]) == OverfullList(b)[1..] + [e.addr]
  {
    var l := Crowd(PageMax(b) + 1);
    forall e
      ensures Addresses(l[1..] + [e]) == OverfullList(b)[1..] + [e.addr]
    {
      assert |Addresses(l[1..] + [e])| == |OverfullList(b)[1..] + [e.addr]|;
    }
  }

  lemma LastStaysListed(ss: seq<Half>, r: seq<nat>, n: nat)
    requires 1 < n < 0x1_0000_0000 && |r| == 2 && r[1] == r[0] + 1 < |ss|
    requires ss[r[0]].active == Crowd(n) && ss[r[1]].active == Crowd(n)[1..]
    ensures ListedDuring(ss, r, n - 1)
  {
    assert Crowd(n)[n - 1].addr == n - 1 && Crowd(n)[1..][n - 2].addr == n - 1;
  }

  /** If the first server leaves between two requests, the last one is listed in every state of the
      session, and the session ends without it. */
  lemma RemovalHidesServer(b: Build)
    returns (acts: seq<Action>, ss: seq<Half>, r: seq<nat>, cs: seq<Client>, a: UInt32)
    ensures SessionInRun(b, acts, ss, r, cs) && Clocked(acts)
    ensures ListedDuring(ss, r, a) && cs[|r|].Done() && a !in cs[|r|].got
  {
    a := PageMax(b);
    var n := PageMax(b) + 1;
    acts, ss := LeaveAndReturnRun(b, n);
    TickingClocked(acts);
    FirstLeaves(b, acts, ss, n);
    CrowdAddresses(b);
    r := [2 * n, 2 * n + 1];
    LastStaysListed(ss, r, n);
    cs := TwoRequestsInRun(b, acts, ss, r, OverfullList(b)[1..]);
    assert cs[2].got == OverfullList(b)[..PageMax(b)];
  }

  lemma ZeroAtBothEnds(b: Build, l: seq<UInt32>, got: seq<UInt32>)
    requires l == OverfullList(b)[1..] + [0] && got == OverfullList(b)[..PageMax(b)] + l[PageMax(b)..]
    ensures multiset(got)[0] >= 2
  {
    var m := PageMax(b);
    assert got == [0] + OverfullList(b)[1..m] + [0];
  }

  /** If the first server leaves and registers again between two requests, it is reported twice. */
  lemma RelistingRepeatsServer(b: Build)
    returns (acts: seq<Action>, ss: seq<Half>, r: seq<nat>, cs: seq<Client>, a: UInt32)
    ensures SessionInRun(b, acts, ss, r, cs) && Clocked(acts)
    ensures multiset(cs[|r|].got)[a] >= 2
  {
    a := 0;
    var n := PageMax(b) + 1;
    acts, ss := LeaveAndReturnRun(b, n);
    TickingClocked(acts);
    FirstLeaves(b, acts, ss, n);
    FirstReturns(b, acts, ss, n);
    CrowdAddresses(b);
    r := [2 * n, 2 * n + 3];
    var l := OverfullList(b)[1..] + [0];
    cs := TwoRequestsInRun(b, acts, ss, r, l);
    ZeroAtBothEnds(b, l, cs[2].got);
  }

  // ---------- Two servers leave ----------

  ghost predicate TwoLeave(acts: seq<Action>, n: nat)
    requires n < 0x1_0000_0000
  {
    && |acts| == 2 * n + 2 && Registers(acts, n) && Ticking(acts)
    && acts[2 * n] == Terminate(0, 2 * n) && acts[2 * n + 1] == Terminate(1, 2 * n + 1)
  }

  lemma TwoLeaveRun(b: Build, n: nat) returns (acts: seq<Action>, ss: seq<Half>)
    requires n < 0x1_0000_0000
    ensures TwoLeave(acts, n) && IsRun(b, acts, ss)
  {
    var front := CrowdRegisters(n);
    acts := front + [Terminate(0, 2 * n), Terminate(1, 2 * n + 1)];
    ss := RunExists(b, acts);
  }

  lemma TwoFewer(b: Build, acts: seq<Action>, ss: seq<Half>, n: nat)
    requires 1 < n < 0x1_0000_0000 && TwoLeave(acts, n) && IsRun(b, acts, ss)
    ensures ss[2 * n].active == Crowd(n) && |ss[2 * n + 2].active| == n - 2
  {
    CrowdListed(b, acts, ss, n);
    assert StepAt(b, acts, ss, 2 * n) && StepAt(b, acts, ss, 2 * n + 1);
    assert Crowd(n)[0].addr == 0;
    assert Crowd(n)[1..][0].addr == 1;
  }

  /** If two servers leave between two requests, the second request points behind the end. */
  lemma RemovalsLeaveOffsetBehind(b: Build)
    returns (acts: seq<Action>, ss: seq<Half>, r: seq<nat>, cs: seq<Client>)
    ensures RequestsInRun(b, acts, ss, r) && Clocked(acts) && |r| == 2
    ensures IsExchange(b, ListsAt(ss, r), cs) && cs[1].from > |ListsAt(ss, r)[1]|
  {
    var n := PageMax(b) + 1;
    acts, ss := TwoLeaveRun(b, n);
    TickingClocked(acts);
    TwoFewer(b, acts, ss, n);
    CrowdAddresses(b);
    r := [2 * n, 2 * n + 2];
    var c1 := Absorb(START, ReplyTo(b, OverfullList(b), 0));
    cs := [START, c1, c1];
    var ls := ListsAt(ss, r);
    assert ls[0] == OverfullList(b) && |ls[1]| == PageMax(b) - 1;
    assert c1 == Client(PageMax(b), PageMax(b) + 1, OverfullList(b)[..PageMax(b)]);
    assert SentAt(b, ls, cs, 0) && SentAt(b, ls, cs, 1);
  }
}
