/**
 The list of active servers is handed out page by page, while it may change between two
 requests.  The client keeps an offset and stops on the first reply that announces no servers.
 */
module Paging {
  import opened Wire
  import opened Messages
  import opened Registry
  import opened Lists
  import opened Listing

  datatype Reply = Reply(total: UInt32, page: seq<UInt32>)

  function Min(x: nat, y: nat): nat {
    if x < y then x else y
  }

  /** The answer to a list request: nothing at the end of the list, otherwise the size of the
      list and the next addresses. */
  function ReplyTo(b: Build, l: seq<UInt32>, from: nat): Reply
    requires from <= |l|
  {
    if from == |l| then Reply(0, [])
    else Reply(ToUInt32(|l|), l[from..from + Min(PageMax(b), |l| - from)])
  }

  /** The client's loop variables. */
  datatype Client = Client(from: UInt32, total: UInt32, got: seq<UInt32>)
  {
    predicate Done() {
      from > total || total == 0
    }
  }

  const START := Client(0, 1, [])

  function Absorb(c: Client, r: Reply): Client {
    Client(ToUInt32(c.from + |r.page|), r.total, c.got + r.page)
  }

  /** Request `k` is sent only while the client is not done, and meets the list `ls[k]`. */
  ghost predicate RequestAt(b: Build, ls: seq<seq<UInt32>>, cs: seq<Client>, k: nat)
    requires k < |ls| && |cs| == |ls| + 1
  {
    && !cs[k].Done()
    && cs[k].from <= |ls[k]| < 0x1_0000_0000
    && cs[k + 1] == Absorb(cs[k], ReplyTo(b, ls[k], cs[k].from))
  }

  /** `cs` are the states of a client whose requests meet the lists `ls`. */
  ghost predicate IsSession(b: Build, ls: seq<seq<UInt32>>, cs: seq<Client>) {
    && |cs| == |ls| + 1
    && cs[0] == START
    && forall k :: 0 <= k < |ls| ==> RequestAt(b, ls, cs, k)
  }

  lemma SessionExtends(b: Build, ls: seq<seq<UInt32>>, cs: seq<Client>, l: seq<UInt32>)
    requires IsSession(b, ls, cs) && !cs[|ls|].Done() && cs[|ls|].from <= |l| < 0x1_0000_0000
    ensures IsSession(b, ls + [l], cs + [Absorb(cs[|ls|], ReplyTo(b, l, cs[|ls|].from))])
  {
    var ls', cs' := ls + [l], cs + [Absorb(cs[|ls|], ReplyTo(b, l, cs[|ls|].from))];
    forall k | 0 <= k < |ls'|
      ensures RequestAt(b, ls', cs', k)
    {
      assert k < |ls| ==> RequestAt(b, ls, cs, k);
    }
  }

  /** The page of reply `k` is the slice of the list between two offsets. */
  lemma PageSlice(b: Build, ls: seq<seq<UInt32>>, cs: seq<Client>, k: nat)
    requires IsSession(b, ls, cs) && k < |ls|
    ensures !cs[k].Done() && cs[k].from <= cs[k + 1].from <= |ls[k]|
    ensures cs[k + 1].got == cs[k].got + ls[k][cs[k].from..cs[k + 1].from]
    ensures cs[k + 1].Done() <==> cs[k].from == |ls[k]|
    ensures cs[k + 1].Done() <==> cs[k + 1].total == 0
    ensures cs[k + 1].from == cs[k].from + Min(PageMax(b), |ls[k]| - cs[k].from)
  {
    assert RequestAt(b, ls, cs, k);
  }

  lemma {:induction false} OffsetsGrow(b: Build, ls: seq<seq<UInt32>>, cs: seq<Client>, i: nat, j: nat)
    requires IsSession(b, ls, cs) && i <= j <= |ls|
    ensures cs[i].from <= cs[j].from
  {
    if i == j {
    } else {
      OffsetsGrow(b, ls, cs, i, j - 1);
      PageSlice(b, ls, cs, j - 1);
    }
  }

  // ---------- A list that only grows ----------

  /** Request `k` as it is sent, whether or not its offset lies in the list.  Behind the end of the
      list nothing is known of the answer. */
  ghost predicate SentAt(b: Build, ls: seq<seq<UInt32>>, cs: seq<Client>, k: nat)
    requires k < |ls| && |cs| == |ls| + 1
  {
    && !cs[k].Done()
    && |ls[k]| < 0x1_0000_0000
    && (cs[k].from <= |ls[k]| ==> cs[k + 1] == Absorb(cs[k], ReplyTo(b, ls[k], cs[k].from)))
  }

  ghost predicate IsExchange(b: Build, ls: seq<seq<UInt32>>, cs: seq<Client>) {
    && |cs| == |ls| + 1
    && cs[0] == START
    && forall k :: 0 <= k < |ls| ==> SentAt(b, ls, cs, k)
  }

  /** How many servers stand behind the page that starts at `from`. */
  function Behind(b: Build, l: seq<UInt32>, from: nat): nat
    requires from <= |l|
  {
    |l| - from - Min(PageMax(b), |l| - from)
  }

  /** After request `k`, more servers left the list than there were behind the page it fetched. */
  ghost predicate ShrinksPast(b: Build, ls: seq<seq<UInt32>>, cs: seq<Client>, k: nat)
    requires k + 1 < |ls| && |cs| == |ls| + 1
  {
    cs[k].from <= |ls[k]| && |ls[k]| - |ls[k + 1]| > Behind(b, ls[k], cs[k].from)
  }

  /** The request after one that was in range points behind the end exactly when the list shrank by
      more than what was still to be fetched. */
  lemma NextOutOfRangeIff(b: Build, ls: seq<seq<UInt32>>, cs: seq<Client>, k: nat)
    requires IsExchange(b, ls, cs) && k + 1 < |ls| && cs[k].from <= |ls[k]|
    ensures cs[k + 1].from > |ls[k + 1]| <==> ShrinksPast(b, ls, cs, k)
  {
    assert SentAt(b, ls, cs, k);
  }

  lemma {:induction false} OffsetInRange(b: Build, ls: seq<seq<UInt32>>, cs: seq<Client>, k: nat)
    requires IsExchange(b, ls, cs) && k < |ls|
    requires forall i :: 0 <= i < |ls| - 1 ==> !ShrinksPast(b, ls, cs, i)
    ensures cs[k].from <= |ls[k]|
  {
    if k == 0 {
    } else {
      OffsetInRange(b, ls, cs, k - 1);
      NextOutOfRangeIff(b, ls, cs, k - 1);
    }
  }

  /** Whatever happens to the list, all requests of the client point into it if and only if it never
      shrinks, between two requests, by more than what was still to be fetched. */
  lemma InRangeIff(b: Build, ls: seq<seq<UInt32>>, cs: seq<Client>)
    requires IsExchange(b, ls, cs)
    ensures IsSession(b, ls, cs) <==> forall k :: 0 <= k < |ls| - 1 ==> !ShrinksPast(b, ls, cs, k)
  {
    if forall k :: 0 <= k < |ls| - 1 ==> !ShrinksPast(b, ls, cs, k) {
      forall k | 0 <= k < |ls|
        ensures RequestAt(b, ls, cs, k)
      {
        OffsetInRange(b, ls, cs, k);
        assert SentAt(b, ls, cs, k);
      }
    } else {
      var k :| 0 <= k < |ls| - 1 && ShrinksPast(b, ls, cs, k);
      NextOutOfRangeIff(b, ls, cs, k);
      assert IsSession(b, ls, cs) ==> RequestAt(b, ls, cs, k + 1);
    }
  }

  ghost predicate Growing(ls: seq<seq<UInt32>>) {
    forall i :: 0 <= i < |ls| - 1 ==> ls[i] <= ls[i + 1]
  }

  /** While the list only grows, no request ever points behind its end. */
  lemma GrowingListIsInRange(b: Build, ls: seq<seq<UInt32>>, cs: seq<Client>)
    requires IsExchange(b, ls, cs) && Growing(ls)
    ensures IsSession(b, ls, cs)
  {
    forall k | 0 <= k < |ls| - 1
      ensures !ShrinksPast(b, ls, cs, k)
    {
      assert ls[k] <= ls[k + 1];
    }
    InRangeIff(b, ls, cs);
  }

  lemma {:induction false} CollectsPrefix(b: Build, ls: seq<seq<UInt32>>, cs: seq<Client>, k: nat)
    requires IsSession(b, ls, cs) && Growing(ls) && k < |ls|
    ensures cs[k + 1].from <= |ls[k]| && cs[k + 1].got == ls[k][..cs[k + 1].from]
    ensures cs[k + 1].Done() ==> cs[k + 1].got == ls[k]
  {
    PageSlice(b, ls, cs, k);
    if k == 0 {
    } else {
      CollectsPrefix(b, ls, cs, k - 1);
      assert ls[k - 1] <= ls[k];
      assert cs[k].got == ls[k][..cs[k].from];
    }
    assert ls[k][..cs[k + 1].from] == ls[k][..cs[k].from] + ls[k][cs[k].from..cs[k + 1].from];
  }

  /** While the list only grows at its end, every request points into it and the client has at all
      times collected a prefix of it; when the client stops, it has the whole list as it was at the
      last reply. */
  lemma GrowingListIsComplete(b: Build, ls: seq<seq<UInt32>>, cs: seq<Client>, k: nat)
    requires IsExchange(b, ls, cs) && Growing(ls) && k < |ls|
    ensures cs[k].from <= cs[k + 1].from <= |ls[k]| && cs[k + 1].got == ls[k][..cs[k + 1].from]
    ensures cs[k + 1].Done() ==> cs[k + 1].got == ls[k]
  {
    GrowingListIsInRange(b, ls, cs);
    PageSlice(b, ls, cs, k);
    CollectsPrefix(b, ls, cs, k);
  }

  // ---------- The number of requests ----------

  /** A list that is the same at every request. */
  function Fixed(l: seq<UInt32>, n: nat): (ls: seq<seq<UInt32>>)
    ensures |ls| == n && forall i :: 0 <= i < n ==> ls[i] == l
  {
    seq(n, _ => l)
  }

  /** ceil(n / PageMax) */
  function FullPages(b: Build, n: nat): nat {
    (n + PageMax(b) - 1) / PageMax(b)
  }

  lemma OnePageLess(b: Build, n: nat)
    ensures FullPages(b, n) == if n == 0 then 0 else 1 + FullPages(b, n - Min(PageMax(b), n))
  {
    var m := PageMax(b);
    assert m == 139 || m == 5;
    if n <= m {
      assert n > 0 ==> m <= n + m - 1 < 2 * m;
    } else {
      assert n + m - 1 == m + (n - m + m - 1);
    }
  }

  lemma {:induction false} RequestsLeft(b: Build, ls: seq<seq<UInt32>>, cs: seq<Client>, l: seq<UInt32>, k: nat)
    requires IsSession(b, ls, cs) && k <= |ls|
    requires forall i :: 0 <= i < |ls| ==> ls[i] == l
    ensures cs[k].from <= |l|
    ensures if cs[k].Done() then k == FullPages(b, |l|) + 1 else k + FullPages(b, |l| - cs[k].from) == FullPages(b, |l|)
  {
    if k == 0 {
    } else {
      RequestsLeft(b, ls, cs, l, k - 1);
      PageSlice(b, ls, cs, k - 1);
      OnePageLess(b, |l| - cs[k - 1].from);
    }
  }

  /** Against a fixed list the client stops after exactly ceil(n / PageMax) + 1 requests: the last
      one asks for the page behind the end, also when the list is empty or fills its pages. */
  lemma ExactCost(b: Build, ls: seq<seq<UInt32>>, cs: seq<Client>, l: seq<UInt32>)
    requires IsSession(b, ls, cs)
    requires forall i :: 0 <= i < |ls| ==> ls[i] == l
    ensures |ls| <= FullPages(b, |l|) + 1
    ensures cs[|ls|].Done() <==> |ls| == FullPages(b, |l|) + 1
  {
    RequestsLeft(b, ls, cs, l, |ls|);
  }

  lemma OnePageFurther(b: Build, n: nat, k: nat)
    requires k > 0
    ensures var from := Min((k - 1) * PageMax(b), n);
            from + Min(PageMax(b), n - from) == Min(k * PageMax(b), n)
  {
    assert k * PageMax(b) == (k - 1) * PageMax(b) + PageMax(b);
  }

  /** Against a fixed list the offsets go up page by page. */
  lemma {:induction false} OffsetsOfFixed(b: Build, ls: seq<seq<UInt32>>, cs: seq<Client>, l: seq<UInt32>, k: nat)
    requires IsSession(b, ls, cs) && k <= |ls|
    requires forall i :: 0 <= i < |ls| ==> ls[i] == l
    ensures cs[k].from == Min(k * PageMax(b), |l|)
  {
    if k == 0 {
    } else {
      OffsetsOfFixed(b, ls, cs, l, k - 1);
      PageSlice(b, ls, cs, k - 1);
      OnePageFurther(b, |l|, k);
    }
  }

  // ---------- A list that changes in any way ----------

  ghost function ListsAt(ss: seq<Half>, r: seq<nat>): (ls: seq<seq<UInt32>>)
    requires forall k :: 0 <= k < |r| ==> r[k] < |ss|
    ensures |ls| == |r|
  {
    seq(|r|, k requires 0 <= k < |r| => Addresses(ss[r[k]].active))
  }

  /** Requests inside a run: request `k` is handled in state `r[k]`, and anything may happen to the
      registry between two requests. */
  ghost predicate RequestsInRun(b: Build, acts: seq<Action>, ss: seq<Half>, r: seq<nat>) {
    && IsRun(b, acts, ss)
    && (forall k :: 0 <= k < |r| ==> r[k] < |ss|)
    && (forall i, j :: 0 <= i <= j < |r| ==> r[i] <= r[j])
  }

  ghost predicate SessionInRun(b: Build, acts: seq<Action>, ss: seq<Half>, r: seq<nat>, cs: seq<Client>) {
    RequestsInRun(b, acts, ss, r) && IsSession(b, ListsAt(ss, r), cs)
  }

  /** The position of `a` in the list that request `k` meets. */
  ghost function PositionAt(ss: seq<Half>, r: seq<nat>, a: UInt32, k: nat): nat
    requires k < |r| && r[k] < |ss|
  {
    FirstByAddress(ss[r[k]].active, a)
  }

  ghost predicate ListedDuring(ss: seq<Half>, r: seq<nat>, a: UInt32)
    requires forall k :: 0 <= k < |r| ==> r[k] < |ss|
  {
    forall i, j :: 0 <= i <= j < |r| ==> ListedThroughout(ss, r[i], r[j], a)
  }

  lemma PositionsShrink(b: Build, acts: seq<Action>, ss: seq<Half>, r: seq<nat>, cs: seq<Client>, a: UInt32,
                        i: nat, j: nat)
    requires SessionInRun(b, acts, ss, r, cs) && ListedDuring(ss, r, a) && i <= j < |r|
    ensures PositionAt(ss, r, a, j) <= PositionAt(ss, r, a, i) < |ListsAt(ss, r)[i]|
  {
    assert ListedThroughout(ss, r[i], r[j], a);
    assert Lookup(ss[r[i]].active, a).Some?;
    PositionNeverGrows(b, acts, ss, r[i], r[j], a);
  }

  /** When request `k` comes, `a` is listed, at a position between the two offsets. */
  ghost predicate Reported(ss: seq<Half>, r: seq<nat>, cs: seq<Client>, a: UInt32, k: nat)
    requires k < |r| && k + 1 < |cs| && r[k] < |ss|
  {
    Lookup(ss[r[k]].active, a).Some? && cs[k].from <= PositionAt(ss, r, a, k) < cs[k + 1].from
  }

  /** Page `k` holds `a` once if it is reported there, and otherwise not at all. */
  lemma InPage(b: Build, acts: seq<Action>, ss: seq<Half>, r: seq<nat>, cs: seq<Client>, a: UInt32, k: nat)
    requires SessionInRun(b, acts, ss, r, cs) && k < |r|
    ensures cs[k].from <= cs[k + 1].from <= |ListsAt(ss, r)[k]|
    ensures var page := ListsAt(ss, r)[k][cs[k].from..cs[k + 1].from];
            multiset(page)[a] == if Reported(ss, r, cs, a, k) then 1 else 0
  {
    var l := ListsAt(ss, r)[k];
    PageSlice(b, ListsAt(ss, r), cs, k);
    if Lookup(ss[r[k]].active, a).Some? {
      AddressesDistinct(b, acts, ss, r[k]);
      OccursOnce(l, PositionAt(ss, r, a, k), cs[k].from, cs[k + 1].from);
    } else {
      NeverOccurs(l[cs[k].from..cs[k + 1].from], a);
    }
  }

  lemma NeverOccurs(s: seq<UInt32>, a: UInt32)
    requires forall i :: 0 <= i < |s| ==> s[i] != a
    ensures multiset(s)[a] == 0
  {
    assert a !in s;
  }

  lemma OccursOnce(l: seq<UInt32>, p: nat, from: nat, to: nat)
    requires p < |l| && from <= to <= |l|
    requires forall i :: 0 <= i < |l| && i != p ==> l[i] != l[p]
    ensures multiset(l[from..to])[l[p]] == if from <= p < to then 1 else 0
  {
    if from <= p < to {
      NeverOccurs(l[from..p], l[p]);
      NeverOccurs(l[p + 1..to], l[p]);
      assert l[from..to] == l[from..p] + [l[p]] + l[p + 1..to];
    } else {
      NeverOccurs(l[from..to], l[p]);
    }
  }

  /** What the client holds after `k + 1` requests, seen from one address. */
  lemma OneMorePage(b: Build, acts: seq<Action>, ss: seq<Half>, r: seq<nat>, cs: seq<Client>, a: UInt32, k: nat)
    requires SessionInRun(b, acts, ss, r, cs) && k < |r|
    ensures multiset(cs[k + 1].got)[a] == multiset(cs[k].got)[a] + if Reported(ss, r, cs, a, k) then 1 else 0
  {
    PageSlice(b, ListsAt(ss, r), cs, k);
    InPage(b, acts, ss, r, cs, a, k);
  }

  // ---------- Servers reported twice ----------

  /** A server in two pages was off the list at some time between the two requests. */
  lemma TwoPagesMeanUnlisted(b: Build, acts: seq<Action>, ss: seq<Half>, r: seq<nat>, cs: seq<Client>, a: UInt32,
                             i: nat, j: nat) returns (k: nat)
    requires SessionInRun(b, acts, ss, r, cs) && i < j < |r|
    requires Reported(ss, r, cs, a, i) && Reported(ss, r, cs, a, j)
    ensures r[i] < k < r[j] && Lookup(ss[k].active, a).None?
  {
    if ListedThroughout(ss, r[i], r[j], a) {
      PositionNeverGrows(b, acts, ss, r[i], r[j], a);
      OffsetsGrow(b, ListsAt(ss, r), cs, i + 1, j);
      assert false;
    } else {
      k :| r[i] <= k <= r[j] && Lookup(ss[k].active, a).None?;
    }
  }

  /** Request `i` reports `a`; later `a` is off the list; and when request `j` comes it is back, at
      a position between the client's two offsets. */
  ghost predicate Relisted(ss: seq<Half>, r: seq<nat>, cs: seq<Client>, a: UInt32, i: nat, j: nat)
    requires |cs| == |r| + 1 && forall k :: 0 <= k < |r| ==> r[k] < |ss|
  {
    && i < j < |r|
    && Reported(ss, r, cs, a, i)
    && (exists k :: r[i] < k < r[j] && Lookup(ss[k].active, a).None?)
    && Reported(ss, r, cs, a, j)
  }

  lemma {:induction false} ReportedSomewhere(b: Build, acts: seq<Action>, ss: seq<Half>, r: seq<nat>,
                                             cs: seq<Client>, a: UInt32, n: nat)
    requires SessionInRun(b, acts, ss, r, cs) && n <= |r|
    ensures a in cs[n].got <==> exists i :: 0 <= i < n && Reported(ss, r, cs, a, i)
  {
    if n == 0 {
    } else {
      ReportedSomewhere(b, acts, ss, r, cs, a, n - 1);
      OneMorePage(b, acts, ss, r, cs, a, n - 1);
    }
  }

  lemma {:induction false} RepeatedSoFar(b: Build, acts: seq<Action>, ss: seq<Half>, r: seq<nat>,
                                         cs: seq<Client>, a: UInt32, n: nat)
    requires SessionInRun(b, acts, ss, r, cs) && n <= |r|
    ensures multiset(cs[n].got)[a] >= 2 <==> exists i: nat, j: nat :: j < n && Relisted(ss, r, cs, a, i, j)
  {
    if n == 0 {
    } else {
      var j := n - 1;
      RepeatedSoFar(b, acts, ss, r, cs, a, j);
      OneMorePage(b, acts, ss, r, cs, a, j);
      ReportedSomewhere(b, acts, ss, r, cs, a, j);
      if Reported(ss, r, cs, a, j) && a in cs[j].got {
        var i :| 0 <= i < j && Reported(ss, r, cs, a, i);
        var k := TwoPagesMeanUnlisted(b, acts, ss, r, cs, a, i, j);
        assert Relisted(ss, r, cs, a, i, j);
      }
    }
  }

  /** Whatever registrations, refreshes, terminations and reap passes come between the requests, an
      address is reported more than once exactly when it was reported, left the list, and came back
      to a place that a later page covers. */
  lemma RepeatedIffRelisted(b: Build, acts: seq<Action>, ss: seq<Half>, r: seq<nat>, cs: seq<Client>, a: UInt32)
    requires SessionInRun(b, acts, ss, r, cs)
    ensures multiset(cs[|r|].got)[a] >= 2 <==> exists i: nat, j: nat :: Relisted(ss, r, cs, a, i, j)
  {
    RepeatedSoFar(b, acts, ss, r, cs, a, |r|);
  }

  /** In particular a server that is listed throughout is never reported twice. */
  lemma NoDuplicateReports(b: Build, acts: seq<Action>, ss: seq<Half>, r: seq<nat>, cs: seq<Client>, a: UInt32)
    requires SessionInRun(b, acts, ss, r, cs) && ListedDuring(ss, r, a)
    ensures multiset(cs[|r|].got)[a] <= 1
  {
    RepeatedIffRelisted(b, acts, ss, r, cs, a);
    forall i: nat, j: nat
      ensures !Relisted(ss, r, cs, a, i, j)
    {
      if i < j < |r| {
        assert ListedThroughout(ss, r[i], r[j], a);
      }
    }
  }

  // ---------- Servers missed ----------

  /** Between requests `k` and `k + 1`, removals of earlier servers moved `a` from behind the
      client's offset to before it. */
  ghost predicate Overtaken(ss: seq<Half>, r: seq<nat>, cs: seq<Client>, a: UInt32, k: nat)
    requires k + 1 < |r| && |cs| == |r| + 1 && forall i :: 0 <= i < |r| ==> r[i] < |ss|
  {
    PositionAt(ss, r, a, k + 1) < cs[k + 1].from <= PositionAt(ss, r, a, k)
  }

  /** An overtaken server is in no page at all. */
  lemma {:induction false} OvertakenIsMissed(b: Build, acts: seq<Action>, ss: seq<Half>, r: seq<nat>,
                                             cs: seq<Client>, a: UInt32, k: nat, n: nat)
    requires SessionInRun(b, acts, ss, r, cs) && ListedDuring(ss, r, a)
    requires k + 1 < |r| && n <= |r| && Overtaken(ss, r, cs, a, k)
    ensures a !in cs[n].got
  {
    if n == 0 {
    } else {
      var j := n - 1;
      OvertakenIsMissed(b, acts, ss, r, cs, a, k, j);
      PageSlice(b, ListsAt(ss, r), cs, j);
      InPage(b, acts, ss, r, cs, a, j);
      if j <= k {
        PositionsShrink(b, acts, ss, r, cs, a, j, k);
        OffsetsGrow(b, ListsAt(ss, r), cs, j + 1, k + 1);
      } else {
        PositionsShrink(b, acts, ss, r, cs, a, k + 1, j);
        OffsetsGrow(b, ListsAt(ss, r), cs, k + 1, j);
      }
      assert a !in ListsAt(ss, r)[j][cs[j].from..cs[j + 1].from];
    }
  }

  /** If the offset has passed an unreported server, some removal moved it past the offset. */
  lemma {:induction false} PassedMeansOvertaken(b: Build, acts: seq<Action>, ss: seq<Half>, r: seq<nat>,
                                                cs: seq<Client>, a: UInt32, n: nat)
    requires SessionInRun(b, acts, ss, r, cs) && ListedDuring(ss, r, a)
    requires n < |r| && PositionAt(ss, r, a, n) < cs[n].from && a !in cs[n].got
    ensures exists k :: 0 <= k < n && Overtaken(ss, r, cs, a, k)
  {
    if n == 0 {
    } else {
      var k := n - 1;
      PageSlice(b, ListsAt(ss, r), cs, k);
      InPage(b, acts, ss, r, cs, a, k);
      if PositionAt(ss, r, a, k) < cs[k].from {
        PassedMeansOvertaken(b, acts, ss, r, cs, a, k);
      } else if cs[k + 1].from <= PositionAt(ss, r, a, k) {
        assert Overtaken(ss, r, cs, a, k);
      }
    }
  }

  /** Over a finished session, a server listed throughout is reported exactly once, or it is
      missed; and it is missed exactly when removals moved it past the client's offset between
      two requests. */
  lemma MissedIffOvertaken(b: Build, acts: seq<Action>, ss: seq<Half>, r: seq<nat>, cs: seq<Client>, a: UInt32)
    requires SessionInRun(b, acts, ss, r, cs) && ListedDuring(ss, r, a) && cs[|r|].Done()
    ensures multiset(cs[|r|].got)[a] ==
              if exists k :: 0 <= k < |r| - 1 && Overtaken(ss, r, cs, a, k) then 0 else 1
  {
    assert |r| > 0;
    var n := |r| - 1;
    PageSlice(b, ListsAt(ss, r), cs, n);
    PositionsShrink(b, acts, ss, r, cs, a, n, n);
    NoDuplicateReports(b, acts, ss, r, cs, a);
    if a in cs[|r|].got {
      forall k | 0 <= k < |r| - 1
        ensures !Overtaken(ss, r, cs, a, k)
      {
        if Overtaken(ss, r, cs, a, k) {
          OvertakenIsMissed(b, acts, ss, r, cs, a, k, |r|);
        }
      }
    } else {
      PassedMeansOvertaken(b, acts, ss, r, cs, a, n);
    }
  }

  /** While the run takes nobody off the list, the lists that the requests meet only grow, so no
      request points behind the end, the session collects prefixes and it ends with the whole list. */
  lemma SparedSessionIsComplete(b: Build, acts: seq<Action>, ss: seq<Half>, r: seq<nat>, cs: seq<Client>)
    requires RequestsInRun(b, acts, ss, r) && IsExchange(b, ListsAt(ss, r), cs) && |r| > 0
    requires forall k :: r[0] <= k < r[|r| - 1] ==> Spares(b, ss[k], acts[k])
    ensures SessionInRun(b, acts, ss, r, cs)
    ensures cs[|r|].got <= ListsAt(ss, r)[|r| - 1]
    ensures cs[|r|].Done() ==> cs[|r|].got == ListsAt(ss, r)[|r| - 1]
  {
    var ls := ListsAt(ss, r);
    forall i | 0 <= i < |ls| - 1
      ensures ls[i] <= ls[i + 1]
    {
      Growth(b, acts, ss, r[i], r[i + 1]);
    }
    GrowingListIsInRange(b, ls, cs);
    GrowingListIsComplete(b, ls, cs, |r| - 1);
  }
}
