/**
 The test client's paging loop and the metaserver object, wired to each other: every request of
 the loop is handled as a datagram, and what the metaserver sends is the next reply.
 */
module TwoParty {
  import opened Wire
  import opened NetMessage
  import opened Messages
  import opened Registry
  import opened Paging
  import opened Histories
  import opened Dispatch
  import opened MetaserverProcess
  import opened TestPrograms

  /** So far every reply is a page of the list `l`, cut at the client's offset. */
  ghost predicate Conversation(b: Build, l: seq<UInt32>, replies: seq<seq<Byte>>, requests: seq<seq<Byte>>,
                               cs: seq<Client>, taken: nat)
  {
    && taken == |replies| <= |requests| && |cs| == taken + 1 && cs[0] == START
    && (forall k :: 0 <= k < taken ==> TurnAt(replies, requests, cs, k))
    && (forall k :: 0 <= k < taken && cs[k].from <= |l| ==> Answered(b, l, replies[k], cs[k].from))
  }

  /** A client that takes in the same replies goes through the same states. */
  lemma {:induction false} SameStates(replies: seq<seq<Byte>>, requests: seq<seq<Byte>>, cs: seq<Client>,
                                      replies': seq<seq<Byte>>, requests': seq<seq<Byte>>, cs': seq<Client>, k: nat)
    requires k <= |replies| && k <= |replies'| && k <= |requests| && k <= |requests'| && k < |cs| && k < |cs'|
    requires cs[0] == cs'[0] && forall i :: 0 <= i < k ==> replies[i] == replies'[i]
    requires forall i :: 0 <= i < k ==> TurnAt(replies, requests, cs, i) && TurnAt(replies', requests', cs', i)
    ensures cs[k] == cs'[k]
  {
    if k == 0 {
    } else {
      SameStates(replies, requests, cs, replies', requests', cs', k - 1);
      assert TurnAt(replies, requests, cs, k - 1) && TurnAt(replies', requests', cs', k - 1);
    }
  }

  /** As long as the client is not done it has sent one request more than it got replies, and that
      request points into the list. */
  lemma NextRequest(b: Build, l: seq<UInt32>, replies: seq<seq<Byte>>, requests: seq<seq<Byte>>, cs: seq<Client>,
                    taken: nat)
    requires |l| < 0x1_0000_0000 && Conversation(b, l, replies, requests, cs, taken)
    ensures cs[taken].from <= |l| && taken <= FullPages(b, |l|) + 1
    ensures cs[taken].Done() <==> taken == FullPages(b, |l|) + 1
    ensures cs[taken].Done() ==> cs[taken].got == l
  {
    FixedListSession(b, l, replies, requests, cs, taken);
    FixedListIsFetched(b, l, replies, requests, cs, taken);
  }

  /** With one more page the client, run on all replies, does not stop before it. */
  lemma AllTaken(replies: seq<seq<Byte>>, requests: seq<seq<Byte>>, cs: seq<Client>, all: seq<seq<Byte>>,
                 requests': seq<seq<Byte>>, cs': seq<Client>, taken': nat)
    requires |all| == |replies| + 1 && all[..|replies|] == replies && IsPage(all[|replies|])
    requires |replies| <= |requests| && |cs| == |replies| + 1 && cs[0] == START && !cs[|replies|].Done()
    requires forall k :: 0 <= k < |replies| ==> TurnAt(replies, requests, cs, k)
    requires taken' <= |all| && taken' <= |requests'| && |cs'| == taken' + 1 && cs'[0] == START
    requires forall k :: 0 <= k < taken' ==> TurnAt(all, requests', cs', k)
    requires taken' < |all| && !cs'[taken'].Done() ==> !IsPage(all[taken'])
    ensures taken' == |all|
  {
    forall k | 0 <= k < |replies|
      ensures !cs[k].Done() && IsPage(replies[k]) && all[k] == replies[k]
    {
      assert TurnAt(replies, requests, cs, k) && all[k] == all[..|replies|][k];
    }
    if taken' < |all| {
      SameStates(replies, requests, cs, all, requests', cs', taken');
      assert false;
    }
  }

  lemma OneMoreReply(b: Build, l: seq<UInt32>, replies: seq<seq<Byte>>, requests: seq<seq<Byte>>, cs: seq<Client>,
                     all: seq<seq<Byte>>, requests': seq<seq<Byte>>, cs': seq<Client>)
    requires Conversation(b, l, replies, requests, cs, |replies|)
    requires |all| == |replies| + 1 && all[..|replies|] == replies
    requires cs[|replies|].from <= |l| && Answered(b, l, all[|replies|], cs[|replies|].from)
    requires |all| <= |requests'| && |cs'| == |all| + 1 && cs'[0] == START
    requires forall k :: 0 <= k < |all| ==> TurnAt(all, requests', cs', k)
    ensures Conversation(b, l, all, requests', cs', |all|)
  {
    forall i | 0 <= i < |all| && cs'[i].from <= |l|
      ensures Answered(b, l, all[i], cs'[i].from)
    {
      SameStates(replies, requests, cs, all, requests', cs', i);
      assert i < |replies| ==> all[i] == all[..|replies|][i];
    }
  }

  /** The client has taken in all replies; unless it is done, its last request waits for an answer. */
  ghost predicate UpToDate(b: Build, l: seq<UInt32>, replies: seq<seq<Byte>>, requests: seq<seq<Byte>>,
                           servers: seq<UInt32>, taken: nat, done: bool, cs: seq<Client>)
  {
    && Conversation(b, l, replies, requests, cs, taken)
    && (forall k :: 0 <= k < |replies| ==> Readable(replies[k]))
    && servers == cs[taken].got && done == cs[taken].Done()
    && if done then |requests| == taken else requests[taken..] == [Words([NMT_LISTREQ, cs[taken].from])]
  }

  /** The client's half of one turn.  The loop takes all its replies as a parameter, so it is run again
      from its start, on the replies it had and the one that came now. */
  method TakeReply(host: Host, replies: seq<seq<Byte>>, ghost b: Build, ghost l: seq<UInt32>,
                   ghost requests0: seq<seq<Byte>>, ghost servers0: seq<UInt32>, ghost cs0: seq<Client>)
    returns (requests: seq<seq<Byte>>, servers: seq<UInt32>, taken: nat, done: bool, ghost cs: seq<Client>)
    requires replies != []
    requires var n := |replies| - 1;
             && UpToDate(b, l, replies[..n], requests0, servers0, n, false, cs0)
             && cs0[n].from <= |l| < 0x1_0000_0000 && Answered(b, l, replies[n], cs0[n].from)
    ensures taken == |replies| && UpToDate(b, l, replies, requests, servers, taken, done, cs)
  {
    ghost var n := |replies| - 1;
    PageReadsBack(ReplyTo(b, l, cs0[n].from));
    assert forall k :: 0 <= k < n ==> replies[k] == replies[..n][k];
    requests, servers, taken, done, cs := MetaserverListReq(host, replies);
    AllTaken(replies[..n], requests0, cs0, replies, requests, cs, taken);
    OneMoreReply(b, l, replies[..n], requests0, cs0, replies, requests, cs);
  }

  /** The metaserver's half of one turn. */
  method HandleRequest(metaserver: Metaserver, sender: UInt32, request: seq<Byte>, now: int, random: UInt32,
                       ghost from: UInt32) returns (reply: seq<Byte>)
    requires request == Words([NMT_LISTREQ, from])
    requires from <= |metaserver.mActiveServers| < 0x1_0000_0000
    modifies metaserver
    ensures metaserver.View() == old(metaserver.View())
    ensures metaserver.sent == old(metaserver.sent) + [Outgoing(sender, reply)]
    ensures Answered(metaserver.build, Addresses(metaserver.mActiveServers), reply, from)
  {
    TwoWords(NMT_LISTREQ, from, []);
    assert request + [] == request;
    metaserver.HandleDatagram(sender, request, now, random);
    reply := metaserver.sent[|metaserver.sent| - 1].bytes;
  }

  /** The replies as the metaserver sends them. */
  function Envelopes(sender: UInt32, replies: seq<seq<Byte>>): (out: seq<Outgoing>)
    ensures |out| == |replies|
  {
    seq(|replies|, k requires 0 <= k < |replies| => Outgoing(sender, replies[k]))
  }

  lemma EnvelopesNext(base: seq<Outgoing>, sender: UInt32, replies: seq<seq<Byte>>, reply: seq<Byte>)
    ensures base + Envelopes(sender, replies + [reply]) == base + Envelopes(sender, replies) + [Outgoing(sender, reply)]
  {
    assert Envelopes(sender, replies + [reply]) == Envelopes(sender, replies) + [Outgoing(sender, reply)];
  }

  /** Turn `k` of a client that fetches the list `l`: the request for page `k`, and its answer. */
  ghost predicate PageTurn(b: Build, l: seq<UInt32>, requests: seq<seq<Byte>>, replies: seq<seq<Byte>>, k: nat)
    requires |l| < 0x1_0000_0000 && k < |requests| && k < |replies|
  {
    var from := Min(k * PageMax(b), |l|);
    requests[k] == Words([NMT_LISTREQ, from]) && Answered(b, l, replies[k], from)
  }

  lemma TurnsInOrder(b: Build, l: seq<UInt32>, replies: seq<seq<Byte>>, requests: seq<seq<Byte>>, cs: seq<Client>,
                     taken: nat)
    requires |l| < 0x1_0000_0000 && Conversation(b, l, replies, requests, cs, taken)
    ensures forall k :: 0 <= k < taken ==> PageTurn(b, l, requests, replies, k)
  {
    FixedListSession(b, l, replies, requests, cs, taken);
    forall k | 0 <= k < taken
      ensures PageTurn(b, l, requests, replies, k)
    {
      OffsetsOfFixed(b, Fixed(l, taken), cs[..taken + 1], l, k);
      assert cs[..taken + 1][k] == cs[k];
      assert TurnAt(replies, requests, cs, k);
    }
  }

  /** A client fetches the list of a metaserver at which nothing else happens: it gets every listed
      address once, in list order, for exactly ceil(size / page size) + 1 requests, page by page, each
      of which is answered with its page; and the registry stays as it was. */
  method FetchList(metaserver: Metaserver, host: Host, sender: UInt32, now: nat -> int, random: nat -> UInt32)
    returns (requests: seq<seq<Byte>>, replies: seq<seq<Byte>>, servers: seq<UInt32>)
    requires |metaserver.mActiveServers| < 0x1_0000_0000
    modifies metaserver
    ensures servers == Addresses(old(metaserver.mActiveServers))
    ensures |requests| == |replies| == FullPages(metaserver.build, |servers|) + 1
    ensures forall k :: 0 <= k < |requests| ==> PageTurn(metaserver.build, servers, requests, replies, k)
    ensures metaserver.View() == old(metaserver.View())
    ensures metaserver.sent == old(metaserver.sent) + Envelopes(sender, replies)
  {
    ghost var l := Addresses(metaserver.mActiveServers);
    ghost var cs;
    var taken, done;
    replies := [];
    requests, servers, taken, done, cs := MetaserverListReq(host, replies);
    while !done
      invariant metaserver.View() == old(metaserver.View())
      invariant metaserver.sent == old(metaserver.sent) + Envelopes(sender, replies)
      invariant UpToDate(metaserver.build, l, replies, requests, servers, taken, done, cs)
      decreases FullPages(metaserver.build, |l|) + 1 - taken
    {
      NextRequest(metaserver.build, l, replies, requests, cs, taken);
      var request := requests[taken..][0];
      var reply := HandleRequest(metaserver, sender, request, now(taken), random(taken), cs[taken].from);
      EnvelopesNext(old(metaserver.sent), sender, replies, reply);
      ghost var earlier := replies;
      replies := replies + [reply];
      assert replies[..|earlier|] == earlier;
      requests, servers, taken, done, cs :=
        TakeReply(host, replies, metaserver.build, l, requests, servers, cs);
    }
    NextRequest(metaserver.build, l, replies, requests, cs, taken);
    TurnsInOrder(metaserver.build, l, replies, requests, cs, taken);
  }

  // ---------- A client among everything else that happens ----------

  /** Event `i` of a history is this request from `client`, and the metaserver answers it with this
      reply. */
  ghost predicate Handled(b: Build, es: seq<Event>, xs: seq<State>, i: nat, client: UInt32, request: seq<Byte>,
                          reply: seq<Byte>)
    requires i < |es| && i < |xs|
  {
    && 4 <= |request| < MAX_MSG_LENGTH
    && (exists now: int, random: UInt32 :: es[i] == EventOf(request, client, now, random))
    && InRange(xs[i], es[i])
    && |xs[i].servers.active| < 0x1_0000_0000
    && AnswerTo(b, xs[i], es[i]) == [Outgoing(client, reply)]
  }

  lemma HandledIsAnswered(b: Build, es: seq<Event>, xs: seq<State>, i: nat, client: UInt32, from: UInt32,
                          reply: seq<Byte>)
    requires i < |es| && i < |xs| && Handled(b, es, xs, i, client, Words([NMT_LISTREQ, from]), reply)
    ensures from <= |xs[i].servers.active| < 0x1_0000_0000
    ensures Answered(b, Addresses(xs[i].servers.active), reply, from)
  {
    var request := Words([NMT_LISTREQ, from]);
    var now: int, random: UInt32 :| es[i] == EventOf(request, client, now, random);
    TwoWords(NMT_LISTREQ, from, []);
    assert request + [] == request;
    assert es[i] == ListRequest(client, from, now);
  }

  /** In this history the client's requests, as its loop sends them, are handled one after the other, as
      the events `r`, and the replies it takes in are the metaserver's answers. */
  ghost predicate LoopServed(b: Build, es: seq<Event>, xs: seq<State>, r: seq<nat>, client: UInt32,
                             replies: seq<seq<Byte>>, requests: seq<seq<Byte>>, cs: seq<Client>)
  {
    && IsHistory(b, es, xs)
    && |r| <= |replies| && |r| <= |requests| && |cs| == |r| + 1 && cs[0] == START
    && (forall k :: 0 <= k < |r| ==> r[k] < |es|)
    && (forall i, j :: 0 <= i <= j < |r| ==> r[i] <= r[j])
    && (forall k :: 0 <= k < |r| ==> TurnAt(replies, requests, cs, k))
    && (forall k :: 0 <= k < |r| ==> Handled(b, es, xs, r[k], client, requests[k], replies[k]))
  }

  /** Then the client's states are a session inside the run of the server half. */
  lemma LoopInHistory(b: Build, es: seq<Event>, xs: seq<State>, r: seq<nat>, client: UInt32,
                      replies: seq<seq<Byte>>, requests: seq<seq<Byte>>, cs: seq<Client>)
    requires LoopServed(b, es, xs, r, client, replies, requests, cs)
    ensures SessionInRun(b, Parts(ServerRole, es), Halves(ServerRole, xs), r, cs)
  {
    var ss := Halves(ServerRole, xs);
    HalfIsRun(b, ServerRole, es, xs);
    var ls := ListsAt(ss, r);
    forall k | 0 <= k < |ls|
      ensures Answers(b, ls, replies, cs, k)
    {
      assert TurnAt(replies, requests, cs, k) && Handled(b, es, xs, r[k], client, requests[k], replies[k]);
      HandledIsAnswered(b, es, xs, r[k], client, cs[k].from, replies[k]);
      assert ls[k] == Addresses(xs[r[k]].servers.active);
    }
    LoopIsSession(b, ls, replies, requests, cs);
  }

  /** So whatever else the metaserver handles in between, in bytes: the client has an address more than
      once exactly when it was relisted; an address listed throughout it has at most once; and when it
      is done, exactly once unless removals moved it past the client's offset. */
  lemma WhatTheClientHas(b: Build, es: seq<Event>, xs: seq<State>, r: seq<nat>, client: UInt32,
                         replies: seq<seq<Byte>>, requests: seq<seq<Byte>>, cs: seq<Client>, a: UInt32)
    requires LoopServed(b, es, xs, r, client, replies, requests, cs)
    ensures var ss := Halves(ServerRole, xs);
            && (multiset(cs[|r|].got)[a] >= 2 <==> exists i: nat, j: nat :: Relisted(ss, r, cs, a, i, j))
            && (ListedDuring(ss, r, a) ==> multiset(cs[|r|].got)[a] <= 1)
            && (ListedDuring(ss, r, a) && cs[|r|].Done() ==>
                  multiset(cs[|r|].got)[a]
                  == if exists k :: 0 <= k < |r| - 1 && Overtaken(ss, r, cs, a, k) then 0 else 1)
  {
    var acts, ss := Parts(ServerRole, es), Halves(ServerRole, xs);
    LoopInHistory(b, es, xs, r, client, replies, requests, cs);
    RepeatedIffRelisted(b, acts, ss, r, cs, a);
    if ListedDuring(ss, r, a) {
      NoDuplicateReports(b, acts, ss, r, cs, a);
      if cs[|r|].Done() {
        MissedIffOvertaken(b, acts, ss, r, cs, a);
      }
    }
  }
}
