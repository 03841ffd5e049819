/**
 What the handlers of the metaserver do, on values.  The registry has two halves, servers and
 clients, each with a list of active peers and a list of pending handshakes; a half moves by
 the actions below, and a run is any sequence of actions from the empty half.
 */
module Registry {
  import opened Wire
  import opened Messages

  function ReapInterval(b: Build): nat {
    match b
    case Normal => 930
    case Debug => 7
  }

  /** The value of one list node. */
  datatype Entry = Entry(addr: UInt32, handshake: UInt32, time: int)

  /** The index of the first entry with this handshake value, or the length of the list. */
  function FirstByHandshake(l: seq<Entry>, h: UInt32): (i: nat)
    ensures i <= |l|
    ensures i < |l| ==> l[i].handshake == h
    ensures forall j :: 0 <= j < i ==> l[j].handshake != h
  {
    if l == [] || l[0].handshake == h then 0 else 1 + FirstByHandshake(l[1..], h)
  }

  function FirstByAddress(l: seq<Entry>, a: UInt32): (i: nat)
    ensures i <= |l|
    ensures i < |l| ==> l[i].addr == a
    ensures forall j :: 0 <= j < i ==> l[j].addr != a
  {
    if l == [] || l[0].addr == a then 0 else 1 + FirstByAddress(l[1..], a)
  }

  function Erase<T>(l: seq<T>, i: nat): seq<T>
    requires i < |l|
  {
    l[..i] + l[i + 1..]
  }

  function Addresses(l: seq<Entry>): (r: seq<UInt32>)
    ensures |r| == |l|
  {
    seq(|l|, i requires 0 <= i < |l| => l[i].addr)
  }

  /** The reaper's test: strictly later than the timestamp plus the interval. */
  predicate Stale(e: Entry, now: int, interval: nat) {
    now > e.time + interval
  }

  /** In seconds: an entry passes a check up to 930 seconds after its time in a normal build, and up to
      7 in a debug build. */
  lemma CheckInSeconds(e: Entry, now: int)
    ensures !Stale(e, now, ReapInterval(Normal)) <==> now <= e.time + 930
    ensures !Stale(e, now, ReapInterval(Debug)) <==> now <= e.time + 7
  {}

  /** What a reap pass leaves of a list; the i-th entry is checked when the clock reads `clock(i)`. */
  function Survivors(l: seq<Entry>, clock: nat -> int, interval: nat): seq<Entry> {
    if l == [] then [] else
      var n := |l| - 1;
      Survivors(l[..n], clock, interval) + if Stale(l[n], clock(n), interval) then [] else [l[n]]
  }

  /** What a reap pass removes from a list. */
  function Casualties(l: seq<Entry>, clock: nat -> int, interval: nat): seq<Entry> {
    if l == [] then [] else
      var n := |l| - 1;
      Casualties(l[..n], clock, interval) + if Stale(l[n], clock(n), interval) then [l[n]] else []
  }

  function Max(x: int, y: int): int {
    if x < y then y else x
  }

  /** One half of the registry, with the largest sizes its two lists were seen to have. */
  datatype Half = Half(active: seq<Entry>, pending: seq<Entry>, peakActive: int, peakPending: int)

  const EMPTY_HALF := Half([], [], 0, 0)

  /** What can happen to one half.  A keepalive is answered with the value `h`; a reap pass reads
      the clock once for every entry it checks.  `Idle` stands for whatever concerns the other
      half only. */
  datatype Action =
    | Keepalive(addr: UInt32, h: UInt32, now: int)
    | Shake(addr: UInt32, h: UInt32, now: int)
    | Terminate(addr: UInt32, now: int)
    | Reap(start: int, end: int, activeClock: nat -> int, pendingClock: nat -> int)
    | Idle(start: int, end: int)
  {
    function Begin(): int {
      if Reap? || Idle? then start else now
    }

    function End(): int {
      if Reap? || Idle? then end else now
    }
  }

  /** A shake is accepted when some pending entry carries its value; the sender's address plays no part. */
  predicate Accepted(s: Half, act: Action) {
    act.Shake? && exists i :: 0 <= i < |s.pending| && s.pending[i].handshake == act.h
  }

  /** An accepted shake lists its sender at the end, or refreshes the sender's timestamp in place. */
  function Welcome(l: seq<Entry>, a: UInt32, now: int): seq<Entry> {
    var i := FirstByAddress(l, a);
    if i == |l| then l + [Entry(a, 0, now)] else l[i := l[i].(time := now)]
  }

  function Next(b: Build, s: Half, act: Action): Half {
    match act
    case Keepalive(a, h, now) =>
      var pending := s.pending + [Entry(a, h, now)];
      s.(pending := pending, peakPending := Max(s.peakPending, |pending|))
    case Shake(a, h, now) =>
      var i := FirstByHandshake(s.pending, h);
      if i == |s.pending| then s else
        var active := Welcome(s.active, a, now);
        s.(active := active, pending := Erase(s.pending, i),
           peakActive := if |active| > |s.active| then Max(s.peakActive, |active|) else s.peakActive)
    case Terminate(a, _) =>
      var i := FirstByAddress(s.active, a);
      if i == |s.active| then s else s.(active := Erase(s.active, i))
    case Reap(_, _, activeClock, pendingClock) =>
      Half(Survivors(s.active, activeClock, ReapInterval(b)),
           Survivors(s.pending, pendingClock, ReapInterval(b)),
           Max(s.peakActive, |s.active|), Max(s.peakPending, |s.pending|))
    case Idle(_, _) => s
  }

  ghost predicate StepAt(b: Build, acts: seq<Action>, ss: seq<Half>, i: nat)
    requires i < |acts| && |ss| == |acts| + 1
  {
    ss[i + 1] == Next(b, ss[i], acts[i])
  }

  /** `ss` are the states a half goes through when `acts` happen to it. */
  ghost predicate IsRun(b: Build, acts: seq<Action>, ss: seq<Half>) {
    && |ss| == |acts| + 1
    && ss[0] == EMPTY_HALF
    && forall i :: 0 <= i < |acts| ==> StepAt(b, acts, ss, i)
  }

  /** Whatever the actions, there is exactly one run. */
  lemma {:induction false} RunExists(b: Build, acts: seq<Action>) returns (ss: seq<Half>)
    ensures IsRun(b, acts, ss)
    ensures forall ss' :: IsRun(b, acts, ss') ==> ss' == ss
  {
    if acts == [] {
      ss := [EMPTY_HALF];
    } else {
      var n := |acts| - 1;
      var front := RunExists(b, acts[..n]);
      ss := front + [Next(b, front[n], acts[n])];
      forall i | 0 <= i < |acts|
        ensures StepAt(b, acts, ss, i)
      {
        assert i < n ==> StepAt(b, acts[..n], front, i);
      }
      forall ss' | IsRun(b, acts, ss')
        ensures ss' == ss
      {
        RunPrefix(b, acts, ss', n);
        assert StepAt(b, acts, ss', n);
        assert ss' == ss'[..n + 1] + [ss'[n + 1]];
      }
    }
  }

  lemma RunPrefix(b: Build, acts: seq<Action>, ss: seq<Half>, n: nat)
    requires IsRun(b, acts, ss) && n <= |acts|
    ensures IsRun(b, acts[..n], ss[..n + 1])
  {
    var front, states := acts[..n], ss[..n + 1];
    forall i | 0 <= i < |front|
      ensures StepAt(b, front, states, i)
    {
      assert StepAt(b, acts, ss, i);
    }
  }

  /** The clock never runs backwards: not between actions, and not inside a reap pass, which
      checks the active list before the pending list. */
  ghost predicate Clocked(acts: seq<Action>) {
    && (forall i :: 0 <= i < |acts| ==> Timely(acts[i]))
    && (forall i, j :: 0 <= i < j < |acts| ==> acts[i].End() <= acts[j].Begin())
  }

  ghost predicate Timely(act: Action) {
    && act.Begin() <= act.End()
    && (act.Reap? ==>
          && (forall i: nat :: act.start <= act.activeClock(i) <= act.end)
          && (forall i: nat :: act.start <= act.pendingClock(i) <= act.end)
          && (forall i: nat, j: nat :: i <= j ==> act.activeClock(i) <= act.activeClock(j))
          && (forall i: nat, j: nat :: i <= j ==> act.pendingClock(i) <= act.pendingClock(j))
          && (forall i: nat, j: nat :: act.activeClock(i) <= act.pendingClock(j)))
  }

  lemma AcceptedIffFound(s: Half, act: Action)
    requires act.Shake?
    ensures Accepted(s, act) <==> FirstByHandshake(s.pending, act.h) < |s.pending|
  {}
}
