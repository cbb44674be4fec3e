/** The keep-alive engine of the WebSocket server: the table of clients, the time it sleeps, and the
    round of checks when nothing arrived (components/connections/ws_keep_alive.c). */
module KeepAlive {

  /** A slot of the table; times in milliseconds. */
  datatype Slot = Slot(active: bool, fd: int, lastSeen: nat)

  datatype Config = Config(period: nat, deadAfter: nat)

  const MAX_DELAY := 30000
  const MIN_DELAY := 1000

  // ----- the clock -----

  /** The readings of the clock in one pass over the table: reading 2 i and, if it is made, reading
      2 i + 1 are those for slot i. */
  type Clock = nat -> nat

  /** The clock does not go back. */
  ghost predicate Runs(t: Clock) {
    forall j, k :: 0 <= j <= k ==> t(j) <= t(k)
  }

  function Still(now: nat): Clock {
    (k: nat) => now
  }

  // ----- how long to sleep -----

  function Due(c: Config, s: Slot): nat {
    s.lastSeen + c.period
  }

  /** One round of get_max_delay, with the two readings it makes. */
  function Consider(c: Config, s: Slot, now: nat, later: nat, delay: nat): nat {
    if s.active && Due(c, s) < delay + now then
      if Due(c, s) < later then MIN_DELAY else Due(c, s) - later
    else delay
  }

  function MaxDelay(c: Config, clients: seq<Slot>, t: Clock): nat {
    if clients == [] then MAX_DELAY
    else
      var n := |clients| - 1;
      Consider(c, clients[n], t(2 * n), t(2 * n + 1), MaxDelay(c, clients[..n], t))
  }

  /** The sleep is at most 30 s, and for every active client at most 1 s or at most the time that client
      has left: so at most 1 s as soon as some client has none. */
  lemma {:induction false} MaxDelayBounds(c: Config, clients: seq<Slot>, t: Clock, i: nat)
    requires Runs(t)
    ensures MaxDelay(c, clients, t) <= MAX_DELAY
    ensures i < |clients| && clients[i].active ==>
              MaxDelay(c, clients, t) <= MIN_DELAY || MaxDelay(c, clients, t) <= Due(c, clients[i]) - t(0)
  {
    if clients != [] {
      var n := |clients| - 1;
      var before := clients[..n];
      MaxDelayBounds(c, before, t, i);
      assert t(0) <= t(2 * n) <= t(2 * n + 1);
      assert i < n ==> before[i] == clients[i];
    }
  }

  /** Nor is it shorter than needed: it is 30 s, or 1 s because of an overdue client, or exactly the
      time left of some active client. */
  lemma {:induction false} MaxDelayAttained(c: Config, clients: seq<Slot>, t: Clock)
    ensures var delay := MaxDelay(c, clients, t);
            || delay == MAX_DELAY
            || exists i :: 0 <= i < |clients| && clients[i].active && DecidedBy(c, clients[i], t(2 * i + 1), delay)
  {
    if clients != [] {
      var n := |clients| - 1;
      var before := clients[..n];
      var delay := MaxDelay(c, clients, t);
      MaxDelayAttained(c, before, t);
      if delay != MaxDelay(c, before, t) {
        assert DecidedBy(c, clients[n], t(2 * n + 1), delay);
      } else if delay != MAX_DELAY {
        var i :| 0 <= i < n && before[i].active && DecidedBy(c, before[i], t(2 * i + 1), delay);
        assert clients[i].active && DecidedBy(c, clients[i], t(2 * i + 1), delay);
      }
    }
  }

  ghost predicate DecidedBy(c: Config, s: Slot, now: nat, delay: nat) {
    if Due(c, s) < now then delay == MIN_DELAY else Due(c, s) == now + delay
  }

  // ----- the sleep in closed form, for a clock that stands still during the pass -----

  predicate Overdue(c: Config, s: Slot, now: nat) {
    s.active && Due(c, s) < now
  }

  /** The number of the slot after the last overdue one; 0 if none is overdue. */
  function AfterOverdue(c: Config, clients: seq<Slot>, now: nat): (k: nat)
    ensures k <= |clients| && (k > 0 ==> Overdue(c, clients[k - 1], now))
    ensures forall j :: k <= j < |clients| ==> !Overdue(c, clients[j], now)
  {
    if clients == [] then 0
    else
      var n := |clients| - 1;
      if Overdue(c, clients[n], now) then n + 1
      else
        var k := AfterOverdue(c, clients[..n], now);
        assert forall j :: k <= j < n ==> clients[j] == clients[..n][j];
        k
  }

  /** r is the least of the cap and the times left of the active clients from slot `from` on. */
  ghost predicate IsLeast(c: Config, clients: seq<Slot>, from: nat, now: nat, cap: nat, r: nat) {
    && r <= cap
    && (forall j :: from <= j < |clients| && clients[j].active ==> now + r <= Due(c, clients[j]))
    && (r == cap || exists j :: from <= j < |clients| && clients[j].active && now + r == Due(c, clients[j]))
  }

  lemma {:induction false} LeastFrom(c: Config, clients: seq<Slot>, now: nat, from: nat)
    requires from <= |clients| && (forall j :: from <= j < |clients| ==> !Overdue(c, clients[j], now))
    requires from > 0 ==> Overdue(c, clients[from - 1], now)
    ensures IsLeast(c, clients, from, now, if from == 0 then MAX_DELAY else MIN_DELAY,
                    MaxDelay(c, clients, Still(now)))
  {
    if from < |clients| {
      var n := |clients| - 1;
      var before := clients[..n];
      LeastFrom(c, before, now, from);
      assert forall j :: 0 <= j < n ==> before[j] == clients[j];
      var cap := if from == 0 then MAX_DELAY else MIN_DELAY;
      var delay := MaxDelay(c, before, Still(now));
      if delay != cap {
        var j :| from <= j < n && before[j].active && now + delay == Due(c, before[j]);
        assert clients[j].active && now + delay == Due(c, clients[j]);
      }
    }
  }

  /** Without an overdue client the sleep is the least of 30 s and all times left.  With one it is the
      least of 1 s and the times left of the clients after the last overdue slot: the clients before it
      are forgotten. */
  lemma {:induction false} MaxDelayIsLeast(c: Config, clients: seq<Slot>, now: nat)
    ensures var k := AfterOverdue(c, clients, now);
            IsLeast(c, clients, k, now, if k == 0 then MAX_DELAY else MIN_DELAY, MaxDelay(c, clients, Still(now)))
  {
    LeastFrom(c, clients, now, AfterOverdue(c, clients, now));
  }

  /** So the engine can oversleep a client: exactly one that stands before the last overdue slot and has
      less time left than the clients after it, and than 1 s. */
  lemma {:induction false} OversleepsIff(c: Config, clients: seq<Slot>, now: nat, i: nat)
    requires i < |clients| && clients[i].active && !Overdue(c, clients[i], now)
    ensures var k := AfterOverdue(c, clients, now);
            now + MaxDelay(c, clients, Still(now)) > Due(c, clients[i]) <==>
            && i < k && now + MIN_DELAY > Due(c, clients[i])
            && forall j :: k <= j < |clients| && clients[j].active ==> Due(c, clients[i]) < Due(c, clients[j])
  {
    MaxDelayIsLeast(c, clients, now);
  }

  /** With a period of one second, a client due in 200 ms and one overdue, the sleep is a whole second. */
  lemma {:induction false} Oversleeps(now: nat, deadAfter: nat)
    requires now >= 5000
    ensures var c := Config(1000, deadAfter);
            var clients := [Slot(true, 1, now - 800), Slot(true, 2, now - 5000)];
            Due(c, clients[0]) == now + 200 && MaxDelay(c, clients, Still(now)) == MIN_DELAY
  {
    var c := Config(1000, deadAfter);
    var clients := [Slot(true, 1, now - 800), Slot(true, 2, now - 5000)];
    assert Overdue(c, clients[1], now);
    assert AfterOverdue(c, clients, now) == 2;
    MaxDelayIsLeast(c, clients, now);
  }

  // ----- the round of checks -----

  /** A client is pinged, or reported dead. */
  datatype Notice = Notice(fd: int, dead: bool)

  function Check(c: Config, s: Slot, now: nat, later: nat): seq<Notice> {
    if s.active && Due(c, s) <= now then [Notice(s.fd, s.lastSeen + c.deadAfter <= later)] else []
  }

  function CheckAll(c: Config, clients: seq<Slot>, t: Clock): seq<Notice> {
    if clients == [] then []
    else
      var n := |clients| - 1;
      CheckAll(c, clients[..n], t) + Check(c, clients[n], t(2 * n), t(2 * n + 1))
  }

  ghost predicate Deserves(c: Config, s: Slot, now: nat, later: nat, notice: Notice) {
    s.active && s.fd == notice.fd && Due(c, s) <= now && notice.dead == (s.lastSeen + c.deadAfter <= later)
  }

  /** A round notices exactly the active clients that are due when it comes to them. */
  lemma {:induction false} CheckAllNotices(c: Config, clients: seq<Slot>, t: Clock, notice: Notice)
    ensures notice in CheckAll(c, clients, t) <==>
            exists i :: 0 <= i < |clients| && Deserves(c, clients[i], t(2 * i), t(2 * i + 1), notice)
  {
    if clients != [] {
      var n := |clients| - 1;
      CheckAllNotices(c, clients[..n], t, notice);
      if notice in CheckAll(c, clients[..n], t) {
        var i :| 0 <= i < n && Deserves(c, clients[..n][i], t(2 * i), t(2 * i + 1), notice);
        assert Deserves(c, clients[i], t(2 * i), t(2 * i + 1), notice);
      }
      if i :| 0 <= i < n && Deserves(c, clients[i], t(2 * i), t(2 * i + 1), notice) {
        assert Deserves(c, clients[..n][i], t(2 * i), t(2 * i + 1), notice);
      }
    }
  }

  function DueSlots(c: Config, clients: seq<Slot>, t: Clock): set<nat> {
    set i: nat | i < |clients| && clients[i].active && Due(c, clients[i]) <= t(2 * i)
  }

  /** Each of them once. */
  lemma {:induction false} CheckAllOnce(c: Config, clients: seq<Slot>, t: Clock)
    ensures |CheckAll(c, clients, t)| == |DueSlots(c, clients, t)|
  {
    if clients != [] {
      var n := |clients| - 1;
      CheckAllOnce(c, clients[..n], t);
      var before := DueSlots(c, clients[..n], t);
      assert DueSlots(c, clients, t) ==
             if clients[n].active && Due(c, clients[n]) <= t(2 * n) then before + {n} else before;
    }
  }

  // ----- a quiet queue -----

  /** A turn of the loop without an action: the readings while the sleep is computed and those of the
      round of checks after it. */
  datatype Round = Round(asleep: Clock, checks: Clock)

  /** The turns go on one after the other.  A sleep lasts at most as long as asked for (the wait is cut
      to whole ticks); what the loop does besides takes at most `slack` before and after the checks begin. */
  ghost predicate IsQuiet(c: Config, clients: seq<Slot>, rounds: seq<Round>, slack: nat) {
    && (forall k :: 0 <= k < |rounds| ==> Goes(c, clients, rounds[k], slack))
    && (forall k :: 0 <= k < |rounds| - 1 ==> GoesOn(clients, rounds, slack, k))
  }

  ghost predicate Goes(c: Config, clients: seq<Slot>, r: Round, slack: nat) {
    && Runs(r.asleep) && Runs(r.checks)
    && r.asleep(0) <= r.checks(0) <= r.asleep(0) + MaxDelay(c, clients, r.asleep) + slack
  }

  ghost predicate GoesOn(clients: seq<Slot>, rounds: seq<Round>, slack: nat, k: nat)
    requires k + 1 < |rounds|
  {
    rounds[k].checks(2 * |clients|) <= rounds[k + 1].asleep(0) <= rounds[k].checks(0) + slack
  }

  /** The first round of checks that begins at or after t. */
  lemma {:induction false} FirstRound(rounds: seq<Round>, t: nat, n: nat) returns (k: nat)
    requires n < |rounds| && t <= rounds[n].checks(0)
    ensures k <= n && t <= rounds[k].checks(0) && (k > 0 ==> rounds[k - 1].checks(0) < t)
  {
    if n == 0 || rounds[n - 1].checks(0) < t {
      k := n;
    } else {
      k := FirstRound(rounds, t, n - 1);
    }
  }

  lemma DueIsNoticed(c: Config, clients: seq<Slot>, t: Clock, i: nat)
    requires Runs(t) && i < |clients| && clients[i].active && Due(c, clients[i]) <= t(0)
    ensures Notice(clients[i].fd, clients[i].lastSeen + c.deadAfter <= t(2 * i + 1)) in CheckAll(c, clients, t)
  {
    assert t(0) <= t(2 * i);
    var notice := Notice(clients[i].fd, clients[i].lastSeen + c.deadAfter <= t(2 * i + 1));
    assert Deserves(c, clients[i], t(2 * i), t(2 * i + 1), notice);
    CheckAllNotices(c, clients, t, notice);
  }

  /** While the queue is quiet, a client that becomes due is noticed in a round that begins at most 1 s
      (and twice the slack) after that: pinged, or reported dead if it has been silent for too long. */
  lemma NoticedInTime(c: Config, clients: seq<Slot>, rounds: seq<Round>, slack: nat, i: nat, n: nat) returns (k: nat)
    requires IsQuiet(c, clients, rounds, slack) && i < |clients| && clients[i].active
    requires n < |rounds| && rounds[0].asleep(0) <= Due(c, clients[i]) <= rounds[n].checks(0)
    ensures k <= n && Due(c, clients[i]) <= rounds[k].checks(0) <= Due(c, clients[i]) + MIN_DELAY + 2 * slack
    ensures var t := rounds[k].checks;
            Notice(clients[i].fd, clients[i].lastSeen + c.deadAfter <= t(2 * i + 1)) in CheckAll(c, clients, t)
  {
    k := FirstRound(rounds, Due(c, clients[i]), n);
    assert Goes(c, clients, rounds[k], slack);
    if k > 0 {
      assert GoesOn(clients, rounds, slack, k - 1);
    }
    MaxDelayBounds(c, clients, rounds[k].asleep, i);
    DueIsNoticed(c, clients, rounds[k].checks, i);
  }

  /** A client already due when the engine goes to sleep is noticed after that sleep, which lasts at
      most 1 s (and the slack). */
  lemma OverdueNoticedFirst(c: Config, clients: seq<Slot>, r: Round, slack: nat, i: nat)
    requires Goes(c, clients, r, slack) && i < |clients| && clients[i].active
    requires Due(c, clients[i]) <= r.asleep(0)
    ensures r.checks(0) <= r.asleep(0) + MIN_DELAY + slack
    ensures Notice(clients[i].fd, clients[i].lastSeen + c.deadAfter <= r.checks(2 * i + 1)) in
            CheckAll(c, clients, r.checks)
  {
    MaxDelayBounds(c, clients, r.asleep, i);
    DueIsNoticed(c, clients, r.checks, i);
  }

  // ----- the table -----

  predicate Holds(s: Slot, fd: int) {
    s.active && s.fd == fd
  }

  /** The first active slot of fd; the length of the table if there is none. */
  function Find(clients: seq<Slot>, fd: int): (i: nat)
    ensures i <= |clients| && (i < |clients| ==> Holds(clients[i], fd))
    ensures forall j :: 0 <= j < i ==> !Holds(clients[j], fd)
  {
    if clients == [] then 0
    else if Holds(clients[0], fd) then 0
    else
      var i := Find(clients[1..], fd);
      assert forall j :: 0 < j < i + 1 ==> clients[j] == clients[1..][j - 1];
      i + 1
  }

  function FindFree(clients: seq<Slot>): (i: nat)
    ensures i <= |clients| && (i < |clients| ==> !clients[i].active)
    ensures forall j :: 0 <= j < i ==> clients[j].active
  {
    if clients == [] then 0
    else if !clients[0].active then 0
    else
      var i := FindFree(clients[1..]);
      assert forall j :: 0 < j < i + 1 ==> clients[j] == clients[1..][j - 1];
      i + 1
  }

  function Add(clients: seq<Slot>, fd: int, now: nat): seq<Slot> {
    var i := FindFree(clients);
    if i < |clients| then clients[i := Slot(true, fd, now)] else clients
  }

  function Remove(clients: seq<Slot>, fd: int): seq<Slot> {
    var i := Find(clients, fd);
    if i < |clients| then clients[i := Slot(false, -1, clients[i].lastSeen)] else clients
  }

  function Seen(clients: seq<Slot>, fd: int, time: nat): seq<Slot> {
    var i := Find(clients, fd);
    if i < |clients| then clients[i := clients[i].(lastSeen := time)] else clients
  }

  /** The same clients in the same slots. */
  ghost predicate SameClients(a: seq<Slot>, b: seq<Slot>) {
    && |a| == |b|
    && forall i :: 0 <= i < |a| ==> a[i].active == b[i].active && (a[i].active ==> a[i] == b[i])
  }

  /** Removing a client that was not there before it was added brings the old clients back. */
  lemma {:induction false} AddThenRemove(clients: seq<Slot>, fd: int, now: nat)
    requires Find(clients, fd) == |clients|
    ensures SameClients(Remove(Add(clients, fd, now), fd), clients)
  {
  }

  /** A client with a slot and a sign of life at `time` is not noticed before a whole period later. */
  lemma SeenPostpones(c: Config, clients: seq<Slot>, fd: int, time: nat, t: Clock, notice: Notice)
    requires Find(clients, fd) < |clients|
    requires forall j :: 0 <= j < |clients| && Holds(clients[j], fd) ==> j == Find(clients, fd)
    requires Runs(t) && t(2 * |clients|) < time + c.period && notice in CheckAll(c, Seen(clients, fd, time), t)
    ensures notice.fd != fd
  {
    var after := Seen(clients, fd, time);
    CheckAllNotices(c, after, t, notice);
    var i :| 0 <= i < |after| && Deserves(c, after[i], t(2 * i), t(2 * i + 1), notice);
    assert t(2 * i) <= t(2 * |clients|);
  }

  /** What the queue can deliver. */
  datatype Action = AddFd(fd: int) | RemoveFd(fd: int) | Update(fd: int, lastSeen: nat) | StopTask | Unexpected

  /** The table after one turn of the engine: an action, or none in time. */
  function Turn(clients: seq<Slot>, action: Action, now: nat): seq<Slot> {
    match action
    case AddFd(fd) => Add(clients, fd, now)
    case RemoveFd(fd) => Remove(clients, fd)
    case Update(fd, time) => Seen(clients, fd, time)
    case _ => clients
  }

  // ----- what an action does to the table, slot by slot -----

  /** Slot i, and no other, is changed. */
  ghost predicate OnlySlot(before: seq<Slot>, after: seq<Slot>, i: nat) {
    i < |before| == |after| && forall j :: 0 <= j < |before| && j != i ==> after[j] == before[j]
  }

  /** Slot i is the first that is free, or the first active one of fd. */
  ghost predicate FirstUnused(clients: seq<Slot>, i: nat) {
    i < |clients| && !clients[i].active && forall j :: 0 <= j < i ==> clients[j].active
  }

  ghost predicate FirstOf(clients: seq<Slot>, fd: int, i: nat) {
    && i < |clients| && clients[i].active && clients[i].fd == fd
    && forall j :: 0 <= j < i ==> !(clients[j].active && clients[j].fd == fd)
  }

  /** A new client gets the first free slot, with the present time as its last sign of life, and nobody
      else's slot changes; without a free slot nothing happens. */
  lemma AddedClient(clients: seq<Slot>, fd: int, now: nat, i: nat)
    ensures FirstUnused(clients, i) ==>
              var after := Turn(clients, AddFd(fd), now);
              OnlySlot(clients, after, i) && after[i] == Slot(true, fd, now)
    ensures (forall j :: 0 <= j < |clients| ==> clients[j].active) ==> Turn(clients, AddFd(fd), now) == clients
  {
    assert FirstUnused(clients, i) ==> FindFree(clients) == i;
  }

  /** A client that goes frees its first slot; a sign of life changes the time of its first slot; and
      nobody else's slot changes.  A client without a slot, and any other action, change nothing. */
  lemma OtherActions(clients: seq<Slot>, fd: int, time: nat, now: nat, i: nat)
    ensures FirstOf(clients, fd, i) ==>
              var after := Turn(clients, RemoveFd(fd), now);
              OnlySlot(clients, after, i) && !after[i].active
    ensures FirstOf(clients, fd, i) ==>
              var after := Turn(clients, Update(fd, time), now);
              OnlySlot(clients, after, i) && after[i] == Slot(true, fd, time)
    ensures (forall j :: 0 <= j < |clients| ==> !(clients[j].active && clients[j].fd == fd)) ==>
              Turn(clients, RemoveFd(fd), now) == Turn(clients, Update(fd, time), now) == clients
    ensures Turn(clients, StopTask, now) == Turn(clients, Unexpected, now) == clients
  {
    var k := Find(clients, fd);
    assert k < |clients| ==> Holds(clients[k], fd);
    assert FirstOf(clients, fd, i) ==> k == i;
  }

  /** So a client just added is not noticed before a whole period is over. */
  lemma AddedIsNotNoticed(c: Config, clients: seq<Slot>, fd: int, now: nat, i: nat, t: Clock, notice: Notice)
    requires FirstUnused(clients, i) && forall j :: 0 <= j < |clients| ==> !(clients[j].active && clients[j].fd == fd)
    requires Runs(t) && t(2 * |clients|) < now + c.period
    requires notice in CheckAll(c, Turn(clients, AddFd(fd), now), t)
    ensures notice.fd != fd
  {
    AddedClient(clients, fd, now, i);
    var after := Turn(clients, AddFd(fd), now);
    CheckAllNotices(c, after, t, notice);
    var k :| 0 <= k < |after| && Deserves(c, after[k], t(2 * k), t(2 * k + 1), notice);
    assert t(2 * k) <= t(2 * |clients|);
  }

  class Engine {
    const clients: array<Slot>
    var keepAlivePeriodMs: nat
    var notAliveAfterMs: nat

    ghost function Settings(): Config
      reads this
    {
      Config(keepAlivePeriodMs, notAliveAfterMs)
    }

    constructor (maxClients: nat, period: nat, notAliveAfter: nat)
      ensures Settings() == Config(period, notAliveAfter) && fresh(clients) && clients.Length == maxClients
      ensures forall i :: 0 <= i < maxClients ==> !clients[i].active
    {
      clients := new Slot[maxClients](i => Slot(false, 0, 0));
      keepAlivePeriodMs, notAliveAfterMs := period, notAliveAfter;
    }

    /** `t` gives the readings of the clock, which is read anew each time it is used. */
    method GetMaxDelay(t: Clock) returns (checkAfterMs: nat)
      ensures checkAfterMs == MaxDelay(Settings(), clients[..], t)
    {
      checkAfterMs := MAX_DELAY;
      for i := 0 to clients.Length
        invariant checkAfterMs == MaxDelay(Settings(), clients[..i], t)
      {
        assert clients[..i + 1][..i] == clients[..i];
        if clients[i].active {
          var checkThisClientAt := clients[i].lastSeen + keepAlivePeriodMs;
          if checkThisClientAt < checkAfterMs + t(2 * i) {
            var left := checkThisClientAt - t(2 * i + 1);
            checkAfterMs := if left < 0 then MIN_DELAY else left;
          }
        }
      }
      assert clients[..clients.Length] == clients[..];
    }

    method UpdateClient(fd: int, timestamp: nat) returns (found: bool)
      modifies clients
      ensures clients[..] == Seen(old(clients[..]), fd, timestamp)
      ensures found <==> Find(old(clients[..]), fd) < clients.Length
    {
      for i := 0 to clients.Length
        invariant clients[..] == old(clients[..])
        invariant forall j :: 0 <= j < i ==> !Holds(clients[j], fd)
      {
        if clients[i].active && clients[i].fd == fd {
          clients[i] := clients[i].(lastSeen := timestamp);
          return true;
        }
      }
      return false;
    }

    method RemoveClient(fd: int) returns (found: bool)
      modifies clients
      ensures clients[..] == Remove(old(clients[..]), fd)
      ensures found <==> Find(old(clients[..]), fd) < clients.Length
    {
      for i := 0 to clients.Length
        invariant clients[..] == old(clients[..])
        invariant forall j :: 0 <= j < i ==> !Holds(clients[j], fd)
      {
        if clients[i].active && clients[i].fd == fd {
          clients[i] := clients[i].(active := false, fd := -1);
          return true;
        }
      }
      return false;
    }

    method AddNewClient(fd: int, now: nat) returns (added: bool)
      modifies clients
      ensures clients[..] == Add(old(clients[..]), fd, now)
      ensures added <==> FindFree(old(clients[..])) < clients.Length
    {
      for i := 0 to clients.Length
        invariant clients[..] == old(clients[..])
        invariant forall j :: 0 <= j < i ==> clients[j].active
      {
        if !clients[i].active {
          clients[i] := Slot(true, fd, now);
          return true;
        }
      }
      return false;
    }

    /** One action from the queue (ws_keep_alive.c:115-137). */
    method HandleAction(action: Action, now: nat) returns (runTask: bool)
      modifies clients
      ensures clients[..] == Turn(old(clients[..]), action, now)
      ensures runTask <==> action != StopTask
    {
      runTask := true;
      match action
      case AddFd(fd) => var added := AddNewClient(fd, now);
      case RemoveFd(fd) => var found := RemoveClient(fd);
      case Update(fd, time) => var found := UpdateClient(fd, time);
      case StopTask => runTask := false;
      case Unexpected =>
    }

    /** No action arrived in time: ping or report every client that is due (ws_keep_alive.c:138-152). */
    method CheckClients(t: Clock) returns (notices: seq<Notice>)
      ensures notices == CheckAll(Settings(), clients[..], t)
    {
      notices := [];
      for i := 0 to clients.Length
        invariant notices == CheckAll(Settings(), clients[..i], t)
      {
        assert clients[..i + 1][..i] == clients[..i];
        if clients[i].active {
          if clients[i].lastSeen + keepAlivePeriodMs <= t(2 * i) {
            if clients[i].lastSeen + notAliveAfterMs <= t(2 * i + 1) {
              notices := notices + [Notice(clients[i].fd, true)];
            } else {
              notices := notices + [Notice(clients[i].fd, false)];
            }
          }
        }
      }
      assert clients[..clients.Length] == clients[..];
    }
  }
}
