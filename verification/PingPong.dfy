/** The WebSocket client task as a state machine: connecting, ping and pong deadlines, closing
    (esp_websocket_client.c:220-234, 734-807, 811-973; sections 5.5.2 and 5.5.3 of RFC 6455). */
module PingPong {
  import opened Options

  datatype Phase = Unknown | Init | Connected | WaitTimeout | Closing

  /** Settings; the pong timeout is 0 when the client does not insist on pongs. */
  datatype Config = Config(pingIntervalSec: nat, pongTimeoutSec: nat, waitTimeoutMs: nat, autoReconnect: bool)

  /** What the client sends, with the clock in milliseconds. */
  datatype Event = Ping(at: nat) | CloseSent | PongSent(len: nat)

  /** `over` tells that the client task has left its loop, `run` is the flag it goes on while. */
  datatype State = State(phase: Phase, run: bool, over: bool, reconnectTick: nat, pingTick: nat, pingpongTick: nat,
                         waitForPong: bool, closeSent: bool, readable: bool, log: seq<Event>)

  datatype Opcode = NoOpcode | PingCode | PongCode | CloseCode | OtherCode

  /** What one read of the transport brings: a number of bytes or an error, and length and opcode of
      the frame they belong to. */
  datatype Read = Read(len: int, payloadLen: nat, opcode: Opcode)

  /** Everything one turn of the client task gets from outside.  t1 .. t6 are the clock readings in the
      order of the code; `pieces` are the reads in their order, and a read after the last of them fails;
      `closeLater` says that another task sets the close bit after it was looked at; `closePoll` is the
      answer whether the server has closed the connection: 0 for not yet. */
  datatype Input = Input(t1: nat, t2: nat, t3: nat, t4: nat, t5: nat, t6: nat,
                         connected: bool, pieces: seq<Read>, poll: int, closeLater: bool, closePoll: int)

  ghost predicate ValidInput(i: Input) {
    i.t1 <= i.t2 <= i.t3 <= i.t4 <= i.t5 <= i.t6
  }

  /** esp_websocket_client_abort_connection */
  function Abort(c: Config, s: State, now: nat): (t: State)
    ensures t.run == s.run && t.over == s.over && t.closeSent == s.closeSent
  {
    s.(phase := WaitTimeout, reconnectTick := if c.autoReconnect then now else s.reconnectTick)
  }

  /** Send a ping when it is time; remember the first one without an answer (:874-883). */
  function SendPing(c: Config, s: State, i: Input): (t: State)
    ensures t.run == s.run && t.over == s.over && t.phase == s.phase && t.readable == s.readable
  {
    if i.t1 - s.pingTick <= c.pingIntervalSec * 1000 then s
    else
      var t := s.(pingTick := i.t2, log := s.log + [Ping(i.t3)]);
      if !t.waitForPong && c.pongTimeoutSec != 0 then t.(pingpongTick := i.t3, waitForPong := true) else t
  }

  predicate PongOverdue(c: Config, s: State, i: Input) {
    i.t4 - s.pingpongTick > c.pongTimeoutSec * 1000 && s.waitForPong
  }

  /** What the reads of one turn bring: a failure, nothing, or a whole payload. */
  datatype Received = ReadFailed | Nothing | Whole(opcode: Opcode, payloadLen: nat)

  /** Reads on from piece k, `offset` bytes having come, until as many bytes have come as the last piece
      says the payload has (:763-792). */
  function Collect(pieces: seq<Read>, k: nat, offset: int): Received
    requires k <= |pieces|
    decreases |pieces| - k
  {
    if k == |pieces| || pieces[k].len < 0 then ReadFailed
    else if pieces[k].len == 0 && pieces[k].opcode == NoOpcode then Nothing
    else if offset + pieces[k].len >= pieces[k].payloadLen then Whole(pieces[k].opcode, pieces[k].payloadLen)
    else Collect(pieces, k + 1, offset + pieces[k].len)
  }

  /** Read what has come in, answer a ping, and take note of a pong or a close frame (:757-806, 895-905). */
  function Receive(c: Config, s: State, i: Input): (t: State)
    ensures t.run == s.run && t.over == s.over && t.closeSent == s.closeSent
  {
    if !s.readable then s
    else
      var t := s.(pingTick := i.t5);
      match Collect(i.pieces, 0, 0)
      case ReadFailed => Abort(c, t, i.t6)
      case Nothing => t
      case Whole(PingCode, n) => t.(log := t.log + [PongSent(n)])
      case Whole(PongCode, _) => t.(waitForPong := false)
      case Whole(CloseCode, _) => t.(phase := Closing)
      case Whole(_, _) => t
  }

  function CloseBit(s: State, i: Input): (t: State)
    ensures t.run == s.run && t.over == s.over && t.phase == s.phase && t.readable == s.readable
  {
    if i.closeLater && !s.closeSent then s.(closeSent := true, log := s.log + [CloseSent]) else s
  }

  /** A turn in the connected phase. */
  function TurnConnected(c: Config, s: State, i: Input): (t: State)
    ensures t.run == s.run && t.over == s.over
  {
    if s.closeSent then Receive(c, s, i)
    else
      var t := SendPing(c, CloseBit(s, i), i);
      if PongOverdue(c, t, i) then Abort(c, t, i.t4) else Receive(c, t, i)
  }

  /** The switch over the phase. */
  function Dispatch(c: Config, s: State, i: Input): State {
    match s.phase
    case Init =>
      if i.connected then s.(phase := Connected, waitForPong := false)
      else Abort(c, s, i.t1)
    case Connected => TurnConnected(c, s, i)
    case WaitTimeout =>
      if !c.autoReconnect then s.(run := false)
      else if i.t1 - s.reconnectTick > c.waitTimeoutMs then s.(phase := Init, reconnectTick := i.t2)
      else s
    case Closing => if !s.closeSent then s.(closeSent := true, log := s.log + [CloseSent]) else s
    case Unknown => s
  }

  /** The wait at the end of a turn.  In the closing phase the client task leaves its loop, at once when the
      server has not closed yet, and otherwise with the flag cleared. */
  function Await(c: Config, s: State, i: Input): State {
    if s.phase == Connected then
      var t := s.(readable := i.poll != 0);
      if i.poll < 0 then Abort(c, t, i.t6) else t
    else if s.phase == Closing && s.closeSent then
      s.(phase := Unknown, over := true, run := s.run && i.closePoll == 0)
    else if !s.run then s.(phase := Unknown, over := true)
    else s
  }

  /** One turn of the loop of the client task. */
  function Turn(c: Config, s: State, i: Input): State {
    if s.over then s else Await(c, Dispatch(c, s, i), i)
  }

  /** What other tasks may do between turns: set the close bit, or fail to send. */
  datatype Step = TaskTurn(input: Input) | UserClose | SendFailure(now: nat)

  function Next(c: Config, s: State, step: Step): State {
    match step
    case TaskTurn(i) => Turn(c, s, i)
    case UserClose => if s.closeSent then s else s.(closeSent := true, log := s.log + [CloseSent])
    case SendFailure(now) => if s.phase == Connected then Abort(c, s, now) else s
  }

  predicate Started(s: State) {
    s.phase == Init && s.run && !s.over && !s.waitForPong && !s.closeSent && !s.readable && s.log == []
  }

  ghost predicate StepAt(c: Config, steps: seq<Step>, run: seq<State>, n: nat) {
    && n < |steps| && n + 1 < |run|
    && (steps[n].TaskTurn? ==> ValidInput(steps[n].input)) && run[n + 1] == Next(c, run[n], steps[n])
  }

  ghost predicate IsRun(c: Config, steps: seq<Step>, run: seq<State>) {
    && |run| == |steps| + 1 && Started(run[0])
    && forall n :: 0 <= n < |steps| ==> StepAt(c, steps, run, n)
  }

  // ----- reading in pieces -----

  function BytesOf(pieces: seq<Read>, n: nat): int
    requires n <= |pieces|
  {
    if n == 0 then 0 else BytesOf(pieces, n - 1) + pieces[n - 1].len
  }

  /** Piece k is neither an error nor empty for want of data. */
  predicate Brings(pieces: seq<Read>, k: nat) {
    k < |pieces| && pieces[k].len >= 0 && !(pieces[k].len == 0 && pieces[k].opcode == NoOpcode)
  }

  /** With piece k as many bytes have come as it says the payload has. */
  predicate Reaches(pieces: seq<Read>, k: nat) {
    k < |pieces| && BytesOf(pieces, k + 1) >= pieces[k].payloadLen
  }

  /** Piece n completes the payload, and none before it does. */
  ghost predicate CompletesAt(pieces: seq<Read>, n: nat) {
    && (forall k :: 0 <= k < n ==> Brings(pieces, k) && !Reaches(pieces, k))
    && Brings(pieces, n) && Reaches(pieces, n)
  }

  lemma {:induction false} CollectsFrom(pieces: seq<Read>, k: nat, opcode: Opcode, len: nat)
    requires k <= |pieces| && forall m :: 0 <= m < k ==> Brings(pieces, m) && !Reaches(pieces, m)
    ensures Collect(pieces, k, BytesOf(pieces, k)) == Whole(opcode, len) <==>
            exists n :: k <= n < |pieces| && CompletesAt(pieces, n) && pieces[n].opcode == opcode
                        && pieces[n].payloadLen == len
    decreases |pieces| - k
  {
    if k < |pieces| {
      if !Brings(pieces, k) {
        assert forall n :: k <= n < |pieces| ==> !CompletesAt(pieces, n);
      } else if Reaches(pieces, k) {
        assert CompletesAt(pieces, k);
        assert forall n :: k < n < |pieces| ==> !CompletesAt(pieces, n);
      } else {
        CollectsFrom(pieces, k + 1, opcode, len);
      }
    }
  }

  /** A whole payload is reported exactly when some piece completes it, with what that piece says. */
  lemma CollectsWhole(pieces: seq<Read>, opcode: Opcode, len: nat)
    ensures Collect(pieces, 0, 0) == Whole(opcode, len) <==>
            exists n :: 0 <= n < |pieces| && CompletesAt(pieces, n) && pieces[n].opcode == opcode
                        && pieces[n].payloadLen == len
  {
    CollectsFrom(pieces, 0, opcode, len);
  }

  /** The first piece that completes the payload carries the given opcode. */
  ghost predicate Brought(pieces: seq<Read>, opcode: Opcode) {
    exists n :: 0 <= n < |pieces| && CompletesAt(pieces, n) && pieces[n].opcode == opcode
  }

  lemma CollectsOpcode(pieces: seq<Read>, opcode: Opcode)
    ensures var r := Collect(pieces, 0, 0); r.Whole? && r.opcode == opcode <==> Brought(pieces, opcode)
  {
    var r := Collect(pieces, 0, 0);
    if r.Whole? {
      CollectsWhole(pieces, r.opcode, r.payloadLen);
    }
    if Brought(pieces, opcode) {
      var n :| 0 <= n < |pieces| && CompletesAt(pieces, n) && pieces[n].opcode == opcode;
      CollectsWhole(pieces, opcode, pieces[n].payloadLen);
    }
  }

  /** Piece n is an error, or missing, and none before it completes the payload or says that nothing has come. */
  ghost predicate FailsAt(pieces: seq<Read>, n: nat) {
    && (forall k :: 0 <= k < n ==> Brings(pieces, k) && !Reaches(pieces, k))
    && (n == |pieces| || (n < |pieces| && pieces[n].len < 0))
  }

  ghost predicate ReadFails(pieces: seq<Read>) {
    exists n :: 0 <= n <= |pieces| && FailsAt(pieces, n)
  }

  lemma {:induction false} FailsFrom(pieces: seq<Read>, k: nat)
    requires k <= |pieces| && forall m :: 0 <= m < k ==> Brings(pieces, m) && !Reaches(pieces, m)
    ensures Collect(pieces, k, BytesOf(pieces, k)) == ReadFailed <==>
            exists n :: k <= n <= |pieces| && FailsAt(pieces, n)
    decreases |pieces| - k
  {
    if k == |pieces| || pieces[k].len < 0 {
      assert FailsAt(pieces, k);
    } else if !Brings(pieces, k) || Reaches(pieces, k) {
      assert forall n :: k <= n <= |pieces| ==> !FailsAt(pieces, n);
    } else {
      FailsFrom(pieces, k + 1);
    }
  }

  /** A read fails exactly when an error, or the end of what comes, is met before anything else. */
  lemma CollectsFailed(pieces: seq<Read>)
    ensures Collect(pieces, 0, 0) == ReadFailed <==> ReadFails(pieces)
  {
    FailsFrom(pieces, 0);
  }

  // ----- a turn, from what it gets from outside -----

  /** The last ping or read is longer ago than the interval, and no close frame has been sent. */
  predicate PingDue(c: Config, s: State, i: Input) {
    !s.over && s.phase == Connected && !s.closeSent && i.t1 - s.pingTick > c.pingIntervalSec * 1000
  }

  /** The pong for the ping awaited, or for the one sent in this turn, is overdue. */
  predicate GivesUp(c: Config, s: State, i: Input) {
    !s.over && s.phase == Connected && !s.closeSent &&
    if s.waitForPong then i.t4 - s.pingpongTick > c.pongTimeoutSec * 1000
    else PingDue(c, s, i) && c.pongTimeoutSec != 0 && i.t4 - i.t3 > c.pongTimeoutSec * 1000
  }

  /** The turn reads from a connection that has something to read. */
  predicate ReadsIn(c: Config, s: State, i: Input) {
    !s.over && s.phase == Connected && s.readable && !GivesUp(c, s, i)
  }

  /** The turn reads a whole payload with this opcode. */
  ghost predicate GetsIn(c: Config, s: State, i: Input, opcode: Opcode) {
    ReadsIn(c, s, i) && Brought(i.pieces, opcode)
  }

  /** The close bit after the turn's switch over the phase. */
  predicate Closed(s: State, i: Input) {
    s.closeSent || s.phase == Closing || (s.phase == Connected && i.closeLater)
  }

  /** The state in which the turn reads, if it does not give up. */
  function BeforeRead(c: Config, s: State, i: Input): State {
    if s.closeSent then s else SendPing(c, CloseBit(s, i), i)
  }

  lemma BeforeReadIs(c: Config, s: State, i: Input)
    requires s.phase == Connected && !s.over
    ensures var t := BeforeRead(c, s, i);
            && Dispatch(c, s, i) == (if GivesUp(c, s, i) then Abort(c, t, i.t4) else Receive(c, t, i))
            && t == s.(pingTick := if PingDue(c, s, i) then i.t2 else s.pingTick,
                       pingpongTick := t.pingpongTick, waitForPong := t.waitForPong,
                       closeSent := Closed(s, i), log := s.log + Sends(c, s, i))
            && (t.waitForPong <==> s.waitForPong || (PingDue(c, s, i) && c.pongTimeoutSec != 0))
            && t.pingpongTick == (if t.waitForPong && !s.waitForPong then i.t3 else s.pingpongTick)
  {
  }

  /** What the turn sends but for the answer to a ping. */
  function Sends(c: Config, s: State, i: Input): seq<Event> {
    (if !s.over && !s.closeSent && Closed(s, i) then [CloseSent] else []) +
    (if PingDue(c, s, i) then [Ping(i.t3)] else [])
  }

  /** Where a turn in the connected phase leads, and that a pong read ends the wait for it. */
  lemma ConnectedTurn(c: Config, s: State, i: Input)
    requires !s.over && s.run && s.phase == Connected
    ensures var t := Turn(c, s, i);
            && (t.phase == WaitTimeout <==>
                  || GivesUp(c, s, i)
                  || (s.readable && ReadFails(i.pieces))
                  || (i.poll < 0 && !GetsIn(c, s, i, CloseCode)))
            && (t.phase == Closing <==> GetsIn(c, s, i, CloseCode) && !Closed(s, i))
            && (t.phase == Unknown <==> GetsIn(c, s, i, CloseCode) && Closed(s, i))
            && t.phase != Init && t.closeSent == Closed(s, i)
            && (t.waitForPong <==> !GetsIn(c, s, i, PongCode) &&
                                   (s.waitForPong || (PingDue(c, s, i) && c.pongTimeoutSec != 0)))
            && (t.waitForPong ==> t.pingpongTick == if s.waitForPong then s.pingpongTick else i.t3)
            && t.pingTick == (if ReadsIn(c, s, i) then i.t5 else if PingDue(c, s, i) then i.t2 else s.pingTick)
  {
    BeforeReadIs(c, s, i);
    CollectsOpcode(i.pieces, CloseCode);
    CollectsOpcode(i.pieces, PongCode);
    CollectsFailed(i.pieces);
  }

  /** Every other phase: connecting, waiting to connect again for more than the timeout, and closing. */
  lemma OtherTurn(c: Config, s: State, i: Input)
    requires !s.over && s.run && s.phase != Connected
    ensures var t := Turn(c, s, i);
            match s.phase
            case Init =>
              && t == s.(phase := t.phase, reconnectTick := t.reconnectTick, waitForPong := t.waitForPong,
                         readable := t.readable)
              && t.phase == (if i.connected && i.poll >= 0 then Connected else WaitTimeout)
              && (t.waitForPong <==> s.waitForPong && !i.connected)
            case WaitTimeout =>
              if !c.autoReconnect then t == s.(run := false, over := true, phase := Unknown)
              else if i.t1 - s.reconnectTick > c.waitTimeoutMs then t == s.(phase := Init, reconnectTick := i.t2)
              else t == s
            case Closing =>
              t == s.(phase := Unknown, over := true, run := i.closePoll == 0, closeSent := true, log := t.log)
            case _ => t == s
  {
  }

  /** A connection given up is tried again from the time it was given up at. */
  lemma GivenUpAt(c: Config, s: State, i: Input)
    requires !s.over && s.run && (s.phase == Init || s.phase == Connected) && Turn(c, s, i).phase == WaitTimeout
    ensures Turn(c, s, i).reconnectTick ==
            if !c.autoReconnect then s.reconnectTick
            else if s.phase == Init && !i.connected then i.t1
            else if GivesUp(c, s, i) then i.t4
            else i.t6
  {
    if s.phase == Connected {
      BeforeReadIs(c, s, i);
    }
  }

  lemma ReceiveSends(c: Config, s: State, i: Input, n: nat)
    requires s.readable
    ensures CompletesAt(i.pieces, n) && i.pieces[n].opcode == PingCode ==>
              Receive(c, s, i).log == s.log + [PongSent(i.pieces[n].payloadLen)]
    ensures !Brought(i.pieces, PingCode) ==> Receive(c, s, i).log == s.log
  {
    CollectsOpcode(i.pieces, PingCode);
    if CompletesAt(i.pieces, n) {
      CollectsWhole(i.pieces, i.pieces[n].opcode, i.pieces[n].payloadLen);
    }
  }

  lemma TurnKeeps(c: Config, s: State, i: Input)
    requires !s.over
    ensures Turn(c, s, i).log == Dispatch(c, s, i).log && Turn(c, s, i).closeSent == Dispatch(c, s, i).closeSent
    ensures s.closeSent ==> Turn(c, s, i).closeSent
  {
  }

  /** A turn sends the close frame when the bit is set in it, a ping when one is due and the answer to the ping
      it reads, as long as that was, in this order. */
  lemma TurnSends(c: Config, s: State, i: Input, n: nat)
    ensures var log := s.log + Sends(c, s, i);
            && (CompletesAt(i.pieces, n) && i.pieces[n].opcode == PingCode && ReadsIn(c, s, i) ==>
                  Turn(c, s, i).log == log + [PongSent(i.pieces[n].payloadLen)])
            && (!GetsIn(c, s, i, PingCode) ==> Turn(c, s, i).log == log)
  {
    if !s.over {
      TurnKeeps(c, s, i);
      if s.phase == Connected {
        BeforeReadIs(c, s, i);
        if s.readable {
          ReceiveSends(c, BeforeRead(c, s, i), i, n);
        }
      }
    }
  }

  /** What other tasks do: a close frame is sent once, and a send that fails gives a connection up. */
  lemma OtherSteps(c: Config, s: State, now: nat)
    ensures Next(c, s, UserClose) ==
            if s.closeSent then s else s.(closeSent := true, log := s.log + [CloseSent])
    ensures Next(c, s, SendFailure(now)) ==
            if s.phase != Connected then s
            else s.(phase := WaitTimeout, reconnectTick := if c.autoReconnect then now else s.reconnectTick)
  {
  }

  // ----- the deadline belongs to the first unanswered ping -----

  /** The time of the first ping since the last pong or connect, from before a turn to after it. */
  ghost function UnansweredAfter(c: Config, s: State, i: Input, before: Option<nat>): Option<nat> {
    if !s.over && s.phase == Init && i.connected then None
    else if GetsIn(c, s, i, PongCode) then None
    else if PingDue(c, s, i) && before.None? then Some(i.t3)
    else before
  }

  ghost function Unanswered(c: Config, steps: seq<Step>, run: seq<State>, n: nat): Option<nat>
    requires n <= |steps| < |run|
  {
    if n == 0 then None
    else
      var before := Unanswered(c, steps, run, n - 1);
      if steps[n - 1].TaskTurn? then UnansweredAfter(c, run[n - 1], steps[n - 1].input, before) else before
  }

  /** While connected the client waits for a pong exactly when a ping is unanswered and pongs are
      insisted on, and the deadline counts from the first of these pings. */
  ghost predicate Counts(c: Config, s: State, first: Option<nat>) {
    s.phase == Connected ==>
      && (s.waitForPong <==> c.pongTimeoutSec != 0 && first.Some?)
      && (s.waitForPong ==> s.pingpongTick == first.value)
  }

  lemma TurnCounts(c: Config, s: State, i: Input, first: Option<nat>)
    requires Counts(c, s, first) && (s.over || s.run)
    ensures Counts(c, Turn(c, s, i), UnansweredAfter(c, s, i, first))
  {
    if !s.over {
      if s.phase == Connected {
        ConnectedTurn(c, s, i);
      } else {
        OtherTurn(c, s, i);
      }
    }
  }

  /** Inside the loop the flag is set. */
  lemma {:induction false} FlagInside(c: Config, steps: seq<Step>, run: seq<State>, n: nat)
    requires IsRun(c, steps, run) && n < |run|
    ensures run[n].over || run[n].run
  {
    if n > 0 {
      FlagInside(c, steps, run, n - 1);
      assert StepAt(c, steps, run, n - 1);
    }
  }

  lemma {:induction false} RunCounts(c: Config, steps: seq<Step>, run: seq<State>, n: nat)
    requires IsRun(c, steps, run) && n < |run|
    ensures Counts(c, run[n], Unanswered(c, steps, run, n))
  {
    if n > 0 {
      RunCounts(c, steps, run, n - 1);
      FlagInside(c, steps, run, n - 1);
      assert StepAt(c, steps, run, n - 1);
      if steps[n - 1].TaskTurn? {
        TurnCounts(c, run[n - 1], steps[n - 1].input, Unanswered(c, steps, run, n - 1));
      }
    }
  }

  /** In every reachable connected state with a pong outstanding the deadline runs from the first
      unanswered ping.  A turn whose clock has passed it, with no close frame sent, gives the
      connection up; a turn that has not passed it never does so for the pong's sake. */
  lemma PongDeadline(c: Config, steps: seq<Step>, run: seq<State>, n: nat, i: Input)
    requires IsRun(c, steps, run) && n < |run|
    requires run[n].phase == Connected && !run[n].over && run[n].waitForPong && !run[n].closeSent
    ensures var first := Unanswered(c, steps, run, n);
            && first.Some?
            && (i.t4 > first.value + c.pongTimeoutSec * 1000 ==> Turn(c, run[n], i).phase == WaitTimeout)
            && (i.t4 <= first.value + c.pongTimeoutSec * 1000 && i.poll >= 0 && !ReadFails(i.pieces) ==>
                  Turn(c, run[n], i).phase != WaitTimeout)
  {
    RunCounts(c, steps, run, n);
    FlagInside(c, steps, run, n);
    ConnectedTurn(c, run[n], i);
  }

  // ----- no ping after the close frame -----

  function Pings(log: seq<Event>): nat {
    if log == [] then 0
    else Pings(log[..|log| - 1]) + if log[|log| - 1].Ping? then 1 else 0
  }

  lemma PingsAppended(log: seq<Event>, e: Event)
    ensures Pings(log + [e]) == Pings(log) + if e.Ping? then 1 else 0
  {
    assert (log + [e])[..|log|] == log;
  }

  lemma PingsSent(c: Config, s: State, i: Input)
    ensures Pings(s.log + Sends(c, s, i)) == Pings(s.log) + if PingDue(c, s, i) then 1 else 0
  {
    var log := if !s.over && !s.closeSent && Closed(s, i) then s.log + [CloseSent] else s.log;
    PingsAppended(s.log, CloseSent);
    PingsAppended(log, Ping(i.t3));
    assert s.log + Sends(c, s, i) == if PingDue(c, s, i) then log + [Ping(i.t3)] else log;
  }

  /** A turn sends one ping if the client is connected, no close frame was sent and the last ping or read is
      longer ago than the interval, and none otherwise; the close bit, once set, stays set. */
  lemma TurnPings(c: Config, s: State, i: Input)
    ensures Pings(Turn(c, s, i).log) == Pings(s.log) + if PingDue(c, s, i) then 1 else 0
    ensures s.closeSent ==> Turn(c, s, i).closeSent
  {
    PingsSent(c, s, i);
    if !s.over {
      TurnKeeps(c, s, i);
    }
    if GetsIn(c, s, i, PingCode) {
      var n :| 0 <= n < |i.pieces| && CompletesAt(i.pieces, n) && i.pieces[n].opcode == PingCode;
      TurnSends(c, s, i, n);
      PingsAppended(s.log + Sends(c, s, i), PongSent(i.pieces[n].payloadLen));
    } else {
      TurnSends(c, s, i, 0);
    }
  }

  /** Once the close bit is set the client task sends no ping any more, in no later turn. */
  lemma {:induction false} NoPingAfterClose(c: Config, steps: seq<Step>, run: seq<State>, m: nat, n: nat)
    requires IsRun(c, steps, run) && m <= n < |run| && run[m].closeSent
    ensures run[n].closeSent && Pings(run[n].log) == Pings(run[m].log)
  {
    if m < n {
      NoPingAfterClose(c, steps, run, m, n - 1);
      assert StepAt(c, steps, run, n - 1);
      if steps[n - 1].TaskTurn? {
        TurnPings(c, run[n - 1], steps[n - 1].input);
      }
    }
  }

  // ----- closing -----

  /** The close frames have gone both ways by the wait of this turn: the client was closing already, or
      it had sent its own and reads the server's now. */
  ghost predicate ClosesIn(c: Config, s: State, i: Input) {
    s.phase == Closing || (GetsIn(c, s, i, CloseCode) && (s.closeSent || i.closeLater))
  }

  /** The client task leaves its loop with the flag still set, and the connection not closed by the
      server, exactly when the first poll after the close frames says "not yet". */
  lemma LeavesEarlyIff(c: Config, s: State, i: Input)
    requires !s.over && s.run
    ensures var t := Turn(c, s, i);
            && (t.over && t.run <==> ClosesIn(c, s, i) && i.closePoll == 0)
            && (t.over && !t.run <==> (ClosesIn(c, s, i) && i.closePoll != 0) ||
                                      (s.phase == WaitTimeout && !c.autoReconnect))
  {
    if s.phase == Connected {
      BeforeReadIs(c, s, i);
      CollectsOpcode(i.pieces, CloseCode);
    }
  }
}
