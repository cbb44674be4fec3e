/** How a message is cut into WebSocket frames (esp_websocket_client.c:1097-1161; section 5.4 of RFC 6455). */
module Fragmentation {

  type Bytes = seq<bv8>

  /** A frame handed to the transport. */
  datatype Frame = Frame(opcode: nat, fin: bool, payload: Bytes)

  /** What the transport answers to the n-th frame of so many bytes: the bytes it took, or an error. */
  type Transport = (nat, nat) -> int

  const ESP_FAIL := -1

  /** A transport takes no more than it is offered. */
  ghost predicate Honest(t: Transport) {
    forall n: nat, k: nat :: t(n, k) <= k
  }

  datatype Sent = Sent(frames: seq<Frame>, code: int, aborted: bool)

  /** The frame for the next chunk, `at` bytes being through. */
  function NextFrame(data: Bytes, opcode: nat, buffer: nat, at: nat): Frame
    requires at <= |data|
  {
    var left := |data| - at;
    if left > buffer then Frame(opcode, false, data[at..at + buffer])
    else Frame(opcode, true, data[at..])
  }

  predicate Failed(taken: int, offered: nat) {
    taken < 0 || (taken == 0 && offered != 0)
  }

  /** The send loop, `at` bytes and n frames being through. */
  function SendFrom(t: Transport, data: Bytes, opcode: nat, buffer: nat, at: nat, n: nat): Sent
    requires Honest(t) && at <= |data| && buffer >= 1
    decreases |data| - at, opcode
  {
    if at >= |data| && opcode == 0 then Sent([], at, false)
    else
      var f := NextFrame(data, opcode, buffer, at);
      var taken := t(n, |f.payload|);
      if Failed(taken, |f.payload|) then Sent([f], taken, true)
      else
        var rest := SendFrom(t, data, 0, buffer, at + taken, n + 1);
        rest.(frames := [f] + rest.frames)
  }

  function Send(t: Transport, data: Bytes, opcode: nat, buffer: nat): Sent
    requires Honest(t) && buffer >= 1
  {
    SendFrom(t, data, opcode, buffer, 0, 0)
  }

  /** These frames, `at` bytes being through and `current` next, are on the way to what Send says. */
  ghost predicate OnTheWay(t: Transport, data: Bytes, opcode: nat, buffer: nat, current: nat, at: nat,
                           frames: seq<Frame>)
    requires Honest(t) && buffer >= 1 && at <= |data|
  {
    var rest := SendFrom(t, data, current, buffer, at, |frames|);
    Send(t, data, opcode, buffer) == Sent(frames + rest.frames, rest.code, rest.aborted)
  }

  lemma OnTheWayFails(t: Transport, data: Bytes, opcode: nat, buffer: nat, current: nat, at: nat,
                      frames: seq<Frame>)
    requires Honest(t) && buffer >= 1 && at <= |data| && (at < |data| || current != 0)
    requires OnTheWay(t, data, opcode, buffer, current, at, frames)
    ensures var f := NextFrame(data, current, buffer, at);
            var taken := t(|frames|, |f.payload|);
            Failed(taken, |f.payload|) ==> Send(t, data, opcode, buffer) == Sent(frames + [f], taken, true)
  {
  }

  lemma OnTheWayOn(t: Transport, data: Bytes, opcode: nat, buffer: nat, current: nat, at: nat,
                   frames: seq<Frame>)
    requires Honest(t) && buffer >= 1 && at <= |data| && (at < |data| || current != 0)
    requires OnTheWay(t, data, opcode, buffer, current, at, frames)
    ensures var f := NextFrame(data, current, buffer, at);
            var taken := t(|frames|, |f.payload|);
            !Failed(taken, |f.payload|) ==> OnTheWay(t, data, opcode, buffer, 0, at + taken, frames + [f])
  {
    var f := NextFrame(data, current, buffer, at);
    var taken := t(|frames|, |f.payload|);
    if !Failed(taken, |f.payload|) {
      var after := SendFrom(t, data, 0, buffer, at + taken, |frames| + 1);
      assert |frames + [f]| == |frames| + 1;
      assert frames + ([f] + after.frames) == (frames + [f]) + after.frames;
    }
  }

  lemma OnTheWayEnds(t: Transport, data: Bytes, opcode: nat, buffer: nat, frames: seq<Frame>)
    requires Honest(t) && buffer >= 1
    requires OnTheWay(t, data, opcode, buffer, 0, |data|, frames)
    ensures Send(t, data, opcode, buffer) == Sent(frames, |data|, false)
  {
    assert SendFrom(t, data, 0, buffer, |data|, |frames|) == Sent([], |data|, false);
  }

  /** Cuts the next chunk off, to the size of the buffer, and marks the last one. */
  method NextChunk(data: Bytes, current: nat, buffer: nat, widx: nat, needWrite: nat) returns (frame: Frame, size: nat)
    requires widx <= |data| && needWrite == |data| - widx
    ensures frame == NextFrame(data, current, buffer, widx) && size == |frame.payload|
  {
    size := needWrite;
    var fin := false;
    if size > buffer {
      size := buffer;
    } else {
      fin := true;
    }
    frame := Frame(current, fin, data[widx..widx + size]);
  }

  /** The loop itself; `widx` bytes are through and the next frame carries `current`. */
  method SendLoop(t: Transport, data: Bytes, opcode: nat, buffer: nat)
      returns (ret: int, frames: seq<Frame>, failed: bool)
    requires Honest(t) && buffer >= 1
    ensures Sent(frames, ret, failed) == Send(t, data, opcode, buffer)
  {
    frames := [];
    var current, needWrite, widx := opcode, |data|, 0;
    while widx < |data| || current != 0
      invariant 0 <= widx <= |data| && needWrite == |data| - widx
      invariant OnTheWay(t, data, opcode, buffer, current, widx, frames)
      decreases |data| - widx, current
    {
      var frame;
      frame, needWrite := NextChunk(data, current, buffer, widx, needWrite);
      var wlen := t(|frames|, needWrite);
      if wlen < 0 || (wlen == 0 && needWrite != 0) {
        OnTheWayFails(t, data, opcode, buffer, current, widx, frames);
        return wlen, frames + [frame], true;
      }
      OnTheWayOn(t, data, opcode, buffer, current, widx, frames);
      frames := frames + [frame];
      current := 0;
      widx := widx + wlen;
      needWrite := |data| - widx;
    }
    OnTheWayEnds(t, data, opcode, buffer, frames);
    return widx, frames, false;
  }

  // ----- what arrives -----

  function Payload(frames: seq<Frame>): Bytes {
    if frames == [] then [] else frames[0].payload + Payload(frames[1..])
  }

  /** The transport took every frame whole. */
  ghost predicate TookAll(t: Transport, frames: seq<Frame>, n: nat) {
    forall i :: 0 <= i < |frames| ==> t(n + i, |frames[i].payload|) == |frames[i].payload|
  }

  /** A message in the sense of section 5.4: the first frame alone carries the opcode, the last alone FIN. */
  ghost predicate IsMessage(frames: seq<Frame>, opcode: nat) {
    && frames != []
    && forall i :: 0 <= i < |frames| ==>
         (frames[i].opcode, frames[i].fin) == (if i == 0 then opcode else 0, i == |frames| - 1)
  }

  lemma TookAllCons(t: Transport, f: Frame, rest: seq<Frame>, n: nat)
    ensures TookAll(t, [f] + rest, n) <==> t(n, |f.payload|) == |f.payload| && TookAll(t, rest, n + 1)
  {
    var frames := [f] + rest;
    if TookAll(t, frames, n) {
      assert frames[0] == f;
      forall i | 0 <= i < |rest| ensures t(n + 1 + i, |rest[i].payload|) == |rest[i].payload| {
        assert frames[i + 1] == rest[i];
      }
    }
    if t(n, |f.payload|) == |f.payload| && TookAll(t, rest, n + 1) {
      forall i | 0 <= i < |frames| ensures t(n + i, |frames[i].payload|) == |frames[i].payload| {
        if i > 0 {
          assert frames[i] == rest[i - 1];
          assert t(n + 1 + (i - 1), |rest[i - 1].payload|) == |rest[i - 1].payload|;
        }
      }
    }
  }

  lemma PayloadCons(f: Frame, rest: seq<Frame>)
    ensures Payload([f] + rest) == f.payload + Payload(rest)
  {
    assert ([f] + rest)[1..] == rest;
  }

  lemma IsMessageCons(f: Frame, rest: seq<Frame>)
    requires !f.fin && IsMessage(rest, 0)
    ensures IsMessage([f] + rest, f.opcode)
  {
  }

  lemma FirstTaken(t: Transport, data: Bytes, opcode: nat, buffer: nat, at: nat, n: nat)
    requires Honest(t) && at <= |data| && buffer >= 1 && (opcode != 0 || at < |data|)
    requires TookAll(t, SendFrom(t, data, opcode, buffer, at, n).frames, n)
    ensures var k := |NextFrame(data, opcode, buffer, at).payload|; t(n, k) == k
  {
    var r := SendFrom(t, data, opcode, buffer, at, n);
    assert r.frames[0] == NextFrame(data, opcode, buffer, at);
    assert t(n + 0, |r.frames[0].payload|) == |r.frames[0].payload|;
  }

  lemma LastFrame(t: Transport, data: Bytes, opcode: nat, buffer: nat, at: nat, n: nat)
    requires Honest(t) && at <= |data| && buffer >= 1 && (opcode != 0 || at < |data|)
    requires |data| - at <= buffer && t(n, |data| - at) == |data| - at
    ensures SendFrom(t, data, opcode, buffer, at, n) == Sent([Frame(opcode, true, data[at..])], |data|, false)
  {
    assert SendFrom(t, data, 0, buffer, |data|, n + 1) == Sent([], |data|, false);
  }

  lemma InnerFrame(t: Transport, data: Bytes, opcode: nat, buffer: nat, at: nat, n: nat)
    requires Honest(t) && at <= |data| && buffer >= 1
    requires |data| - at > buffer && t(n, buffer) == buffer
    ensures var rest := SendFrom(t, data, 0, buffer, at + buffer, n + 1);
            SendFrom(t, data, opcode, buffer, at, n) ==
            rest.(frames := [Frame(opcode, false, data[at..at + buffer])] + rest.frames)
  {
  }

  /** What a send that went well put on the wire from position `at` on. */
  ghost predicate Delivered(data: Bytes, opcode: nat, at: nat, r: Sent)
    requires at <= |data|
  {
    IsMessage(r.frames, opcode) && Payload(r.frames) == data[at..] && r == Sent(r.frames, |data|, false)
  }

  lemma DeliveredLast(data: Bytes, opcode: nat, at: nat)
    requires at <= |data|
    ensures Delivered(data, opcode, at, Sent([Frame(opcode, true, data[at..])], |data|, false))
  {
    PayloadCons(Frame(opcode, true, data[at..]), []);
  }

  lemma DeliveredCons(data: Bytes, opcode: nat, at: nat, buffer: nat, rest: Sent)
    requires at + buffer <= |data| && Delivered(data, 0, at + buffer, rest)
    ensures var f := Frame(opcode, false, data[at..at + buffer]);
            Delivered(data, opcode, at, rest.(frames := [f] + rest.frames))
  {
    var f := Frame(opcode, false, data[at..at + buffer]);
    PayloadCons(f, rest.frames);
    IsMessageCons(f, rest.frames);
    assert data[at..] == f.payload + data[at + buffer..];
  }

  lemma {:induction false} SendFromDelivers(t: Transport, data: Bytes, opcode: nat, buffer: nat, at: nat, n: nat)
    requires Honest(t) && at <= |data| && buffer >= 1 && (opcode != 0 || at < |data|)
    requires TookAll(t, SendFrom(t, data, opcode, buffer, at, n).frames, n)
    ensures Delivered(data, opcode, at, SendFrom(t, data, opcode, buffer, at, n))
    decreases |data| - at
  {
    FirstTaken(t, data, opcode, buffer, at, n);
    if |data| - at <= buffer {
      LastFrame(t, data, opcode, buffer, at, n);
      DeliveredLast(data, opcode, at);
    } else {
      InnerFrame(t, data, opcode, buffer, at, n);
      var rest := SendFrom(t, data, 0, buffer, at + buffer, n + 1);
      TookAllCons(t, Frame(opcode, false, data[at..at + buffer]), rest.frames, n);
      SendFromDelivers(t, data, 0, buffer, at + buffer, n + 1);
      DeliveredCons(data, opcode, at, buffer, rest);
    }
  }

  /** Bytes offered to the transport. */
  lemma {:induction false} OfferedBytes(t: Transport, data: Bytes, opcode: nat, buffer: nat, at: nat, n: nat)
    requires Honest(t) && at <= |data| && buffer >= 1
    requires !SendFrom(t, data, opcode, buffer, at, n).aborted
    ensures var r := SendFrom(t, data, opcode, buffer, at, n);
            && r.code == |data|
            && |Payload(r.frames)| >= |data| - at
            && (|Payload(r.frames)| == |data| - at ==> TookAll(t, r.frames, n))
    decreases |data| - at, opcode
  {
    if !(at >= |data| && opcode == 0) {
      var f := NextFrame(data, opcode, buffer, at);
      var taken := t(n, |f.payload|);
      var rest := SendFrom(t, data, 0, buffer, at + taken, n + 1);
      OfferedBytes(t, data, 0, buffer, at + taken, n + 1);
      TookAllCons(t, f, rest.frames, n);
      PayloadCons(f, rest.frames);
    }
  }

  /** A continuation without bytes: nothing is sent. */
  lemma NothingToSend(t: Transport, buffer: nat)
    requires Honest(t) && buffer >= 1
    ensures Send(t, [], 0, buffer) == Sent([], 0, false)
  {
  }

  /** Every message, of any length and with any buffer, is fragmented as section 5.4 asks when the
      transport takes each chunk whole, and the length is returned; an empty message is one frame.
      Only a continuation (opcode 0) without bytes is no frame at all. */
  lemma MessageFragmented(t: Transport, data: Bytes, opcode: nat, buffer: nat)
    requires Honest(t) && buffer >= 1
    requires TookAll(t, Send(t, data, opcode, buffer).frames, 0)
    ensures var r := Send(t, data, opcode, buffer);
            && Payload(r.frames) == data && r == Sent(r.frames, |data|, false)
            && if opcode == 0 && data == [] then r.frames == [] else IsMessage(r.frames, opcode)
  {
    if opcode == 0 && data == [] {
      NothingToSend(t, buffer);
    } else {
      SendFromDelivers(t, data, opcode, buffer, 0, 0);
      assert data[0..] == data;
    }
  }

  /** That the transport takes each chunk whole is exactly what it needs: a send that did not fail
      offered the message's bytes, and only those, if and only if no chunk was taken in part. */
  lemma FragmentedIffTookAll(t: Transport, data: Bytes, opcode: nat, buffer: nat)
    requires Honest(t) && buffer >= 1
    requires !Send(t, data, opcode, buffer).aborted
    ensures var r := Send(t, data, opcode, buffer);
            && r.code == |data|
            && (Payload(r.frames) == data && (r.frames == [] || IsMessage(r.frames, opcode)) <==>
                TookAll(t, r.frames, 0))
  {
    OfferedBytes(t, data, opcode, buffer, 0, 0);
    if TookAll(t, Send(t, data, opcode, buffer).frames, 0) {
      MessageFragmented(t, data, opcode, buffer);
    }
  }

  // ----- failed sends -----

  /** The answer to the last frame refused it: an error, or no byte of a frame that is not empty. */
  ghost predicate LastRefused(t: Transport, frames: seq<Frame>, n: nat) {
    frames != [] &&
    var last := frames[|frames| - 1].payload;
    Failed(t(n + |frames| - 1, |last|), |last|)
  }

  lemma LastOfCons(t: Transport, f: Frame, rest: seq<Frame>, n: nat)
    requires rest != []
    ensures ([f] + rest)[|rest|] == rest[|rest| - 1]
    ensures LastRefused(t, [f] + rest, n) <==> LastRefused(t, rest, n + 1)
  {
  }

  /** What an aborted send has to do with its last frame. */
  ghost predicate AbortsRightly(t: Transport, r: Sent, n: nat) {
    && (r.aborted <==> LastRefused(t, r.frames, n))
    && (r.aborted ==> r.code == t(n + |r.frames| - 1, |r.frames[|r.frames| - 1].payload|))
  }

  lemma AbortsCons(t: Transport, f: Frame, rest: Sent, n: nat)
    requires AbortsRightly(t, rest, n + 1) && !Failed(t(n, |f.payload|), |f.payload|)
    ensures AbortsRightly(t, rest.(frames := [f] + rest.frames), n)
  {
    if rest.frames != [] {
      LastOfCons(t, f, rest.frames, n);
    }
  }

  lemma {:induction false} SendFromAborts(t: Transport, data: Bytes, opcode: nat, buffer: nat, at: nat, n: nat)
    requires Honest(t) && at <= |data| && buffer >= 1
    ensures AbortsRightly(t, SendFrom(t, data, opcode, buffer, at, n), n)
    decreases |data| - at, opcode
  {
    if !(at >= |data| && opcode == 0) {
      var f := NextFrame(data, opcode, buffer, at);
      var taken := t(n, |f.payload|);
      if !Failed(taken, |f.payload|) {
        var rest := SendFrom(t, data, 0, buffer, at + taken, n + 1);
        SendFromAborts(t, data, 0, buffer, at + taken, n + 1);
        AbortsCons(t, f, rest, n);
      }
    }
  }

  /** A send aborts exactly when the transport refuses its last frame, and returns that answer; so it
      returns 0 for an aborted send exactly when no byte of a nonempty frame was taken. */
  lemma AbortedIff(t: Transport, data: Bytes, opcode: nat, buffer: nat)
    requires Honest(t) && buffer >= 1
    ensures var r := Send(t, data, opcode, buffer);
            && (r.aborted <==> LastRefused(t, r.frames, 0))
            && (r.aborted && r.code == 0 <==>
                && r.frames != [] && r.frames[|r.frames| - 1].payload != []
                && t(|r.frames| - 1, |r.frames[|r.frames| - 1].payload|) == 0)
  {
    SendFromAborts(t, data, opcode, buffer, 0, 0);
  }

  /** In particular a transport that takes nothing makes every message with bytes fail with 0, the same
      code an empty message succeeds with. */
  lemma ZeroWriteReturnsZero(t: Transport, data: Bytes, opcode: nat, buffer: nat)
    requires (forall n, k :: t(n, k) == 0) && buffer >= 1
    ensures var r := Send(t, data, opcode, buffer);
            r.code == 0 && (r.aborted <==> data != [])
  {
    var f := NextFrame(data, opcode, buffer, 0);
    assert f.payload == [] <==> data == [];
    assert t(0, |f.payload|) == 0;
    if data == [] {
      assert SendFrom(t, data, 0, buffer, 0, 1) == Sent([], 0, false);
    }
  }
}
