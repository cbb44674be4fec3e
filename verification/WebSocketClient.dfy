/** The WebSocket client as an object: the send loop and the body of the client task's loop, each proved to do
    what Fragmentation and PingPong say (esp_websocket_client.c:220-234, 757-807, 811-973, 1097-1161). */
module WebSocketClient {
  import opened Fragmentation
  import opened Options
  import P = PingPong

  const DEFAULT_BUFFER_SIZE := 1024

  /** The size of a buffer is never 0. */
  type Size = n: nat | n >= 1 witness 1

  class Client {
    const config: P.Config
    const bufferSize: Size
    var phase: P.Phase
    var run: bool
    var over: bool
    var reconnectTick: nat
    var pingTick: nat
    var pingpongTick: nat
    var waitForPong: bool
    var closeSent: bool
    /** The last answer of the poll; the client task reads when it is not 0. */
    var readSelect: int
    /** The pings, the close frame and the answers to pings so far. */
    ghost var log: seq<P.Event>

    /** A client whose task has just started; without a size for the buffer it takes the default. */
    constructor (config: P.Config, bufferSize: int)
      ensures this.config == config && this.bufferSize == if bufferSize <= 0 then DEFAULT_BUFFER_SIZE else bufferSize
      ensures P.Started(View())
    {
      this.config, this.bufferSize := config, if bufferSize <= 0 then DEFAULT_BUFFER_SIZE else bufferSize;
      phase, run, over, reconnectTick, pingTick, pingpongTick := P.Init, true, false, 0, 0, 0;
      waitForPong, closeSent, readSelect, log := false, false, 0, [];
    }

    ghost function View(): P.State
      reads this
    {
      P.State(phase, run, over, reconnectTick, pingTick, pingpongTick, waitForPong, closeSent, readSelect != 0, log)
    }

    method AbortConnection(now: nat)
      modifies this
      ensures View() == P.Abort(config, old(View()), now)
    {
      if config.autoReconnect {
        reconnectTick := now;
      }
      phase := P.WaitTimeout;
    }

    /** Send a message in frames of at most bufferSize bytes.  `data` is None for a null pointer;
        `locked` and `buffer` tell whether the lock and the send buffer could be had. */
    method SendWithOpcode(opcode: nat, data: Option<Bytes>, len: int, t: Transport, locked: bool, buffer: bool,
                          now: nat)
        returns (ret: int, frames: seq<Frame>)
      requires Honest(t)
      requires data.Some? && len >= 0 ==> |data.value| == len
      modifies this
      ensures len < 0 || (data.None? && len > 0) || !locked || old(phase) != P.Connected || !buffer ==>
                ret == ESP_FAIL && frames == [] && View() == old(View())
      ensures len >= 0 && (data.Some? || len == 0) && locked && old(phase) == P.Connected && buffer ==>
                var r := Send(t, if data.Some? then data.value else [], opcode, bufferSize);
                && ret == r.code && frames == r.frames
                && View() == if r.aborted then P.Abort(config, old(View()), now) else old(View())
    {
      ret, frames := ESP_FAIL, [];
      if len < 0 || (data.None? && len > 0) { return; }
      if !locked { return; }
      if phase != P.Connected { return; }
      if !buffer { return; }
      var failed;
      ret, frames, failed := SendLoop(t, if data.Some? then data.value else [], opcode, bufferSize);
      if failed {
        AbortConnection(now);
      }
    }

    /** The loop that reads a payload in pieces. */
    method ReadPieces(pieces: seq<P.Read>) returns (received: P.Received)
      ensures received == P.Collect(pieces, 0, 0)
    {
      var payloadOffset, k := 0, 0;
      while true
        invariant 0 <= k <= |pieces|
        invariant P.Collect(pieces, 0, 0) == P.Collect(pieces, k, payloadOffset)
        decreases |pieces| - k
      {
        if k == |pieces| || pieces[k].len < 0 {
          return P.ReadFailed;
        }
        var piece := pieces[k];
        if piece.len == 0 && piece.opcode == P.NoOpcode {
          return P.Nothing;
        }
        payloadOffset := payloadOffset + piece.len;
        if !(payloadOffset < piece.payloadLen) {
          return P.Whole(piece.opcode, piece.payloadLen);
        }
        k := k + 1;
      }
    }

    method ReceiveData(i: P.Input)
      modifies this
      ensures View() == P.Receive(config, old(View()), i)
      ensures old(readSelect) != 0 && P.Brought(i.pieces, P.PongCode) ==> !waitForPong
      ensures old(readSelect) != 0 && P.Brought(i.pieces, P.CloseCode) ==> phase == P.Closing
      ensures old(readSelect) != 0 && P.ReadFails(i.pieces) ==> phase == P.WaitTimeout
    {
      P.CollectsOpcode(i.pieces, P.PongCode);
      P.CollectsOpcode(i.pieces, P.CloseCode);
      P.CollectsFailed(i.pieces);
      if readSelect == 0 { return; }
      pingTick := i.t5;
      var received := ReadPieces(i.pieces);
      match received {
        case ReadFailed => AbortConnection(i.t6);
        case Whole(PingCode, n) => log := log + [P.PongSent(n)];
        case Whole(PongCode, _) => waitForPong := false;
        case Whole(CloseCode, _) => phase := P.Closing;
        case _ =>
      }
    }

    method TaskConnected(i: P.Input)
      modifies this
      ensures View() == P.TurnConnected(config, old(View()), i)
    {
      if !closeSent {
        if i.closeLater {
          // another task closes here, after the bit was looked at
          closeSent, log := true, log + [P.CloseSent];
        }
        if i.t1 - pingTick > config.pingIntervalSec * 1000 {
          pingTick, log := i.t2, log + [P.Ping(i.t3)];
          if !waitForPong && config.pongTimeoutSec != 0 {
            pingpongTick, waitForPong := i.t3, true;
          }
        }
        if i.t4 - pingpongTick > config.pongTimeoutSec * 1000 {
          if waitForPong {
            AbortConnection(i.t4);
            return;
          }
        }
      }
      ReceiveData(i);
    }

    /** The switch over the phase. */
    method TaskSwitch(i: P.Input)
      modifies this
      ensures View() == P.Dispatch(config, old(View()), i)
    {
      match phase {
        case Init =>
          if !i.connected {
            AbortConnection(i.t1);
          } else {
            phase, waitForPong := P.Connected, false;
          }
        case Connected => TaskConnected(i);
        case WaitTimeout =>
          if !config.autoReconnect {
            run := false;
          } else if i.t1 - reconnectTick > config.waitTimeoutMs {
            phase, reconnectTick := P.Init, i.t2;
          }
        case Closing =>
          if !closeSent {
            closeSent, log := true, log + [P.CloseSent];
          }
        case Unknown =>
      }
    }

    /** One turn of the loop of the client task, with the polls at its end. */
    method TaskTurn(i: P.Input)
      modifies this
      ensures View() == P.Turn(config, old(View()), i)
    {
      if over { return; }
      TaskSwitch(i);
      if phase == P.Connected {
        readSelect := i.poll;
        if readSelect < 0 {
          AbortConnection(i.t6);
        }
      } else if phase == P.Closing && closeSent {
        // closed or broken: the flag is cleared; not yet closed: the loop is left all the same
        if i.closePoll != 0 {
          run := false;
        }
        over, phase := true, P.Unknown;
      } else if !run {
        over, phase := true, P.Unknown;
      }
    }
  }
}
