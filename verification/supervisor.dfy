/** The local agent's reconnect loop (`listen_to_supabase`): connect, send
    the join frame, start the heartbeat task, run the receive loop, and
    whatever ends the session (a clean close, a connection error, any
    exception) wait five seconds and start again, forever. The join `ref`
    counter lives outside the loop and grows by one per join frame that
    was actually sent; each heartbeat task counts its own refs from 1.

    The loop never ends on its own, so a run is given as the finite list
    of passes the environment has played so far. */
module Supervisor {
  import opened Wrappers
  import opened Json
  import opened Realtime
  import opened Dispatch

  const BACKOFF_SECONDS: nat := 5

  /** How the peer ended the frame stream after the frames listed. */
  datatype StreamEnd = ClosedOk | ClosedWithError

  /** One pass of the `while True` loop as the environment plays it:
      either `websockets.connect` raised, or the connection opened and the
      join send went some way, the given frames arrived, and the stream
      ended; `heartbeatSends` says how the heartbeat task's sends went. */
  datatype Attempt =
    | ConnectFailed
    | Connected(joinSend: SendResult, frames: seq<Received>, streamEnd: StreamEnd,
                heartbeatSends: seq<SendResult>)

  /** Why a session ended; every cause leads to the same five-second wait. */
  datatype EndCause =
    | ConnectError                // websockets.connect raised
    | JoinClosed                  // the join send hit ConnectionClosed
    | JoinError                   // the join send raised something else
    | StreamFinished              // the `async for` ran out: a clean close
    | StreamBroken                // ConnectionClosedError while reading
    | FrameRaised(error: PyError) // a frame raised out of the loop body

  /** What one pass did. `join` is the join frame when its send went
      through; `heartbeat` is the heartbeat task's log when one was started;
      `heartbeatCancelled` says whether `heartbeat_task.cancel()` was
      reached. */
  datatype SessionRecord = SessionRecord(
    join: Option<Value>,
    heartbeat: Option<HeartbeatLog>,
    heartbeatCancelled: bool,
    effects: seq<Effect>,
    cause: EndCause,
    backoff: nat)

  function Ended(cause: EndCause): SessionRecord {
    SessionRecord(None, None, false, [], cause, BACKOFF_SECONDS)
  }

  /** One pass of the loop with the join counter at `ref`: the new counter
      value and what the pass did. */
  function Session(ref: nat, token: string, loads: string -> Option<Value>, a: Attempt)
    : (res: (nat, SessionRecord))
    ensures res.1.backoff == BACKOFF_SECONDS
    ensures res.1.join.Some? <==> a.Connected? && a.joinSend == Delivered
    ensures res.1.join.Some? ==> res.0 == ref + 1 && res.1.join.value == JoinFrame(token, ref)
    ensures res.1.join.None? ==> res.0 == ref && res.1.effects == [] && res.1.heartbeat.None?
    ensures res.1.join.Some? ==>
              && res.1.effects == Listen(a.frames, loads).effects
              && res.1.heartbeat == Some(HeartbeatTask(a.heartbeatSends))
    ensures res.1.heartbeatCancelled <==> res.1.cause == StreamFinished
    ensures res.1.join.None? ==> !res.1.heartbeatCancelled
    ensures a.ConnectFailed? ==> res.1.cause == ConnectError
    ensures a.Connected? && a.joinSend == PeerClosed ==> res.1.cause == JoinClosed
    ensures a.Connected? && a.joinSend == SendFailed ==> res.1.cause == JoinError
    ensures res.1.join.Some? ==>
              (res.1.cause == StreamFinished <==>
                 Listen(a.frames, loads).raised.None? && a.streamEnd == ClosedOk)
    ensures res.1.join.Some? && Listen(a.frames, loads).raised.Some? ==>
              res.1.cause == FrameRaised(Listen(a.frames, loads).raised.value)
    ensures res.1.join.Some? && Listen(a.frames, loads).raised.None? && a.streamEnd == ClosedWithError ==>
              res.1.cause == StreamBroken
    ensures res.1.heartbeat.Some? ==>
              forall k :: 0 <= k < |res.1.heartbeat.value.delivered| ==>
                res.1.heartbeat.value.delivered[k] == HeartbeatFrame(k + 1)
  {
    match a
    case ConnectFailed => (ref, Ended(ConnectError))
    case Connected(joinSend, frames, streamEnd, heartbeatSends) =>
      match joinSend
      case PeerClosed => (ref, Ended(JoinClosed))
      case SendFailed => (ref, Ended(JoinError))
      case Delivered =>
        var heard := Listen(frames, loads);
        var cause :=
          if heard.raised.Some? then FrameRaised(heard.raised.value)
          else if streamEnd == ClosedOk then StreamFinished
          else StreamBroken;
        (ref + 1, SessionRecord(Some(JoinFrame(token, ref)), Some(HeartbeatTask(heartbeatSends)),
                                cause == StreamFinished, heard.effects, cause, BACKOFF_SECONDS))
  }

  /** The passes played so far, from join counter `ref`. */
  function Run(ref: nat, token: string, loads: string -> Option<Value>, attempts: seq<Attempt>)
    : (res: (nat, seq<SessionRecord>))
    ensures |res.1| == |attempts|
    ensures res.0 >= ref
    decreases |attempts|
  {
    if |attempts| == 0 then (ref, [])
    else
      var first := Session(ref, token, loads, attempts[0]);
      var rest := Run(first.0, token, loads, attempts[1..]);
      (rest.0, [first.1] + rest.1)
  }

  /** The join frames that were sent, in order. */
  function Joins(records: seq<SessionRecord>): seq<Value>
    decreases |records|
  {
    if |records| == 0 then []
    else (if records[0].join.Some? then [records[0].join.value] else []) + Joins(records[1..])
  }

  lemma {:induction false} JoinsAppend(a: seq<SessionRecord>, b: seq<SessionRecord>)
    ensures Joins(a + b) == Joins(a) + Joins(b)
    decreases |a|
  {
    if |a| == 0 {
      assert a + b == b;
    } else {
      assert (a + b)[0] == a[0] && (a + b)[1..] == a[1..] + b;
      JoinsAppend(a[1..], b);
    }
  }

  /** `joins` are join frames for `token` with consecutive refs from `ref`. */
  predicate ConsecutiveJoins(joins: seq<Value>, token: string, ref: nat) {
    forall i :: 0 <= i < |joins| ==> joins[i] == JoinFrame(token, ref + i)
  }

  lemma PrependJoin(token: string, ref: nat, rest: seq<Value>)
    requires ConsecutiveJoins(rest, token, ref + 1)
    ensures ConsecutiveJoins([JoinFrame(token, ref)] + rest, token, ref)
  {
    var joins := [JoinFrame(token, ref)] + rest;
    assert forall i :: 1 <= i < |joins| ==> joins[i] == rest[i - 1];
  }

  /** One more pass in front keeps the join refs consecutive, provided the
      pass bumped the counter exactly when it sent a join with its value. */
  lemma PrependSession(r: SessionRecord, ref: nat, next: nat, rest: seq<SessionRecord>, token: string)
    requires r.join.Some? ==> next == ref + 1 && r.join.value == JoinFrame(token, ref)
    requires r.join.None? ==> next == ref
    requires ConsecutiveJoins(Joins(rest), token, next)
    ensures |Joins([r] + rest)| == |Joins(rest)| + next - ref
    ensures ConsecutiveJoins(Joins([r] + rest), token, ref)
  {
    assert ([r] + rest)[0] == r && ([r] + rest)[1..] == rest;
    if r.join.Some? {
      PrependJoin(token, ref, Joins(rest));
    }
  }

  /** The join counter is never reset: the join frames sent over the whole
      run carry consecutive refs from the starting value, and the counter
      ends one past the last of them. A join whose send failed leaves the
      counter alone, so the next connection's join reuses that ref. */
  lemma {:induction false} JoinRefsConsecutive(ref: nat, token: string, loads: string -> Option<Value>,
                                               attempts: seq<Attempt>)
    ensures var res := Run(ref, token, loads, attempts);
      res.0 == ref + |Joins(res.1)| && ConsecutiveJoins(Joins(res.1), token, ref)
    decreases |attempts|
  {
    if |attempts| > 0 {
      var first := Session(ref, token, loads, attempts[0]);
      JoinRefsConsecutive(first.0, token, loads, attempts[1..]);
      var rest := Run(first.0, token, loads, attempts[1..]);
      PrependSession(first.1, ref, first.0, rest.1, token);
    }
  }

  /** The agent starts the counter at 1: the n-th join frame sent carries
      ref "n", across all reconnections. */
  lemma NthJoinCarriesRefN(token: string, loads: string -> Option<Value>, attempts: seq<Attempt>, n: nat)
    requires 1 <= n <= |Joins(Run(1, token, loads, attempts).1)|
    ensures Joins(Run(1, token, loads, attempts).1)[n - 1] == JoinFrame(token, n)
    ensures RefOf(Joins(Run(1, token, loads, attempts).1)[n - 1]) == Some(n)
  {
    JoinRefsConsecutive(1, token, loads, attempts);
    var joins := Joins(Run(1, token, loads, attempts).1);
    assert ConsecutiveJoins(joins, token, 1);
    assert joins[n - 1] == JoinFrame(token, n);
    JoinFrameReadBack(token, n);
  }

  /** Running the passes one more time extends the record by that pass. */
  lemma {:induction false} RunSnoc(ref: nat, token: string, loads: string -> Option<Value>,
                                   attempts: seq<Attempt>, a: Attempt)
    ensures var before := Run(ref, token, loads, attempts);
      var last := Session(before.0, token, loads, a);
      Run(ref, token, loads, attempts + [a]) == (last.0, before.1 + [last.1])
    decreases |attempts|
  {
    if |attempts| == 0 {
      assert attempts + [a] == [a];
      assert [a][1..] == [];
      var last := Session(ref, token, loads, a);
      assert Run(ref, token, loads, [a]) == (last.0, [last.1] + []);
      assert [last.1] + [] == [] + [last.1];
    } else {
      var first := Session(ref, token, loads, attempts[0]);
      assert (attempts + [a])[0] == attempts[0];
      assert (attempts + [a])[1..] == attempts[1..] + [a];
      RunSnoc(first.0, token, loads, attempts[1..], a);
      var rest := Run(first.0, token, loads, attempts[1..]);
      var before := Run(ref, token, loads, attempts);
      assert before == (rest.0, [first.1] + rest.1);
      var last := Session(rest.0, token, loads, a);
      assert Run(ref, token, loads, attempts + [a]) == (last.0, [first.1] + (rest.1 + [last.1]));
      assert [first.1] + (rest.1 + [last.1]) == before.1 + [last.1];
    }
  }

  /** The `while True` loop itself, over the passes played so far: every
      pass, however it ended, is followed by the backoff and another pass. */
  method Supervise(token: string, loads: string -> Option<Value>, attempts: seq<Attempt>)
    returns (ref: nat, records: seq<SessionRecord>)
    ensures (ref, records) == Run(1, token, loads, attempts)
    ensures |records| == |attempts|
    ensures forall i :: 0 <= i < |records| ==> records[i].backoff == BACKOFF_SECONDS
    ensures ref == 1 + |Joins(records)|
  {
    ref, records := 1, [];
    var rest := attempts;
    assert records + Run(ref, token, loads, rest).1 == Run(ref, token, loads, rest).1;
    while rest != []
      invariant Run(1, token, loads, attempts) == (Run(ref, token, loads, rest).0, records + Run(ref, token, loads, rest).1)
      invariant forall k :: 0 <= k < |records| ==> records[k].backoff == BACKOFF_SECONDS
      decreases |rest|
    {
      var pass := Session(ref, token, loads, rest[0]);
      var later := Run(pass.0, token, loads, rest[1..]);
      assert records + ([pass.1] + later.1) == (records + [pass.1]) + later.1;
      ref, records, rest := pass.0, records + [pass.1], rest[1..];
    }
    assert records + [] == records;
    JoinRefsConsecutive(1, token, loads, attempts);
  }
}
