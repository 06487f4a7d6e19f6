/** The local agent's receive loop: each text frame is parsed with
    `json.loads`, a `phx_reply` with status "ok" is logged, and a
    `postgres_changes` INSERT whose `data.action` is a key of `ACTION_MAP`
    calls that handler with `data.payload`. Every Python exception raised
    on the way (a bad frame, a missing key, a handler that raises) leaves
    the loop, and with it the session. */
module Dispatch {
  import opened Wrappers
  import opened Json
  import opened Realtime

  /** What handling a frame leaves behind, in order. */
  datatype Effect =
    | LoggedSubscribed                         // "Successfully subscribed" log line
    | Invoked(action: Action, payload: Value)  // ACTION_MAP[action](payload)
    | LoggedUnknown(received: Value)           // "Unknown action received" warning

  /** A received text frame, and whether the handler it would call raises
      (the handlers are OS calls outside the model; whether one raises is
      part of the environment). */
  datatype Received = Received(text: string, handlerRaises: bool)

  /** The effects of one frame, or of a run of frames, and the exception
      that ended it, if any. */
  datatype FrameResult = FrameResult(effects: seq<Effect>, raised: Option<PyError>)

  /** Reference definition of a command frame: an object whose `event` is
      "postgres_changes", whose `payload` is an object with `type` "INSERT"
      and an object `data`, and whose `data.action` is exactly one of the
      action names. Yields the action and `data.payload` (null if absent). */
  function CommandOf(m: Value): Option<(Action, Value)> {
    if !m.JObject? then None
    else
      var f := m.fields;
      if !("event" in f && f["event"] == JStr("postgres_changes")) then None
      else if !("payload" in f && f["payload"].JObject?) then None
      else
        var p := f["payload"].fields;
        if !("type" in p && p["type"] == JStr("INSERT") && "data" in p && p["data"].JObject?) then None
        else
          var d := p["data"].fields;
          if !("action" in d && d["action"].JStr?) then None
          else match LookupAction(d["action"].s)
            case None => None
            case Some(a) => Some((a, GetOr(d, "payload", JNull)))
  }

  /** The `if action in ACTION_MAP` step on the command object `cmd`. */
  function DispatchCommand(cmd: map<string, Value>, handlerRaises: bool): (r: FrameResult)
    ensures |r.effects| <= 1
    ensures r.raised == Some(TypeError) <==> !Hashable(GetOr(cmd, "action", JNull))
    ensures forall a: Action :: GetOr(cmd, "action", JNull) == JStr(ActionName(a)) ==>
              r.effects == [Invoked(a, GetOr(cmd, "payload", JNull))] && (r.raised.Some? <==> handlerRaises)
    ensures forall e :: e in r.effects && e.Invoked? ==>
              GetOr(cmd, "action", JNull) == JStr(ActionName(e.action)) && e.payload == GetOr(cmd, "payload", JNull)
  {
    var action := GetOr(cmd, "action", JNull);
    var payload := GetOr(cmd, "payload", JNull);
    if !Hashable(action) then FrameResult([], Some(TypeError))
    else if action.JStr? && LookupAction(action.s).Some? then
      FrameResult([Invoked(LookupAction(action.s).value, payload)],
                  if handlerRaises then Some(HandlerError) else None)
    else FrameResult([LoggedUnknown(action)], None)
  }

  /** The second `if` of the loop body:
      `message["payload"]["type"] == "INSERT"`, then `message["payload"]["data"]`
      and its `.get`s. */
  function HandleChange(m: Value, handlerRaises: bool): (r: FrameResult)
    ensures |r.effects| <= 1
    ensures m.JObject? && GetOr(m.fields, "event", JNull) == JStr("postgres_changes") ==>
              && (CommandOf(m).Some? ==>
                    r.effects == [Invoked(CommandOf(m).value.0, CommandOf(m).value.1)]
                    && (r.raised.Some? <==> handlerRaises))
              && (CommandOf(m).None? ==> forall e :: e in r.effects ==> !e.Invoked?)
  {
    match Subscript(m, "payload")
    case Err(e) => FrameResult([], Some(e))
    case Ok(p) =>
      match Subscript(p, "type")
      case Err(e) => FrameResult([], Some(e))
      case Ok(t) =>
        if t != JStr("INSERT") then FrameResult([], None)
        else match Subscript(p, "data")
          case Err(e) => FrameResult([], Some(e))
          case Ok(cmd) =>
            if !cmd.JObject? then FrameResult([], Some(AttributeError))
            else DispatchCommand(cmd.fields, handlerRaises)
  }

  /** The loop body on a parsed frame `m`. */
  function HandleMessage(m: Value, handlerRaises: bool): (r: FrameResult)
    ensures |r.effects| <= 1
    ensures CommandOf(m).Some? ==>
              r.effects == [Invoked(CommandOf(m).value.0, CommandOf(m).value.1)]
              && (r.raised.Some? <==> handlerRaises)
    ensures CommandOf(m).None? ==> forall e :: e in r.effects ==> !e.Invoked?
  {
    match Get(m, "event")
    case Err(e) => FrameResult([], Some(e))
    case Ok(event) =>
      var logged: Result<seq<Effect>, PyError> :=
        if event == JStr("phx_reply") then
          match Get(GetOr(m.fields, "payload", JObject(map[])), "status")
          case Err(e) => Err(e)
          case Ok(status) => Ok(if status == JStr("ok") then [LoggedSubscribed] else [])
        else Ok([]);
      match logged
      case Err(e) => FrameResult([], Some(e))
      case Ok(logs) =>
        if event != JStr("postgres_changes") then FrameResult(logs, None)
        else
          var c := HandleChange(m, handlerRaises);
          FrameResult(logs + c.effects, c.raised)
  }

  /** One received frame: `json.loads` first. */
  function HandleFrame(msg: Received, loads: string -> Option<Value>): (r: FrameResult)
    ensures |r.effects| <= 1
    ensures r.raised.None? ==> loads(msg.text).Some? && loads(msg.text).value.JObject?
    ensures forall e :: e in r.effects && e.Invoked? ==>
              loads(msg.text).Some? && CommandOf(loads(msg.text).value) == Some((e.action, e.payload))
  {
    match loads(msg.text)
    case None => FrameResult([], Some(JsonDecodeError))
    case Some(m) => HandleMessage(m, msg.handlerRaises)
  }

  /** The `async for` loop over the frames of one connection, for any
      per-frame step `handle`: one frame at a time, in arrival order, until
      a frame raises. */
  function Loop(msgs: seq<Received>, handle: Received -> FrameResult): FrameResult
    decreases |msgs|
  {
    if |msgs| == 0 then FrameResult([], None)
    else
      var h := handle(msgs[0]);
      if h.raised.Some? then h
      else
        var rest := Loop(msgs[1..], handle);
        FrameResult(h.effects + rest.effects, rest.raised)
  }

  /** The receive loop of the agent: the loop above with the frame step. */
  function Listen(msgs: seq<Received>, loads: string -> Option<Value>): (r: FrameResult)
    ensures r.raised.None? <==> forall i :: 0 <= i < |msgs| ==> HandleFrame(msgs[i], loads).raised.None?
    ensures r.raised.Some? ==> exists i :: 0 <= i < |msgs| && HandleFrame(msgs[i], loads).raised == r.raised
  {
    LoopRaisesIffSomeFrameRaises(msgs, m => HandleFrame(m, loads));
    Loop(msgs, m => HandleFrame(m, loads))
  }

  // ---------------------------------------------------------------- frame lemmas

  /** A command frame calls its handler exactly once, with `data.payload`;
      the handler's exception, if it raises one, ends the loop. */
  lemma CommandFrameInvokesOnce(msg: Received, loads: string -> Option<Value>, a: Action, payload: Value)
    requires loads(msg.text).Some? && CommandOf(loads(msg.text).value) == Some((a, payload))
    ensures HandleFrame(msg, loads).effects == [Invoked(a, payload)]
    ensures HandleFrame(msg, loads).raised == (if msg.handlerRaises then Some(HandlerError) else None)
  {
  }

  /** An INSERT whose action is a string that is not an `ACTION_MAP` key
      (matching is case-sensitive) only logs a warning. */
  lemma UnknownActionOnlyWarns(fields: map<string, Value>, p: map<string, Value>,
                               d: map<string, Value>, name: string, handlerRaises: bool)
    requires "event" in fields && fields["event"] == JStr("postgres_changes")
    requires "payload" in fields && fields["payload"] == JObject(p)
    requires "type" in p && p["type"] == JStr("INSERT") && "data" in p && p["data"] == JObject(d)
    requires "action" in d && d["action"] == JStr(name) && LookupAction(name).None?
    ensures HandleMessage(JObject(fields), handlerRaises) == FrameResult([LoggedUnknown(JStr(name))], None)
  {
  }

  /** An INSERT without an `action` field logs the warning for None. */
  lemma MissingActionOnlyWarns(fields: map<string, Value>, p: map<string, Value>,
                               d: map<string, Value>, handlerRaises: bool)
    requires "event" in fields && fields["event"] == JStr("postgres_changes")
    requires "payload" in fields && fields["payload"] == JObject(p)
    requires "type" in p && p["type"] == JStr("INSERT") && "data" in p && p["data"] == JObject(d)
    requires "action" !in d
    ensures HandleMessage(JObject(fields), handlerRaises) == FrameResult([LoggedUnknown(JNull)], None)
  {
  }

  /** A `phx_reply` never calls a handler. It logs the subscription when
      its payload (an empty dict if absent) has status "ok", and raises
      only when a `payload` is present but is not a dict. */
  lemma ReplyOnlyLogs(fields: map<string, Value>, handlerRaises: bool)
    requires "event" in fields && fields["event"] == JStr("phx_reply")
    ensures var r := HandleMessage(JObject(fields), handlerRaises);
      var p := GetOr(fields, "payload", JObject(map[]));
      && (forall e :: e in r.effects ==> !e.Invoked?)
      && (r.raised.Some? <==> !p.JObject?)
      && (r.effects == [LoggedSubscribed] <==>
            p.JObject? && "status" in p.fields && p.fields["status"] == JStr("ok"))
  {
  }

  /** A dict frame whose event is neither "phx_reply" nor "postgres_changes"
      (or that has no event) does nothing and does not raise. */
  lemma OtherEventIgnored(fields: map<string, Value>, handlerRaises: bool)
    requires GetOr(fields, "event", JNull) != JStr("phx_reply")
    requires GetOr(fields, "event", JNull) != JStr("postgres_changes")
    ensures HandleMessage(JObject(fields), handlerRaises) == FrameResult([], None)
  {
  }

  /** A `postgres_changes` frame without `payload`, or whose payload lacks
      `type`, raises out of the loop; so does an INSERT lacking `data`. */
  lemma MalformedChangeRaises(fields: map<string, Value>, handlerRaises: bool)
    requires "event" in fields && fields["event"] == JStr("postgres_changes")
    requires || "payload" !in fields
             || (fields["payload"].JObject? && "type" !in fields["payload"].fields)
             || (fields["payload"].JObject? && "type" in fields["payload"].fields
                 && fields["payload"].fields["type"] == JStr("INSERT")
                 && "data" !in fields["payload"].fields)
    ensures HandleMessage(JObject(fields), handlerRaises) == FrameResult([], Some(KeyError))
  {
  }

  /** Text that `json.loads` rejects, and JSON that is not an object, raise. */
  lemma UndecodableOrNonObjectRaises(msg: Received, loads: string -> Option<Value>)
    requires loads(msg.text).None? || !loads(msg.text).value.JObject?
    ensures HandleFrame(msg, loads).raised.Some? && HandleFrame(msg, loads).effects == []
  {
  }

  // ---------------------------------------------------------------- loop lemmas

  /** One step of the loop: the first frame is handled, and unless it
      raised, the rest follow. */
  lemma LoopCons(m: Received, rest: seq<Received>, handle: Received -> FrameResult)
    ensures var h := handle(m);
      Loop([m] + rest, handle) ==
        if h.raised.Some? then h
        else FrameResult(h.effects + Loop(rest, handle).effects, Loop(rest, handle).raised)
  {
    assert ([m] + rest)[0] == m && ([m] + rest)[1..] == rest;
  }

  /** The loop ends without an exception exactly when no frame raises, and
      an exception that ends it is one some frame raised. */
  lemma {:induction false} LoopRaisesIffSomeFrameRaises(msgs: seq<Received>, handle: Received -> FrameResult)
    ensures Loop(msgs, handle).raised.None? <==>
              forall i :: 0 <= i < |msgs| ==> handle(msgs[i]).raised.None?
    ensures Loop(msgs, handle).raised.Some? ==>
              exists i :: 0 <= i < |msgs| && handle(msgs[i]).raised == Loop(msgs, handle).raised
    decreases |msgs|
  {
    if |msgs| > 0 {
      LoopRaisesIffSomeFrameRaises(msgs[1..], handle);
      assert forall i :: 1 <= i < |msgs| ==> msgs[i] == msgs[1..][i - 1];
      if handle(msgs[0]).raised.None? && Loop(msgs, handle).raised.Some? {
        var i :| 0 <= i < |msgs[1..]| && handle(msgs[1..][i]).raised == Loop(msgs, handle).raised;
        assert msgs[i + 1] == msgs[1..][i];
      }
    }
  }

  /** Frames that do not raise pass control on: the loop over `pre + rest`
      is the loop over `pre` followed by the loop over `rest`. */
  lemma {:induction false} LoopAfterQuietFrames(pre: seq<Received>, rest: seq<Received>,
                                                handle: Received -> FrameResult)
    requires forall i :: 0 <= i < |pre| ==> handle(pre[i]).raised.None?
    ensures Loop(pre + rest, handle) ==
              FrameResult(Loop(pre, handle).effects + Loop(rest, handle).effects,
                          Loop(rest, handle).raised)
    decreases |pre|
  {
    var tail := Loop(rest, handle);
    if |pre| == 0 {
      assert pre + rest == rest;
      assert [] + tail.effects == tail.effects;
    } else {
      var h := handle(pre[0]);
      assert h.raised.None?;
      assert pre + rest == [pre[0]] + (pre[1..] + rest);
      assert pre == [pre[0]] + pre[1..];
      LoopCons(pre[0], pre[1..] + rest, handle);
      LoopCons(pre[0], pre[1..], handle);
      LoopAfterQuietFrames(pre[1..], rest, handle);
      var mid := Loop(pre[1..], handle);
      assert h.effects + (mid.effects + tail.effects) == (h.effects + mid.effects) + tail.effects;
    }
  }

  /** Frames before the first raising one are handled in order and their
      effects concatenated; the raising frame's exception ends the loop and
      no later frame is looked at. */
  lemma ListenStopsAtFirstRaise(pre: seq<Received>, bad: Received, post: seq<Received>,
                                loads: string -> Option<Value>)
    requires forall i :: 0 <= i < |pre| ==> HandleFrame(pre[i], loads).raised.None?
    requires HandleFrame(bad, loads).raised.Some?
    ensures Listen(pre + [bad] + post, loads) ==
              FrameResult(Listen(pre, loads).effects + HandleFrame(bad, loads).effects,
                          HandleFrame(bad, loads).raised)
  {
    var handle := m => HandleFrame(m, loads);
    assert pre + [bad] + post == pre + ([bad] + post);
    LoopAfterQuietFrames(pre, [bad] + post, handle);
    LoopCons(bad, post, handle);
  }

  /** The handler calls a raise-free run of frames makes, in order. */
  function Invocations(effects: seq<Effect>): seq<(Action, Value)>
    decreases |effects|
  {
    if |effects| == 0 then []
    else (if effects[0].Invoked? then [(effects[0].action, effects[0].payload)] else [])
         + Invocations(effects[1..])
  }

  /** The commands the frames carry, in arrival order (reference side). */
  function CommandsIn(msgs: seq<Received>, loads: string -> Option<Value>): seq<(Action, Value)>
    decreases |msgs|
  {
    if |msgs| == 0 then []
    else
      (match loads(msgs[0].text)
       case Some(m) => (match CommandOf(m) case Some(c) => [c] case None => [])
       case None => [])
      + CommandsIn(msgs[1..], loads)
  }

  lemma {:induction false} InvocationsAppend(a: seq<Effect>, b: seq<Effect>)
    ensures Invocations(a + b) == Invocations(a) + Invocations(b)
    decreases |a|
  {
    if |a| == 0 {
      assert a + b == b;
    } else {
      assert (a + b)[0] == a[0] && (a + b)[1..] == a[1..] + b;
      InvocationsAppend(a[1..], b);
    }
  }

  /** When no frame raises, every command frame calls its handler exactly
      once, in arrival order, and nothing else calls a handler. */
  lemma {:induction false} ListenInvokesEachCommandOnce(msgs: seq<Received>, loads: string -> Option<Value>)
    requires Listen(msgs, loads).raised.None?
    ensures Invocations(Listen(msgs, loads).effects) == CommandsIn(msgs, loads)
    decreases |msgs|
  {
    if |msgs| > 0 {
      var handle := m => HandleFrame(m, loads);
      var h := HandleFrame(msgs[0], loads);
      assert msgs == [msgs[0]] + msgs[1..];
      LoopCons(msgs[0], msgs[1..], handle);
      ListenInvokesEachCommandOnce(msgs[1..], loads);
      InvocationsAppend(h.effects, Listen(msgs[1..], loads).effects);
      match loads(msgs[0].text)
      case None =>
      case Some(m) =>
        if CommandOf(m).Some? {
          assert h.effects == [Invoked(CommandOf(m).value.0, CommandOf(m).value.1)];
          assert Invocations(h.effects) == [CommandOf(m).value];
        } else {
          assert |h.effects| <= 1;
          if |h.effects| == 1 {
            assert h.effects[0] in h.effects;
          }
          assert Invocations(h.effects) == [];
        }
    }
  }
}
