/** What the local agent sends to Supabase Realtime (Phoenix channel
    frames: `topic`, `event`, `payload`, `ref`), the WebSocket URL it
    connects to, the action table, and the heartbeat task. Frames are kept
    as JSON values; `json.dumps` is not modelled. */
module Realtime {
  import opened Wrappers
  import opened Json
  import opened PyStr

  const JOIN_TOPIC := "realtime:public:commands"
  const HEARTBEAT_TOPIC := "phoenix"
  const REALTIME_PATH := "/realtime/v1/websocket?apikey="
  const VSN_QUERY := "&vsn=1.0.0"

  // ---------------------------------------------------------------- URL

  /** `SUPABASE_URL.replace('http://', 'ws://').replace('https://', 'wss://')`
      followed by the realtime path, the API key and the protocol version. */
  function WebSocketUrl(base: string, apiKey: string): (url: string)
    ensures url == Join(Split(Join(Split(base, "http://"), "ws://"), "https://"), "wss://")
                   + REALTIME_PATH + apiKey + VSN_QUERY
  {
    var wsBase := Replace(Replace(base, "http://", "ws://"), "https://", "wss://");
    ReplaceIsJoinOfSplit(base, "http://", "ws://");
    ReplaceIsJoinOfSplit(Replace(base, "http://", "ws://"), "https://", "wss://");
    wsBase + REALTIME_PATH + apiKey + VSN_QUERY
  }

  /** The usual dashboard URL: `https://` becomes `wss://` and nothing else
      changes. */
  lemma HttpsUrlBecomesWss(host: string, apiKey: string)
    requires !Occurs(host, "http://") && !Occurs(host, "https://")
    ensures WebSocketUrl("https://" + host, apiKey) == "wss://" + host + REALTIME_PATH + apiKey + VSN_QUERY
  {
    // "https://" contains no "http://": the first replacement skips it.
    forall i | 0 <= i < |"https://"|
      ensures !MatchAt("https://" + host, "http://", i)
    {
      var s := "https://" + host;
      if i + 7 <= |s| {
        // At offset 0 the fifth character is 's', not ':'; elsewhere the
        // first character is not 'h'.
        var k := if i == 0 then 4 else 0;
        assert s[i..i + 7][k] == s[i + k] == "https://"[i + k];
        assert "https://"[i + k] != "http://"[k];
      }
    }
    ReplaceSkipsPrefix("https://", host, "http://", "ws://");
    ReplaceAbsent(host, "http://", "ws://");
    ReplaceLeading(host, "https://", "wss://");
    ReplaceAbsent(host, "https://", "wss://");
  }

  /** A plain `http://` URL becomes `ws://`. */
  lemma HttpUrlBecomesWs(host: string, apiKey: string)
    requires !Occurs(host, "http://") && !Occurs(host, "https://")
    ensures WebSocketUrl("http://" + host, apiKey) == "ws://" + host + REALTIME_PATH + apiKey + VSN_QUERY
  {
    ReplaceLeading(host, "http://", "ws://");
    ReplaceAbsent(host, "http://", "ws://");
    forall i | 0 <= i < |"ws://"|
      ensures !MatchAt("ws://" + host, "https://", i)
    {
      var s := "ws://" + host;
      assert s[i] == "ws://"[i];
    }
    ReplaceSkipsPrefix("ws://", host, "https://", "wss://");
    ReplaceAbsent(host, "https://", "wss://");
  }

  /** A URL with neither scheme anywhere (already `wss://`, say) is used as
      it is. */
  lemma OtherUrlUnchanged(base: string, apiKey: string)
    requires !Occurs(base, "http://") && !Occurs(base, "https://")
    ensures WebSocketUrl(base, apiKey) == base + REALTIME_PATH + apiKey + VSN_QUERY
  {
    ReplaceAbsent(base, "http://", "ws://");
    ReplaceAbsent(base, "https://", "wss://");
  }

  // ---------------------------------------------------------------- frames

  /** A Phoenix frame as the agent builds it. */
  function Frame(topic: string, event: string, payload: Value, ref: nat): Value {
    JObject(map["topic" := JStr(topic), "event" := JStr(event),
                "payload" := payload, "ref" := JStr(DecimalString(ref))])
  }

  /** The join request: subscribe to INSERTs on `public.commands`, carrying
      the user's token for row-level security. */
  function JoinFrame(token: string, ref: nat): (f: Value)
    ensures StrField(f, "topic") == Some(JOIN_TOPIC) && StrField(f, "event") == Some("phx_join")
    ensures AccessTokenOf(f) == Some(token)
    ensures StrField(f, "ref") == Some(DecimalString(ref))
  {
    var change := JObject(map["event" := JStr("INSERT"), "schema" := JStr("public"),
                              "table" := JStr("commands")]);
    var config := JObject(map["postgres_changes" := JArr([change])]);
    Frame(JOIN_TOPIC, "phx_join", JObject(map["config" := config, "access_token" := JStr(token)]), ref)
  }

  /** The keep-alive frame. */
  function HeartbeatFrame(ref: nat): (f: Value)
    ensures StrField(f, "topic") == Some(HEARTBEAT_TOPIC) && StrField(f, "event") == Some("heartbeat")
    ensures f.JObject? && "payload" in f.fields && f.fields["payload"] == JObject(map[])
    ensures StrField(f, "ref") == Some(DecimalString(ref))
  {
    Frame(HEARTBEAT_TOPIC, "heartbeat", JObject(map[]), ref)
  }

  /** Reading a frame back: the string field `key`, if there is one. */
  function StrField(frame: Value, key: string): Option<string> {
    if frame.JObject? && key in frame.fields && frame.fields[key].JStr? then Some(frame.fields[key].s)
    else None
  }

  /** Reading a frame back: the `ref` field as a number, if it is one. */
  function RefOf(frame: Value): Option<nat> {
    match StrField(frame, "ref")
    case Some(s) =>
      if forall i :: 0 <= i < |s| ==> IsDigit(s[i]) then Some(ParseDecimal(s)) else None
    case None => None
  }

  /** The token carried by a join frame, if any. */
  function AccessTokenOf(frame: Value): Option<string> {
    if frame.JObject? && "payload" in frame.fields then StrField(frame.fields["payload"], "access_token")
    else None
  }

  /** A join frame reads back as a `phx_join` on the commands topic with
      the token and the ref it was built from. */
  lemma JoinFrameReadBack(token: string, ref: nat)
    ensures StrField(JoinFrame(token, ref), "topic") == Some(JOIN_TOPIC)
    ensures StrField(JoinFrame(token, ref), "event") == Some("phx_join")
    ensures AccessTokenOf(JoinFrame(token, ref)) == Some(token)
    ensures RefOf(JoinFrame(token, ref)) == Some(ref)
  {
    ParseDecimalString(ref);
  }

  /** A heartbeat frame reads back as a `heartbeat` on `phoenix` with an empty
      payload and the ref it was built from. */
  lemma HeartbeatFrameReadBack(ref: nat)
    ensures StrField(HeartbeatFrame(ref), "topic") == Some(HEARTBEAT_TOPIC)
    ensures StrField(HeartbeatFrame(ref), "event") == Some("heartbeat")
    ensures HeartbeatFrame(ref).fields["payload"] == JObject(map[])
    ensures RefOf(HeartbeatFrame(ref)) == Some(ref)
  {
    ParseDecimalString(ref);
  }

  /** Frames built with different refs are different frames. */
  lemma FramesDifferByRef(token: string, m: nat, n: nat)
    requires m != n
    ensures JoinFrame(token, m) != JoinFrame(token, n)
    ensures HeartbeatFrame(m) != HeartbeatFrame(n)
  {
    JoinFrameReadBack(token, m);
    JoinFrameReadBack(token, n);
    HeartbeatFrameReadBack(m);
    HeartbeatFrameReadBack(n);
  }

  // ---------------------------------------------------------------- actions

  /** The keys of `ACTION_MAP`; the handlers behind them are outside the model. */
  datatype Action = ChangeWallpaper | PlayMusic | SpeakMessage

  function ActionName(a: Action): string {
    match a
    case ChangeWallpaper => "change_wallpaper"
    case PlayMusic => "play_music"
    case SpeakMessage => "speak_message"
  }

  /** `ACTION_MAP` lookup by exact, case-sensitive key. */
  function LookupAction(name: string): (r: Option<Action>)
    ensures r.Some? ==> ActionName(r.value) == name
    ensures forall a: Action :: ActionName(a) == name ==> r == Some(a)
  {
    if name == "change_wallpaper" then Some(ChangeWallpaper)
    else if name == "play_music" then Some(PlayMusic)
    else if name == "speak_message" then Some(SpeakMessage)
    else None
  }

  // ---------------------------------------------------------------- heartbeat

  /** How one `websocket.send` went. */
  datatype SendResult = Delivered | PeerClosed | SendFailed

  /** How a heartbeat task ended: its sends all went through (it is still
      running, or was cancelled, when the record stops); a send hit
      `ConnectionClosed`, which it catches and stops on; or a send raised
      something else, which ends the heartbeat task with that exception. */
  datatype HeartbeatEnd = StillRunning | StoppedQuietly | Crashed

  datatype HeartbeatLog = HeartbeatLog(delivered: seq<Value>, end: HeartbeatEnd)

  /** The heartbeat loop from counter value `ref`, given how each successive
      send goes; the 30-second sleeps are not modelled. */
  function HeartbeatFrom(ref: nat, sends: seq<SendResult>): (log: HeartbeatLog)
    ensures |log.delivered| <= |sends|
    ensures forall i :: 0 <= i < |log.delivered| ==> sends[i] == Delivered
    ensures forall i :: 0 <= i < |log.delivered| ==> log.delivered[i] == HeartbeatFrame(ref + i)
    ensures |log.delivered| == |sends| <==> log.end == StillRunning
    ensures log.end == StoppedQuietly <==>
              |log.delivered| < |sends| && sends[|log.delivered|] == PeerClosed
    ensures log.end == Crashed <==>
              |log.delivered| < |sends| && sends[|log.delivered|] == SendFailed
    decreases |sends|
  {
    if |sends| == 0 then HeartbeatLog([], StillRunning)
    else match sends[0]
      case PeerClosed => HeartbeatLog([], StoppedQuietly)
      case SendFailed => HeartbeatLog([], Crashed)
      case Delivered =>
        var rest := HeartbeatFrom(ref + 1, sends[1..]);
        HeartbeatLog([HeartbeatFrame(ref)] + rest.delivered, rest.end)
  }

  /** `send_heartbeat`: every task starts its own counter at 1. */
  function HeartbeatTask(sends: seq<SendResult>): (log: HeartbeatLog)
    ensures forall i :: 0 <= i < |log.delivered| ==> log.delivered[i] == HeartbeatFrame(i + 1)
    ensures log.end == StillRunning <==> |log.delivered| == |sends|
  {
    HeartbeatFrom(1, sends)
  }
}
