/** The connection supervisor of `wifi_task`: the station-start, got-IP and
    disconnect event handlers, the configuration `POST /`, and one pass of the
    task's loop, each one atomic step over the shared flags `s_retry_num`,
    `wifi_connected` and `new_wifi_info`, the credential buffers, the stored
    server handle and the radio mode. Driver and server calls are recorded,
    not performed.

    Three things the code does are visible here: the retry counter is never
    reset, `start_webserver` hands back no handle so the stored handle never
    becomes non-null (the server is never stopped, and each AP switch or
    got-IP calls `start_webserver` again; whether `httpd_start` succeeds is
    the environment's choice), and nothing ever probes from AP mode back to
    the station. */
module Supervisor {
  import opened Common
  import ConfigRequest

  const MaxRetry := 10
  const ConnectWaitMs := 15000
  const LoopDelayMs := 1000

  /** The station credentials compiled into the buffers
      `esp_wifi_sta_ssid` and `esp_wifi_sta_pass`. */
  const DefaultSsid := "Pixel_5173"
  const DefaultPass := "applesauce"

  /** `wifi_config_t.sta.ssid` and `.password` are 32 and 64 bytes wide. */
  const StaSsidField := 32
  const StaPassField := 64

  const ApSsid := "esp_wifi_network"
  const ApPass := "password"
  const ApChannel := 1
  const ApMaxConnections := 4

  datatype AuthMode = Open | WpaWpa2Psk

  datatype ApConfig = ApConfig(ssid: string, pass: string, channel: nat, maxConnections: nat, auth: AuthMode)

  /** The soft-AP configuration: open when the password is empty. The
      built-in password is not empty, so the access point is protected. */
  function DefaultApConfig(): (c: ApConfig)
    ensures c.auth == Open <==> |c.pass| == 0
    ensures c.auth == WpaWpa2Psk
    ensures c.ssid == ApSsid && c.pass == ApPass
    ensures c.channel == ApChannel && c.maxConnections == ApMaxConnections
  {
    ApConfig(ApSsid, ApPass, ApChannel, ApMaxConnections, if |ApPass| == 0 then Open else WpaWpa2Psk)
  }

  datatype StaConfig = StaConfig(ssid: string, pass: string)

  /** The two `memcpy`s of the credential buffers into the station
      configuration, each as wide as its field. */
  function StaConfigOf(ssid: string, pass: string): (c: StaConfig)
    ensures |c.ssid| <= StaSsidField && |c.ssid| <= |ssid| && c.ssid == ssid[..|c.ssid|]
    ensures |c.pass| <= StaPassField && |c.pass| <= |pass| && c.pass == pass[..|c.pass|]
    ensures |ssid| <= StaSsidField && |pass| <= StaPassField ==> c == StaConfig(ssid, pass)
  {
    StaConfig(ssid[..Min(|ssid|, StaSsidField)], pass[..Min(|pass|, StaPassField)])
  }

  datatype Radio = RadioOff | StaMode | ApMode

  /** The stored `httpd_handle_t`. */
  datatype Server = NoServer | Running

  datatype State = State(
    retry: nat,
    connected: bool,
    newInfo: bool,
    ssid: string,
    pass: string,
    server: Server,
    radio: Radio,
    staConfig: StaConfig)

  datatype DriverCall =
    | WifiConnect
    | WifiStop
    | SetMode(mode: Radio)
    | SetStaConfig(sta: StaConfig)
    | SetApConfig(ap: ApConfig)
    | WifiStart
    | HttpdStart
    | HttpdStop
    | Delay(ms: nat)
    | Light(command: ConfigRequest.LightCommand)

  datatype Step = Step(state: State, calls: seq<DriverCall>)

  datatype Event =
    | StaStart
    | StaDisconnected
    | GotIp
    | LoopTick
    | ConfigPost(contentLen: SizeT, ret: int, content: string)

  /** A configuration request as the HTTP server can deliver it: at most the
      200-byte buffer, and the bytes of a positive receive. */
  predicate WellFormed(e: Event) {
    e.ConfigPost? ==>
      e.ret <= Min(e.contentLen, ConfigRequest.ContentBufferSize) && (e.ret > 0 ==> |e.content| == e.ret)
  }

  /** `start_webserver`: whatever `httpd_start` answers, the function returns
      no handle. */
  function StartWebserver(httpdStarts: bool): (r: Server)
    ensures r == NoServer
  {
    // the handle `httpd_start` fills in is a local the function never returns
    NoServer
  }

  /** The start of `wifi_task` with the credential buffers holding `ssid`
      and `pass`: station mode and a 15 s wait when an SSID is present,
      nothing at all otherwise. */
  function Boot(ssid: string, pass: string): (r: Step)
    requires NoNul(ssid) && NoNul(pass)
    ensures r.state.retry == 0 && !r.state.connected && !r.state.newInfo
    ensures r.state.ssid == ssid && r.state.pass == pass && r.state.server == NoServer
    ensures |ssid| == 0 <==> r.calls == []
    ensures |ssid| == 0 <==> r.state.radio == RadioOff
    ensures |ssid| > 0 ==> r.state.radio == StaMode && SetStaConfig(StaConfigOf(ssid, pass)) in r.calls
  {
    var config := StaConfigOf(ssid, pass);
    var s := State(0, false, false, ssid, pass, NoServer, RadioOff, config);
    if |ssid| > 0 then
      Step(s.(radio := StaMode), [SetMode(StaMode), SetStaConfig(config), WifiStart, Delay(ConnectWaitMs)])
    else
      Step(s, [])
  }

  /** `sta_start_handler`. */
  function OnStaStart(s: State): (r: Step)
    ensures r.state == s && r.calls == [WifiConnect]
  {
    Step(s, [WifiConnect])
  }

  /** `disconnect_handler`: stop a stored server, then retry while fewer than
      ten retries were made, else give the connection up. */
  function OnDisconnect(s: State): (r: Step)
    ensures r.state.server == NoServer
    ensures r.state.retry == if s.retry < MaxRetry then s.retry + 1 else s.retry
    ensures r.state.connected <==> s.connected && s.retry < MaxRetry
    ensures WifiConnect in r.calls <==> s.retry < MaxRetry
    ensures HttpdStop in r.calls <==> s.server == Running
    ensures r.state == s.(retry := r.state.retry, connected := r.state.connected, server := NoServer)
  {
    var stop := if s.server == Running then [HttpdStop] else [];
    var s' := s.(server := NoServer);
    if s.retry < MaxRetry then Step(s'.(retry := s.retry + 1), stop + [WifiConnect])
    else Step(s'.(connected := false), stop)
  }

  /** `connect_handler`: mark the connection up and start the server when
      no handle is stored. */
  function OnGotIp(s: State, httpdStarts: bool): (r: Step)
    ensures r.state == s.(connected := true)
    ensures HttpdStart in r.calls <==> s.server == NoServer
  {
    if s.server == NoServer then Step(s.(connected := true, server := StartWebserver(httpdStarts)), [HttpdStart])
    else Step(s.(connected := true), [])
  }

  /** The AP half of the loop body: `wifi_connected == 0` switches to the
      soft AP, starts the server when no handle is stored, and sets the flag. */
  function SwitchToAp(s: State, httpdStarts: bool): (r: Step)
    ensures r.state == s.(connected := true, radio := ApMode)
    ensures SetMode(ApMode) in r.calls && SetMode(StaMode) !in r.calls
  {
    var calls := [WifiStop, SetMode(ApMode), SetApConfig(DefaultApConfig()), WifiStart];
    if s.server == NoServer then
      Step(s.(connected := true, radio := ApMode, server := StartWebserver(httpdStarts)), calls + [HttpdStart])
    else
      Step(s.(connected := true, radio := ApMode), calls)
  }

  /** The station half: `new_wifi_info == 1` clears `wifi_connected`, stops a
      stored server, reloads the station configuration from the buffers,
      restarts in station mode, clears the flag and waits 15 s. */
  function SwitchToSta(s: State): (r: Step)
    ensures r.state == s.(connected := false, newInfo := false, server := NoServer, radio := StaMode, staConfig := StaConfigOf(s.ssid, s.pass))
    ensures SetMode(StaMode) in r.calls && SetMode(ApMode) !in r.calls
  {
    var stop := if s.server == Running then [HttpdStop] else [];
    var config := StaConfigOf(s.ssid, s.pass);
    Step(s.(connected := false, newInfo := false, server := NoServer, radio := StaMode, staConfig := config),
         stop + [WifiStop, SetMode(StaMode), SetStaConfig(config), WifiStart, Delay(ConnectWaitMs)])
  }

  /** One pass of the `wifi_task` loop. */
  function OnLoopTick(s: State, httpdStarts: bool): (r: Step)
    ensures r.state.connected <==> !s.newInfo
    ensures !r.state.newInfo
    ensures r.state.radio == if s.newInfo then StaMode else if !s.connected then ApMode else s.radio
    ensures r.state.staConfig == if s.newInfo then StaConfigOf(s.ssid, s.pass) else s.staConfig
    ensures r.state.retry == s.retry && r.state.ssid == s.ssid && r.state.pass == s.pass
    ensures SetMode(ApMode) in r.calls <==> !s.connected
    ensures SetMode(StaMode) in r.calls <==> s.newInfo
    ensures |r.calls| > 0 && r.calls[|r.calls| - 1] == Delay(LoopDelayMs)
  {
    var ap := if !s.connected then SwitchToAp(s, httpdStarts) else Step(s, []);
    var sta := if s.newInfo then SwitchToSta(ap.state) else Step(ap.state, []);
    Step(sta.state, ap.calls + sta.calls + [Delay(LoopDelayMs)])
  }

  /** `POST /` (`led_handler`) as a step: light commands are issued, and
      accepted credentials replace the buffers and raise `new_wifi_info`. */
  function OnConfigPost(s: State, contentLen: SizeT, ret: int, content: string): (r: Step)
    requires ret <= Min(contentLen, ConfigRequest.ContentBufferSize)
    requires ret > 0 ==> |content| == ret
    ensures r.state.newInfo <==> s.newInfo || ConfigRequest.LedHandler(contentLen, ret, content).credentials.Some?
    ensures r.state.retry == s.retry && r.state.connected == s.connected
    ensures r.state.server == s.server && r.state.radio == s.radio && r.state.staConfig == s.staConfig
    ensures ConfigRequest.LedHandler(contentLen, ret, content).credentials.None? ==> r.state == s
    ensures forall i :: 0 <= i < |r.calls| ==> r.calls[i].Light?
    ensures |r.calls| == |ConfigRequest.LedHandler(contentLen, ret, content).lights|
    ensures forall i :: 0 <= i < |r.calls| ==>
              r.calls[i] == Light(ConfigRequest.LedHandler(contentLen, ret, content).lights[i])
    ensures ConfigRequest.LedHandler(contentLen, ret, content).credentials.Some? ==>
              && r.state.ssid == ConfigRequest.LedHandler(contentLen, ret, content).credentials.value.ssid
              && r.state.pass == ConfigRequest.LedHandler(contentLen, ret, content).credentials.value.psk
  {
    var outcome := ConfigRequest.LedHandler(contentLen, ret, content);
    var lights := LightCalls(outcome.lights);
    match outcome.credentials
    case Some(c) => Step(s.(ssid := c.ssid, pass := c.psk, newInfo := true), lights)
    case None => Step(s, lights)
  }

  /** Posting a credential body that fits the buffer stores exactly its
      SSID and passphrase, raises `new_wifi_info`, and drives no light. */
  lemma ConfigPostStoresRendered(s: State, ssid: string, psk: string, rest: string)
    requires ConfigRequest.PlainField(ssid) && |ssid| <= ConfigRequest.MaxSsidLength
    requires ConfigRequest.PlainField(psk) && |psk| <= ConfigRequest.MaxPassLength
    requires |ConfigRequest.Render(ssid, psk) + rest| <= ConfigRequest.ContentBufferSize
    ensures var c := ConfigRequest.Render(ssid, psk) + rest;
            && OnConfigPost(s, |c|, |c|, c).state == s.(ssid := ssid, pass := psk, newInfo := true)
            && OnConfigPost(s, |c|, |c|, c).calls == []
  {
    ConfigRequest.LedHandlerStoresRendered(ssid, psk, rest);
  }

  function LightCalls(commands: seq<ConfigRequest.LightCommand>): (r: seq<DriverCall>)
    ensures |r| == |commands|
    ensures forall i :: 0 <= i < |r| ==> r[i] == Light(commands[i])
  {
    if |commands| == 0 then [] else [Light(commands[0])] + LightCalls(commands[1..])
  }

  /** One atomic step. Whether `httpd_start` succeeds is the environment's
      choice; it changes nothing the model can observe. */
  function Next(s: State, e: Event, httpdStarts: bool): (r: Step)
    requires WellFormed(e)
  {
    match e
    case StaStart => OnStaStart(s)
    case StaDisconnected => OnDisconnect(s)
    case GotIp => OnGotIp(s, httpdStarts)
    case LoopTick => OnLoopTick(s, httpdStarts)
    case ConfigPost(contentLen, ret, content) => OnConfigPost(s, contentLen, ret, content)
  }

  /** The state after a sequence of events. */
  function Run(s: State, events: seq<Event>, httpdStarts: bool): State
    requires forall i :: 0 <= i < |events| ==> WellFormed(events[i])
    decreases |events|
  {
    if |events| == 0 then s else Run(Next(s, events[0], httpdStarts).state, events[1..], httpdStarts)
  }

  /** What holds in every state the supervisor reaches. */
  predicate Inv(s: State) {
    s.retry <= MaxRetry && s.server == NoServer
  }

  /** Every step keeps the invariant and never lowers the retry counter. */
  lemma StepKeepsInv(s: State, e: Event, httpdStarts: bool)
    requires WellFormed(e) && Inv(s)
    ensures Inv(Next(s, e, httpdStarts).state)
    ensures Next(s, e, httpdStarts).state.retry >= s.retry
    ensures HttpdStop !in Next(s, e, httpdStarts).calls
  {
    match e
    case ConfigPost(contentLen, ret, content) =>
      var r := OnConfigPost(s, contentLen, ret, content);
      assert forall i :: 0 <= i < |r.calls| ==> r.calls[i] != HttpdStop;
    case LoopTick => LoopTickKeepsInv(s, httpdStarts);
    case _ =>
  }

  /** A loop pass from a state with no stored server stops no server and
      leaves none stored. */
  lemma LoopTickKeepsInv(s: State, httpdStarts: bool)
    requires Inv(s)
    ensures Inv(OnLoopTick(s, httpdStarts).state)
    ensures HttpdStop !in OnLoopTick(s, httpdStarts).calls
  {
    var ap := if !s.connected then SwitchToAp(s, httpdStarts) else Step(s, []);
    assert ap.state.server == NoServer && HttpdStop !in ap.calls;
    var sta := if s.newInfo then SwitchToSta(ap.state) else Step(ap.state, []);
    assert HttpdStop !in sta.calls;
    assert OnLoopTick(s, httpdStarts).calls == ap.calls + sta.calls + [Delay(LoopDelayMs)];
  }

  /** From boot on, the retry counter only grows and stays at most ten, and
      the stored server handle is null after every step. */
  lemma {:induction false} RunKeepsInv(s: State, events: seq<Event>, httpdStarts: bool)
    requires forall i :: 0 <= i < |events| ==> WellFormed(events[i])
    requires Inv(s)
    ensures Inv(Run(s, events, httpdStarts))
    ensures Run(s, events, httpdStarts).retry >= s.retry
    decreases |events|
  {
    if |events| > 0 {
      StepKeepsInv(s, events[0], httpdStarts);
      RunKeepsInv(Next(s, events[0], httpdStarts).state, events[1..], httpdStarts);
    }
  }

  lemma BootSatisfiesInv(ssid: string, pass: string)
    requires NoNul(ssid) && NoNul(pass)
    ensures Inv(Boot(ssid, pass).state)
  {
  }

  function Disconnects(k: nat): (r: seq<Event>)
    ensures |r| == k
    ensures forall i :: 0 <= i < k ==> r[i] == StaDisconnected
  {
    if k == 0 then [] else [StaDisconnected] + Disconnects(k - 1)
  }

  /** `k` disconnect events in a row: the counter saturates at ten, and the
      connection flag is given up exactly when a disconnect arrives with the
      counter already at ten. */
  lemma {:induction false} DisconnectRun(s: State, k: nat, httpdStarts: bool)
    requires s.retry <= MaxRetry
    ensures Run(s, Disconnects(k), httpdStarts).retry == Min(MaxRetry, s.retry + k)
    ensures Run(s, Disconnects(k), httpdStarts).connected <==> s.connected && s.retry + k <= MaxRetry
    ensures Run(s, Disconnects(k), httpdStarts).ssid == s.ssid && Run(s, Disconnects(k), httpdStarts).radio == s.radio
    decreases k
  {
    if k > 0 {
      var events := Disconnects(k);
      assert events[1..] == Disconnects(k - 1);
      DisconnectRun(OnDisconnect(s).state, k - 1, httpdStarts);
    }
  }

  /** An event that hands the supervisor new credentials. */
  predicate DeliversCredentials(e: Event)
    requires WellFormed(e)
  {
    e.ConfigPost? && ConfigRequest.LedHandler(e.contentLen, e.ret, e.content).credentials.Some?
  }

  /** There is no probe back: once in AP mode with no pending credentials,
      the radio stays in AP mode through any events that bring no new
      credentials, however many ticks and station events pass. */
  lemma {:induction false} NoProbeBack(s: State, events: seq<Event>, httpdStarts: bool)
    requires forall i :: 0 <= i < |events| ==> WellFormed(events[i])
    requires forall i :: 0 <= i < |events| ==> !DeliversCredentials(events[i])
    requires s.radio == ApMode && !s.newInfo
    ensures Run(s, events, httpdStarts).radio == ApMode
    ensures !Run(s, events, httpdStarts).newInfo
    decreases |events|
  {
    if |events| > 0 {
      NoProbeBack(Next(s, events[0], httpdStarts).state, events[1..], httpdStarts);
    }
  }

  /** A device booted without a stored SSID configures nothing at start and
      comes up as the soft AP on its first loop pass. */
  lemma BootWithoutSsidStartsAp(pass: string, httpdStarts: bool)
    requires NoNul(pass)
    ensures Boot("", pass).calls == []
    ensures OnLoopTick(Boot("", pass).state, httpdStarts).state.radio == ApMode
    ensures OnLoopTick(Boot("", pass).state, httpdStarts).state.connected
    ensures HttpdStart in OnLoopTick(Boot("", pass).state, httpdStarts).calls
  {
    var s := Boot("", pass).state;
    var ap := SwitchToAp(s, httpdStarts);
    assert ap.calls[4] == HttpdStart;
    assert OnLoopTick(s, httpdStarts).calls[4] == HttpdStart;
  }

  /** As built, the device boots into station mode with the compiled-in
      network and waits for it. */
  lemma DefaultBootStartsStation()
    ensures Boot(DefaultSsid, DefaultPass).state.radio == StaMode
    ensures Boot(DefaultSsid, DefaultPass).calls[1] == SetStaConfig(StaConfig(DefaultSsid, DefaultPass))
    ensures Boot(DefaultSsid, DefaultPass).calls[3] == Delay(ConnectWaitMs)
  {
  }

  /** Credentials accepted over HTTP reach the station configuration on the
      next loop pass, which leaves AP mode for station mode. */
  lemma CredentialsReachStation(s: State, contentLen: SizeT, ret: int, content: string, httpdStarts: bool)
    requires ret <= Min(contentLen, ConfigRequest.ContentBufferSize)
    requires ret > 0 ==> |content| == ret
    ensures ConfigRequest.LedHandler(contentLen, ret, content).credentials.Some? ==>
              var c := ConfigRequest.LedHandler(contentLen, ret, content).credentials.value;
              var t := OnLoopTick(OnConfigPost(s, contentLen, ret, content).state, httpdStarts).state;
              t.radio == StaMode && t.staConfig == StaConfig(c.ssid, c.psk) && !t.newInfo && !t.connected
  {
  }
}
