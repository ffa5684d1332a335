/** The settings layer of `nvs_data.c`: the station credentials, four
    lights (name and enabled flag) and an MQTT broker URI kept in one
    non-volatile storage namespace. The storage is an explicit key-value map;
    failures of `nvs_open` and of individual `nvs_set_*` calls are inputs.
    Every error is logged and skipped, never returned, so each operation's
    result is the new store or buffers together with the calls it made. */
module SettingsStore {
  import opened Common

  const Namespace := "esp_saved_data"

  const SsidKey := "wifi_ssid"
  const PassKey := "wifi_pass"
  const MqttKey := "mqtt_uri"

  /** Sizes of the caller's buffers, terminator included, passed to
      `nvs_get_str` as the available length. */
  const SsidCapacity := 33
  const PassCapacity := 64
  const LightNameCapacity := 13
  const MqttCapacity := 257

  const LightCount := 4

  const LightNameKeys := ["l0_name", "l1_name", "l2_name", "l3_name"]
  const LightEnabledKeys := ["l0_en", "l1_en", "l2_en", "l3_en"]

  /** The keys the tables spell out: `l{i}_name` and `l{i}_en`. */
  function LightNameKey(i: nat): string
    requires i < LightCount
  {
    "l" + [('0' as int + i) as char] + "_name"
  }

  function LightEnabledKey(i: nat): string
    requires i < LightCount
  {
    "l" + [('0' as int + i) as char] + "_en"
  }

  datatype Value = Str(text: string) | U8(octet: byte)

  /** The namespace: whether it exists yet, and its entries. */
  datatype Nvs = Nvs(created: bool, entries: map<string, Value>)

  /** `light_info_t`: `name[13]`, `enabled`, `duty_cycle`. */
  datatype LightInfo = LightInfo(name: string, enabled: byte, dutyCycle: int)

  /** The name buffer holds a C string with its terminator. */
  predicate NameFits(l: LightInfo) {
    NoNul(l.name) && |l.name| < LightNameCapacity
  }

  /** The caller's buffers `read_data_from_nvs` fills. */
  datatype Settings = Settings(ssid: string, pass: string, lights: seq<LightInfo>, mqttUri: string)

  datatype OpenMode = ReadOnly | ReadWrite

  datatype NvsCall =
    | Open(mode: OpenMode)
    | GetStr(key: string)
    | GetU8(key: string)
    | SetStr(key: string, text: string)
    | SetU8(key: string, octet: byte)
    | Commit
    | Close

  /** `nvs_open` fails outright; each `nvs_set_*` on a key in `failingSets`
      fails and leaves the entry as it was. */
  datatype Faults = Faults(openFails: bool, failingSets: set<string>)

  const NoFaults := Faults(false, {})

  /** `nvs_open`: a read-only open also fails while the namespace was never
      created. */
  function Opens(nvs: Nvs, faults: Faults, mode: OpenMode): (ok: bool)
    ensures ok ==> !faults.openFails
    ensures mode == ReadOnly && !nvs.created ==> !ok
  {
    !faults.openFails && (mode == ReadWrite || nvs.created)
  }

  /** The string `nvs_get_str` delivers for `key` into a buffer of
      `capacity` bytes: `None` when the key is absent or holds another type,
      or when the string and its terminator do not fit. */
  function StoredStr(nvs: Nvs, key: string, capacity: nat): (r: Option<string>)
    ensures r.Some? <==> key in nvs.entries && nvs.entries[key].Str? && |nvs.entries[key].text| < capacity
    ensures r.Some? ==> r.value == nvs.entries[key].text
  {
    if key in nvs.entries && nvs.entries[key].Str? && |nvs.entries[key].text| < capacity then
      Some(nvs.entries[key].text)
    else None
  }

  function StoredU8(nvs: Nvs, key: string): (r: Option<byte>)
    ensures r.Some? <==> key in nvs.entries && nvs.entries[key].U8?
    ensures r.Some? ==> r.value == nvs.entries[key].octet
  {
    if key in nvs.entries && nvs.entries[key].U8? then Some(nvs.entries[key].octet) else None
  }

  /** A read that fails for any reason leaves the buffer as it was. */
  function OrKeep<T>(read: Option<T>, current: T): T {
    if read.Some? then read.value else current
  }

  datatype ReadOutcome = ReadOutcome(settings: Settings, calls: seq<NvsCall>)

  /** The buffers after the loop over the four lights of
      `read_data_from_nvs`, from light `i`. */
  function ReadLights(nvs: Nvs, lights: seq<LightInfo>, i: nat): (r: seq<LightInfo>)
    requires |lights| == LightCount && i <= LightCount
    ensures |r| == LightCount
    ensures forall j :: 0 <= j < i ==> r[j] == lights[j]
    ensures forall j :: i <= j < LightCount ==>
              && r[j].name == OrKeep(StoredStr(nvs, LightNameKeys[j], LightNameCapacity), lights[j].name)
              && r[j].enabled == OrKeep(StoredU8(nvs, LightEnabledKeys[j]), lights[j].enabled)
              && r[j].dutyCycle == lights[j].dutyCycle
    decreases LightCount - i
  {
    if i == LightCount then lights
    else
      var l := lights[i];
      var name := OrKeep(StoredStr(nvs, LightNameKeys[i], LightNameCapacity), l.name);
      var enabled := OrKeep(StoredU8(nvs, LightEnabledKeys[i]), l.enabled);
      ReadLights(nvs, lights[i := LightInfo(name, enabled, l.dutyCycle)], i + 1)
  }

  /** The calls of that loop: name, then enabled flag, light by light. */
  function ReadLightCalls(i: nat): (r: seq<NvsCall>)
    requires i <= LightCount
    ensures |r| == 2 * (LightCount - i)
    ensures forall j :: i <= j < LightCount ==>
              r[2 * (j - i)] == GetStr(LightNameKeys[j]) && r[2 * (j - i) + 1] == GetU8(LightEnabledKeys[j])
    ensures Close !in r && Open(ReadOnly) !in r
    decreases LightCount - i
  {
    if i == LightCount then []
    else
      var rest := ReadLightCalls(i + 1);
      var r := [GetStr(LightNameKeys[i]), GetU8(LightEnabledKeys[i])] + rest;
      forall j | i + 1 <= j < LightCount
        ensures r[2 * (j - i)] == GetStr(LightNameKeys[j]) && r[2 * (j - i) + 1] == GetU8(LightEnabledKeys[j])
      {
        assert r[2 * (j - i)] == rest[2 * (j - i - 1)];
        assert r[2 * (j - i) + 1] == rest[2 * (j - i - 1) + 1];
      }
      r
  }

  /** The calls of `read_data_from_nvs` after a successful open: every
      key is read, whatever the earlier reads returned, and the handle is
      closed once, at the end. */
  function ReadCalls(): (r: seq<NvsCall>)
    ensures |r| == 13 && r[0] == Open(ReadOnly) && r[12] == Close && Close !in r[..12]
    ensures r[1] == GetStr(SsidKey) && r[2] == GetStr(PassKey) && r[11] == GetStr(MqttKey)
    ensures forall j :: 0 <= j < LightCount ==>
              r[3 + 2 * j] == GetStr(LightNameKeys[j]) && r[4 + 2 * j] == GetU8(LightEnabledKeys[j])
  {
    var head := ReadHead(ReadLightCalls(0));
    LightReadsAt(head, ReadLightCalls(0));
    assert (head + [Close])[..12] == head;
    head + [Close]
  }

  /** The calls before `nvs_close`, around the light reads `lights`. */
  function ReadHead(lights: seq<NvsCall>): (head: seq<NvsCall>)
    requires |lights| == 2 * LightCount && Close !in lights
    ensures |head| == 12 && Close !in head
    ensures head[0] == Open(ReadOnly) && head[1] == GetStr(SsidKey) && head[2] == GetStr(PassKey) && head[11] == GetStr(MqttKey)
  {
    [Open(ReadOnly), GetStr(SsidKey), GetStr(PassKey)] + lights + [GetStr(MqttKey)]
  }

  /** Where the light reads sit among the calls. */
  lemma LightReadsAt(head: seq<NvsCall>, lights: seq<NvsCall>)
    requires lights == ReadLightCalls(0)
    requires head == ReadHead(lights)
    ensures forall j :: 0 <= j < LightCount ==>
              head[3 + 2 * j] == GetStr(LightNameKeys[j]) && head[4 + 2 * j] == GetU8(LightEnabledKeys[j])
  {
    forall j | 0 <= j < LightCount
      ensures head[3 + 2 * j] == GetStr(LightNameKeys[j]) && head[4 + 2 * j] == GetU8(LightEnabledKeys[j])
    {
      assert head[3 + 2 * j] == lights[2 * (j - 0)] && head[4 + 2 * j] == lights[2 * (j - 0) + 1];
    }
  }

  /** `read_data_from_nvs`: each value is read into its buffer when it is
      present and fits; the reads go on past every failure; the handle is
      closed at the end. */
  function ReadDataFromNvs(nvs: Nvs, faults: Faults, current: Settings): (r: ReadOutcome)
    requires |current.lights| == LightCount
    ensures |r.settings.lights| == LightCount
    ensures !Opens(nvs, faults, ReadOnly) ==> r.settings == current && r.calls == [Open(ReadOnly)]
    ensures Opens(nvs, faults, ReadOnly) ==>
              r.calls == ReadCalls()
    ensures Opens(nvs, faults, ReadOnly) ==>
              && r.settings.ssid == OrKeep(StoredStr(nvs, SsidKey, SsidCapacity), current.ssid)
              && r.settings.pass == OrKeep(StoredStr(nvs, PassKey, PassCapacity), current.pass)
              && r.settings.mqttUri == OrKeep(StoredStr(nvs, MqttKey, MqttCapacity), current.mqttUri)
              && (forall j :: 0 <= j < LightCount ==>
                    && r.settings.lights[j].name == OrKeep(StoredStr(nvs, LightNameKeys[j], LightNameCapacity), current.lights[j].name)
                    && r.settings.lights[j].enabled == OrKeep(StoredU8(nvs, LightEnabledKeys[j]), current.lights[j].enabled))
    ensures forall j :: 0 <= j < LightCount ==> r.settings.lights[j].dutyCycle == current.lights[j].dutyCycle
  {
    if !Opens(nvs, faults, ReadOnly) then ReadOutcome(current, [Open(ReadOnly)])
    else
      var ssid := OrKeep(StoredStr(nvs, SsidKey, SsidCapacity), current.ssid);
      var pass := OrKeep(StoredStr(nvs, PassKey, PassCapacity), current.pass);
      var lights := ReadLights(nvs, current.lights, 0);
      var uri := OrKeep(StoredStr(nvs, MqttKey, MqttCapacity), current.mqttUri);
      ReadOutcome(Settings(ssid, pass, lights, uri),
                  ReadCalls())
  }

  datatype SaveOutcome = SaveOutcome(nvs: Nvs, calls: seq<NvsCall>)

  /** One `nvs_set_*`: written through unless it fails. */
  function Set(nvs: Nvs, faults: Faults, key: string, v: Value): (r: Nvs)
    ensures r.created == nvs.created
    ensures key !in faults.failingSets ==> r.entries == nvs.entries[key := v]
    ensures key in faults.failingSets ==> r == nvs
  {
    if key in faults.failingSets then nvs else nvs.(entries := nvs.entries[key := v])
  }

  /** The frame of a save: open (which creates the namespace), the sets,
      then `nvs_commit` and `nvs_close` whatever the sets returned. */
  function Framed(nvs: Nvs, faults: Faults, written: Nvs, sets: seq<NvsCall>): (r: SaveOutcome)
    ensures faults.openFails ==> r.nvs == nvs && r.calls == [Open(ReadWrite)]
    ensures !faults.openFails ==> r.nvs == written.(created := true) && r.calls == [Open(ReadWrite)] + sets + [Commit, Close]
  {
    if !Opens(nvs, faults, ReadWrite) then SaveOutcome(nvs, [Open(ReadWrite)])
    else SaveOutcome(written.(created := true), [Open(ReadWrite)] + sets + [Commit, Close])
  }

  /** Two entries differ only at the keys in `keys`. */
  ghost predicate SameOutside(a: Nvs, b: Nvs, keys: set<string>) {
    forall k :: k !in keys ==> (k in a.entries <==> k in b.entries) && (k in a.entries ==> a.entries[k] == b.entries[k])
  }

  /** `key` holds `v` in `nvs`. */
  predicate Holds(nvs: Nvs, key: string, v: Value) {
    key in nvs.entries && nvs.entries[key] == v
  }

  /** `save_wifi_info_to_nvs` for the C strings `ssid` and `pass`. */
  function SaveWifiInfo(nvs: Nvs, faults: Faults, ssid: string, pass: string): (r: SaveOutcome)
    requires NoNul(ssid) && NoNul(pass)
    ensures faults.openFails ==> r.nvs == nvs && r.calls == [Open(ReadWrite)]
    ensures !faults.openFails ==>
              && r.nvs.created
              && r.calls == [Open(ReadWrite), SetStr(SsidKey, ssid), SetStr(PassKey, pass), Commit, Close]
              && SameOutside(nvs, r.nvs, {SsidKey, PassKey})
              && (SsidKey !in faults.failingSets ==> Holds(r.nvs, SsidKey, Str(ssid)))
              && (PassKey !in faults.failingSets ==> Holds(r.nvs, PassKey, Str(pass)))
              && (SsidKey in faults.failingSets ==> SameOutside(nvs, r.nvs, {PassKey}))
              && (PassKey in faults.failingSets ==> SameOutside(nvs, r.nvs, {SsidKey}))
  {
    var written := Set(Set(nvs, faults, SsidKey, Str(ssid)), faults, PassKey, Str(pass));
    Framed(nvs, faults, written, [SetStr(SsidKey, ssid), SetStr(PassKey, pass)])
  }

  /** `save_mqtt_info_to_nvs` for the C string `uri`. */
  function SaveMqttInfo(nvs: Nvs, faults: Faults, uri: string): (r: SaveOutcome)
    requires NoNul(uri)
    ensures faults.openFails ==> r.nvs == nvs && r.calls == [Open(ReadWrite)]
    ensures !faults.openFails ==>
              && r.nvs.created
              && r.calls == [Open(ReadWrite), SetStr(MqttKey, uri), Commit, Close]
              && SameOutside(nvs, r.nvs, {MqttKey})
              && (MqttKey !in faults.failingSets ==> Holds(r.nvs, MqttKey, Str(uri)))
              && (MqttKey in faults.failingSets ==> r.nvs.entries == nvs.entries)
  {
    Framed(nvs, faults, Set(nvs, faults, MqttKey, Str(uri)), [SetStr(MqttKey, uri)])
  }

  /** The keys of lights `i` and up. */
  function LightKeysFrom(i: nat): set<string>
    requires i <= LightCount
  {
    (set j | i <= j < LightCount :: LightNameKeys[j]) + (set j | i <= j < LightCount :: LightEnabledKeys[j])
  }

  /** The calls of the loop of `save_light_info_to_nvs` from light `i`:
      the name and then the enabled flag of each light, and nothing else. */
  function SaveLightCalls(lights: seq<LightInfo>, i: nat): (r: seq<NvsCall>)
    requires |lights| == LightCount && i <= LightCount
    ensures |r| == 2 * (LightCount - i)
    ensures forall j :: i <= j < LightCount ==>
              && r[2 * (j - i)] == SetStr(LightNameKeys[j], lights[j].name)
              && r[2 * (j - i) + 1] == SetU8(LightEnabledKeys[j], lights[j].enabled)
    decreases LightCount - i
  {
    if i == LightCount then []
    else
      var rest := SaveLightCalls(lights, i + 1);
      var r := [SetStr(LightNameKeys[i], lights[i].name), SetU8(LightEnabledKeys[i], lights[i].enabled)] + rest;
      forall j | i + 1 <= j < LightCount
        ensures r[2 * (j - i)] == SetStr(LightNameKeys[j], lights[j].name)
        ensures r[2 * (j - i) + 1] == SetU8(LightEnabledKeys[j], lights[j].enabled)
      {
        assert r[2 * (j - i)] == rest[2 * (j - i - 1)];
        assert r[2 * (j - i) + 1] == rest[2 * (j - i - 1) + 1];
      }
      r
  }

  /** Light `i`'s two keys are distinct and not used by any later light. */
  lemma LightKeysSplit(i: nat)
    requires i < LightCount
    ensures LightNameKeys[i] != LightEnabledKeys[i]
    ensures LightNameKeys[i] !in LightKeysFrom(i + 1) && LightEnabledKeys[i] !in LightKeysFrom(i + 1)
    ensures LightKeysFrom(i) == {LightNameKeys[i], LightEnabledKeys[i]} + LightKeysFrom(i + 1)
  {
  }

  /** The store after the loop of `save_light_info_to_nvs` from light `i`:
      each name and flag written unless its set fails, every other key as
      it was. */
  function SaveLights(nvs: Nvs, faults: Faults, lights: seq<LightInfo>, i: nat): (r: Nvs)
    requires |lights| == LightCount && i <= LightCount
    ensures r.created == nvs.created
    ensures forall j :: i <= j < LightCount && LightNameKeys[j] !in faults.failingSets ==>
              Holds(r, LightNameKeys[j], Str(lights[j].name))
    ensures forall j :: i <= j < LightCount && LightEnabledKeys[j] !in faults.failingSets ==>
              Holds(r, LightEnabledKeys[j], U8(lights[j].enabled))
    ensures SameOutside(nvs, r, LightKeysFrom(i) - faults.failingSets)
    decreases LightCount - i
  {
    if i == LightCount then nvs
    else
      var named := Set(nvs, faults, LightNameKeys[i], Str(lights[i].name));
      var flagged := Set(named, faults, LightEnabledKeys[i], U8(lights[i].enabled));
      LightKeysSplit(i);
      var r := SaveLights(flagged, faults, lights, i + 1);
      var own := {LightNameKeys[i], LightEnabledKeys[i]} - faults.failingSets;
      assert SameOutside(nvs, flagged, own);
      SameOutsideTrans(nvs, flagged, r, own, LightKeysFrom(i + 1) - faults.failingSets, LightKeysFrom(i) - faults.failingSets);
      r
  }

  /** Two saves in a row change nothing outside the keys either may touch. */
  lemma SameOutsideTrans(a: Nvs, b: Nvs, c: Nvs, first: set<string>, second: set<string>, keys: set<string>)
    requires SameOutside(a, b, first) && SameOutside(b, c, second)
    requires first <= keys && second <= keys
    ensures SameOutside(a, c, keys)
  {
  }

  /** Marking the namespace created keeps what `SameOutside` says. */
  lemma SameEntries(a: Nvs, b: Nvs, c: Nvs, keys: set<string>)
    requires SameOutside(a, b, keys) && b.entries == c.entries
    ensures SameOutside(a, c, keys)
  {
  }

  /** The lights a store holds are held by any store with its entries. */
  lemma LightsHeld(b: Nvs, c: Nvs, faults: Faults, lights: seq<LightInfo>)
    requires |lights| == LightCount && b.entries == c.entries
    requires forall j :: 0 <= j < LightCount && LightNameKeys[j] !in faults.failingSets ==>
               Holds(b, LightNameKeys[j], Str(lights[j].name))
    requires forall j :: 0 <= j < LightCount && LightEnabledKeys[j] !in faults.failingSets ==>
               Holds(b, LightEnabledKeys[j], U8(lights[j].enabled))
    ensures forall j :: 0 <= j < LightCount && LightNameKeys[j] !in faults.failingSets ==>
              Holds(c, LightNameKeys[j], Str(lights[j].name))
    ensures forall j :: 0 <= j < LightCount && LightEnabledKeys[j] !in faults.failingSets ==>
              Holds(c, LightEnabledKeys[j], U8(lights[j].enabled))
  {
  }

  /** `save_light_info_to_nvs` for the caller's four lights. */
  function SaveLightInfo(nvs: Nvs, faults: Faults, lights: seq<LightInfo>): (r: SaveOutcome)
    requires |lights| == LightCount
    requires forall j :: 0 <= j < LightCount ==> NameFits(lights[j])
    ensures faults.openFails ==> r.nvs == nvs && r.calls == [Open(ReadWrite)]
    ensures !faults.openFails ==>
              && r.nvs.created
              && r.calls == [Open(ReadWrite)] + SaveLightCalls(lights, 0) + [Commit, Close]
              && SameOutside(nvs, r.nvs, LightKeysFrom(0) - faults.failingSets)
              && (forall j :: 0 <= j < LightCount && LightNameKeys[j] !in faults.failingSets ==>
                    Holds(r.nvs, LightNameKeys[j], Str(lights[j].name)))
              && (forall j :: 0 <= j < LightCount && LightEnabledKeys[j] !in faults.failingSets ==>
                    Holds(r.nvs, LightEnabledKeys[j], U8(lights[j].enabled)))
  {
    var stored := SaveLights(nvs, faults, lights, 0);
    var r := Framed(nvs, faults, stored, SaveLightCalls(lights, 0));
    if !faults.openFails then
      SameEntries(nvs, stored, r.nvs, LightKeysFrom(0) - faults.failingSets);
      LightsHeld(stored, r.nvs, faults, lights);
      r
    else r
  }

  /** The key tables are the `l{i}_name` / `l{i}_en` pattern, and no two
      keys of the layer coincide. */
  lemma KeyTables()
    ensures forall i :: 0 <= i < LightCount ==> LightNameKeys[i] == LightNameKey(i)
    ensures forall i :: 0 <= i < LightCount ==> LightEnabledKeys[i] == LightEnabledKey(i)
    ensures forall i, j :: 0 <= i < LightCount && 0 <= j < LightCount ==>
              LightNameKeys[i] != LightEnabledKeys[j] && (i != j ==> LightNameKeys[i] != LightNameKeys[j] && LightEnabledKeys[i] != LightEnabledKeys[j])
    ensures forall i :: 0 <= i < LightCount ==>
              LightNameKeys[i] !in {SsidKey, PassKey, MqttKey} && LightEnabledKeys[i] !in {SsidKey, PassKey, MqttKey}
    ensures SsidKey != PassKey && SsidKey != MqttKey && PassKey != MqttKey
  {
  }

  /** `duty_cycle` is never persisted: lights that agree on names and
      enabled flags save identically. */
  lemma {:induction false} DutyCycleNotPersisted(nvs: Nvs, faults: Faults, lights: seq<LightInfo>, lights': seq<LightInfo>, i: nat)
    requires |lights| == LightCount && |lights'| == LightCount && i <= LightCount
    requires forall j :: 0 <= j < LightCount ==> lights[j].name == lights'[j].name && lights[j].enabled == lights'[j].enabled
    ensures SaveLights(nvs, faults, lights, i) == SaveLights(nvs, faults, lights', i)
    ensures SaveLightCalls(lights, i) == SaveLightCalls(lights', i)
    decreases LightCount - i
  {
    if i < LightCount {
      var named := Set(nvs, faults, LightNameKeys[i], Str(lights[i].name));
      var flagged := Set(named, faults, LightEnabledKeys[i], U8(lights[i].enabled));
      DutyCycleNotPersisted(flagged, faults, lights, lights', i + 1);
      assert SaveLightCalls(lights, i + 1) == SaveLightCalls(lights', i + 1);
    }
  }

  /** The same for the whole of `save_light_info_to_nvs`. */
  lemma LightSaveIgnoresDutyCycle(nvs: Nvs, faults: Faults, lights: seq<LightInfo>, lights': seq<LightInfo>)
    requires |lights| == LightCount && |lights'| == LightCount
    requires forall j :: 0 <= j < LightCount ==> NameFits(lights[j])
    requires forall j :: 0 <= j < LightCount ==> lights[j].name == lights'[j].name && lights[j].enabled == lights'[j].enabled
    ensures SaveLightInfo(nvs, faults, lights) == SaveLightInfo(nvs, faults, lights')
  {
    DutyCycleNotPersisted(nvs, faults, lights, lights', 0);
  }

  /** Without faults, credentials saved and read back come back exactly
      when they fit their buffers: an SSID of at most 32 bytes and a
      password of at most 63; a longer one leaves the buffer as it was. */
  lemma WifiRoundTrip(nvs: Nvs, ssid: string, pass: string, current: Settings)
    requires NoNul(ssid) && NoNul(pass)
    requires |current.lights| == LightCount
    ensures var back := ReadDataFromNvs(SaveWifiInfo(nvs, NoFaults, ssid, pass).nvs, NoFaults, current).settings;
            && (back.ssid == (if |ssid| <= SsidCapacity - 1 then ssid else current.ssid))
            && (back.pass == (if |pass| <= PassCapacity - 1 then pass else current.pass))
  {
  }

  /** Light names and flags saved without faults read back unchanged, and
      the duty cycles in the caller's array stay as they were. */
  lemma LightRoundTrip(nvs: Nvs, lights: seq<LightInfo>, current: Settings)
    requires |lights| == LightCount && |current.lights| == LightCount
    requires forall j :: 0 <= j < LightCount ==> NameFits(lights[j])
    ensures var back := ReadDataFromNvs(SaveLightInfo(nvs, NoFaults, lights).nvs, NoFaults, current).settings;
            forall j :: 0 <= j < LightCount ==>
              back.lights[j] == LightInfo(lights[j].name, lights[j].enabled, current.lights[j].dutyCycle)
  {
    var saved := SaveLightInfo(nvs, NoFaults, lights).nvs;
    forall j | 0 <= j < LightCount
      ensures StoredStr(saved, LightNameKeys[j], LightNameCapacity) == Some(lights[j].name)
      ensures StoredU8(saved, LightEnabledKeys[j]) == Some(lights[j].enabled)
    {
      SavedLightReadable(nvs, lights, j);
    }
  }

  /** Light `j`'s name and flag, saved without faults, are there to read. */
  lemma SavedLightReadable(nvs: Nvs, lights: seq<LightInfo>, j: nat)
    requires |lights| == LightCount && j < LightCount
    requires forall j :: 0 <= j < LightCount ==> NameFits(lights[j])
    ensures StoredStr(SaveLightInfo(nvs, NoFaults, lights).nvs, LightNameKeys[j], LightNameCapacity) == Some(lights[j].name)
    ensures StoredU8(SaveLightInfo(nvs, NoFaults, lights).nvs, LightEnabledKeys[j]) == Some(lights[j].enabled)
  {
    var saved := SaveLightInfo(nvs, NoFaults, lights).nvs;
    assert Holds(saved, LightNameKeys[j], Str(lights[j].name));
    assert Holds(saved, LightEnabledKeys[j], U8(lights[j].enabled));
  }

  /** A broker URI of at most 256 bytes saved without faults reads back. */
  lemma MqttRoundTrip(nvs: Nvs, uri: string, current: Settings)
    requires NoNul(uri) && |uri| < MqttCapacity
    requires |current.lights| == LightCount
    ensures ReadDataFromNvs(SaveMqttInfo(nvs, NoFaults, uri).nvs, NoFaults, current).settings.mqttUri == uri
  {
  }

  /** A failing set is skipped: the later set and the commit still happen,
      and the failed key keeps its old entry. */
  lemma FailedSetIsSkipped(nvs: Nvs, ssid: string, pass: string)
    requires NoNul(ssid) && NoNul(pass)
    ensures var r := SaveWifiInfo(nvs, Faults(false, {SsidKey}), ssid, pass);
            && r.nvs.entries[PassKey] == Str(pass)
            && Commit in r.calls
            && (SsidKey in nvs.entries <==> SsidKey in r.nvs.entries)
            && (SsidKey in nvs.entries ==> r.nvs.entries[SsidKey] == nvs.entries[SsidKey])
  {
  }

  /** On a device whose namespace was never written, the read-only open
      fails and every buffer keeps its compiled-in contents. */
  lemma FirstBootReadsNothing(entries: map<string, Value>, current: Settings)
    requires |current.lights| == LightCount
    ensures ReadDataFromNvs(Nvs(false, entries), NoFaults, current).settings == current
  {
  }
}
