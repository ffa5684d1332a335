# ESP32 smart light controller — a Dafny model of its network core

The firmware runs an ESP32 either as a Wi-Fi station or, when the station
cannot connect, as its own access point. It serves a small web interface
from that interface. This project models the request handlers and the
Wi-Fi supervisor loop of `main/wifi_idf_test.c`, and the settings layer
of `main/nvs_data.c` that reads and writes non-volatile storage (NVS). It
proves what each of them guarantees. The modules are:

- `Common`: C notions the firmware relies on:
  - NUL-terminated strings (`CString`);
  - `esp_err_t` and the HTTP status codes used.
- `Base64`: the encoder behind `esp_crypto_base64_encode`, with the
  alphabet and padding of section 4 of RFC 4648. It comes with a decoder
  that serves as its inverse.
- `Base64Vectors`: the test vectors of section 10 of RFC 4648, and the
  credential the firmware expects.
- `BasicAuth`: `http_auth_basic` builds the `Authorization` value of
  section 2 of RFC 7617. `basic_auth_get_handler` guards the OTA page,
  and its `strncmp` is modelled character by character.
- `ConfigRequest`: `led_handler`.
  - A body whose first byte is `H` or `L` switches the two LED channels
    full on or off.
  - A body of the form `{"ssid": "…", "psk": "…"}` supplies new station
    credentials.
  - The module also models the receive errors.
- `OtaUpdate`: `ota_post_handler`. It streams an upload of
  `Content-Length` bytes into the next OTA partition in chunks of at most
  256 bytes, retries on socket timeouts, and commits the image and
  restarts after 2 s. Every failure answers 500. The update is aborted
  only when `esp_ota_begin` has succeeded: a missing partition or a
  failed begin leaves `update_handle` at 0, so nothing is aborted.
- `BootGuard`: `ota_task`, which marks a pending image valid on its first
  boot.
- `Supervisor`: the Wi-Fi event handlers (start, disconnect, got-IP) and
  the loop of `wifi_task`, as a state machine over events.
  - A station that gives up, after ten reconnection attempts, makes the
    loop switch to access-point mode.
  - New credentials posted to `led_handler` make it switch back to
    station mode.
- `SettingsStore`: `read_data_from_nvs`, `save_wifi_info_to_nvs`,
  `save_light_info_to_nvs` and `save_mqtt_info_to_nvs`. They run over a key-value store
  with explicit faults: a failing open and a failing `set`.

Behaviour of the code as written that the model keeps:

- `start_webserver` always returns `NULL`.
  - The server handle is therefore never stored.
  - The disconnect handler never stops the server.
  - Every got-IP event and every switch to access-point mode calls
    `start_webserver` again. Whether the server then comes up is the
    environment's choice (`httpdStarts`).
  - `Supervisor.StepKeepsInv` states this.
- The reconnection counter is never reset, not even on a successful
  connection.
- Once in access-point mode, the loop never tries the station again by
  itself. Only posted credentials bring it back (`Supervisor.NoProbeBack`).
- The image validation of `ota_task` confirms a pending image without
  checking anything.
- `main/wifi_idf_test.c` does not call the `nvs_data.c` layer. It starts
  from the hard-coded credentials at lines 38-39.

## Model

| member | source | states |
|---|---|---|
| Base64.Encode | main/wifi_idf_test.c:70 | the encoding is 4·⌈n/3⌉ characters long and contains no NUL, so it can be used as a C string |
| Base64.DecodeEncode | main/wifi_idf_test.c:70-78 | decoding the encoding of any octet string gives that string back |
| Base64.EncodeInjective | main/wifi_idf_test.c:78 | two octet strings with the same encoding are equal, so the expected credential names exactly one `user:pass` |
| Base64Vectors.FoobarVector | main/wifi_idf_test.c:78 | "foobar" encodes to "Zm9vYmFy" (RFC 4648, section 10) |
| Base64Vectors.PaddedVectors | main/wifi_idf_test.c:78 | "", "f" and "fo" encode to "", "Zg==" and "Zm8=" (RFC 4648, section 10) |
| Base64Vectors.ExpectedCredentialValue | main/wifi_idf_test.c:49-53 | the credential built from admin/admin is "Basic YWRtaW46YWRtaW4=" |
| Base64Vectors.AdminHeaderAccepted | main/wifi_idf_test.c:85-104 | a request carrying that exact header is answered with the OTA page |
| BasicAuth.HttpAuthBasic | main/wifi_idf_test.c:62-82 | the digest starts with "Basic ", has no NUL, and its remainder decodes to the octets of `user:pass` |
| BasicAuth.DigestIsEncoding | main/wifi_idf_test.c:75-79 | the 512-byte size check always passes, so the digest is exactly "Basic " followed by the encoding |
| BasicAuth.StrNEqualIsCStringEquality | main/wifi_idf_test.c:95 | `strncmp` over `buf_len` bytes reports equality iff the expected string equals the header up to its first NUL |
| BasicAuth.BasicAuthGet | main/wifi_idf_test.c:85-113 | 200 with the OTA page iff a header of 1 to 511 bytes equals the expected credential up to its first NUL; otherwise 401 with the `WWW-Authenticate` challenge; always keep-alive and `ESP_OK` |
| ConfigRequest.MatchAt | main/wifi_idf_test.c:236 | a prefix comparison succeeds iff the pattern lies within the received bytes and equals them; it runs off the received bytes iff they end inside the pattern and agree with it up to there |
| ConfigRequest.ScanFrom | main/wifi_idf_test.c:240-248 | the copy loop stops at the first quote or at the bound; the bytes before it contain no quote |
| ConfigRequest.Parse | main/wifi_idf_test.c:228-273 | the corrected parser (SSID loop bound 32, password loop bound 63): accepted credentials have an SSID of at most 32 and a password of at most 63 characters, with no NUL |
| ConfigRequest.ParseAsWritten | main/wifi_idf_test.c:228-273 | the parser with the loop bounds as written (33 and 64): accepted credentials have an SSID of at most 33 and a password of at most 64 characters |
| ConfigRequest.ParseWithAccepted | main/wifi_idf_test.c:236-267 | whatever the loop bounds, credentials are returned only for a body made of `{"ssid": "`, a quote-free SSID field within the SSID bound, `", "psk": "`, a quote-free password field within the password bound and its closing quote, followed by anything; the credentials are the two fields up to their first NUL, as `strcpy` copies them |
| ConfigRequest.ShapeParses | main/wifi_idf_test.c:236-267 | conversely, every such body is accepted, and the credentials are the two fields up to their first NUL |
| ConfigRequest.ParseWithAccepts | main/wifi_idf_test.c:236-267 | both directions together: for any loop bounds, the parse returns given credentials iff the body has that shape with fields whose C strings are those credentials |
| ConfigRequest.ParseAccepts | main/wifi_idf_test.c:236-267 | the corrected parser returns given credentials iff the body has that shape with fields of at most 32 and 63 characters whose C strings are those credentials |
| ConfigRequest.ParseAsWrittenAccepts | main/wifi_idf_test.c:236-267 | the parser as written returns given credentials iff the body has that shape with fields of at most 33 and 64 characters whose C strings are those credentials |
| ConfigRequest.ParseRender | main/wifi_idf_test.c:236-270 | parsing a well-formed body, whatever follows it, gives back exactly the SSID and password it carries |
| ConfigRequest.ParseRefusesLongSsid | main/wifi_idf_test.c:240-247 | an SSID field longer than 32 characters is refused as too long |
| ConfigRequest.ParseRefusesLongPsk | main/wifi_idf_test.c:253-260 | after a valid SSID, a password field longer than 63 characters is refused as too long |
| ConfigRequest.AsWrittenAcceptsLongSsid | main/wifi_idf_test.c:240-248 | the loops as written accept a 33-character SSID and store its terminator at index 33 of a 33-byte array; the corrected parser refuses it |
| ConfigRequest.AsWrittenAcceptsLongPsk | main/wifi_idf_test.c:253-261 | the loops as written accept a 64-character password, and the password loop stops at index 64, where `new_pass[i] = '\0'` writes one past the 64-byte array; the corrected parser refuses it |
| ConfigRequest.LedHandler | main/wifi_idf_test.c:204-279 | 200 iff bytes were received, 408 on a socket timeout, no answer on other errors; `H`/`L` drive both channels full on or off; credentials are delivered iff the body parses as a credential request, within the field sizes, and they are the SSID and password that parse returns; the reply is flagged as reading stale buffer bytes iff something was received and the parse runs past it |
| ConfigRequest.LedHandlerAsWritten | main/wifi_idf_test.c:204-279 | the handler with the loops as written: the same status, result and light commands as the corrected handler; credentials are delivered iff the as-written parse accepts them, and they are the SSID and password it returns, of at most 33 and 64 characters |
| ConfigRequest.LedHandlerAccepts | main/wifi_idf_test.c:204-267 | the handler delivers given credentials iff bytes were received and they form a credential body with fields of at most 32 and 63 characters whose C strings are those credentials |
| ConfigRequest.LedHandlerStoresRendered | main/wifi_idf_test.c:204-267 | a credential body with plain fields of at most 32 and 63 characters that fits the 200-byte buffer, received whole, delivers exactly its SSID and password, drives no light and reads no stale byte |
| ConfigRequest.LedHandlerAsWrittenStoresRendered | main/wifi_idf_test.c:204-267 | the same for the handler as written, with fields of at most 33 and 64 characters |
| ConfigRequest.AsWrittenHandlerStoresLongSsid | main/wifi_idf_test.c:240-267 | a well-formed body with a 33-character SSID makes the handler as written store that SSID, while the corrected handler stores nothing |
| ConfigRequest.ShortPrefixReadsStale | main/wifi_idf_test.c:236 | a body that stops inside `{"ssid": "` (such as `{"ssid`) is flagged as reading stale bytes and delivers no credentials |
| OtaUpdate.AsInt32 | main/wifi_idf_test.c:121 | the `size_t` content length stored in an `int` keeps its value below 2^31 and turns negative from there |
| OtaUpdate.RecvLoop | main/wifi_idf_test.c:143-165 | the written bytes only grow and never exceed the announced length; with no failure, exactly that length has been written |
| OtaUpdate.RecvLoopRequests | main/wifi_idf_test.c:143-146 | each receive asks for MIN(remaining, 256) bytes, where remaining is the announced length minus the bytes written before it, and is positive |
| OtaUpdate.OtaPost | main/wifi_idf_test.c:116-195 | 200 iff a partition exists, begin, every chunk, end and set-boot succeed; success restarts after 2000 ms; failure answers 500, aborts iff the update had begun, and never sets the boot partition without a good end; `esp_ota_end` is called iff the partition exists, begin succeeds and the receive loop ends without failure, and set-boot iff end is called and succeeds; each receive asks for MIN(remaining, 256) bytes of what is left of the announced length |
| OtaUpdate.OtaPostHandler | main/wifi_idf_test.c:116-195 | the streaming loop computes the handler's outcome; the image is closed only after exactly the announced number of bytes |
| OtaUpdate.TimeoutsAreRetried | main/wifi_idf_test.c:145-152 | socket timeouts change neither the outcome nor the written bytes: the loop behaves as if they had not happened |
| OtaUpdate.CleanUploadCompletes | main/wifi_idf_test.c:143-165 | when every chunk arrives and is written, the loop ends without failure having written exactly the uploaded bytes in order |
| OtaUpdate.CleanUploadCommits | main/wifi_idf_test.c:170-184 | a clean upload of the announced length, with end and set-boot succeeding, is answered 200, installs exactly the payload and restarts |
| BootGuard.OtaTaskCalls | main/wifi_idf_test.c:509-519 | the task confirms the image iff it is pending verification, makes at most one call and never requests a rollback |
| BootGuard.ValidateOnBoot | main/wifi_idf_test.c:511-516 | after the task no image is left pending, none is invalidated, and any image not pending keeps its state |
| BootGuard.PendingImageSettles | main/wifi_idf_test.c:511-516 | a pending image becomes valid, and the next boot has nothing left to do |
| Supervisor.Boot | main/wifi_idf_test.c:457-470 | with an empty SSID the radio stays off and nothing is configured; otherwise station mode with the configured credentials |
| Supervisor.OnDisconnect | main/wifi_idf_test.c:341-361 | below 10 attempts: retry and count; at 10: give up and mark disconnected; the server is stopped iff one is recorded |
| Supervisor.OnGotIp | main/wifi_idf_test.c:364-374 | a new IP marks the station connected and starts a server iff none is recorded |
| Supervisor.OnLoopTick | main/wifi_idf_test.c:473-504 | after a pass the link counts as up iff no credentials were pending; switches to AP iff disconnected; to station iff credentials are pending; ends with a 1 s delay |
| Supervisor.OnConfigPost | main/wifi_idf_test.c:204-270 | credentials from a post are pending iff the handler delivered them, and then the station buffers hold exactly the delivered SSID and password; the driver calls are the handler's light commands, one for one and in order; nothing else in the state changes |
| Supervisor.ConfigPostStoresRendered | main/wifi_idf_test.c:236-270 | posting a credential body with plain fields of at most 32 and 63 characters stores exactly that SSID and password, raises `new_wifi_info` and issues no driver call |
| Supervisor.StaConfigOf | main/wifi_idf_test.c:441-442 | the station config holds prefixes of at most 32/64 bytes of the credentials, and the credentials themselves when they fit |
| Supervisor.DefaultApConfig | main/wifi_idf_test.c:443-455 | the access point `esp_wifi_network` on channel 1 for at most 4 stations is WPA/WPA2-protected, never open, because its built-in password is not empty; the code would make it open only for an empty password |
| Supervisor.StepKeepsInv | main/wifi_idf_test.c:341-374 | no event leaves a server handle behind and none raises the counter above 10 or lowers it, so the disconnect handler never reaches `httpd_stop` |
| Supervisor.RunKeepsInv | main/wifi_idf_test.c:352-358 | along any event sequence the counter never exceeds 10 or decreases, and no server handle is ever recorded |
| Supervisor.DisconnectRun | main/wifi_idf_test.c:352-358 | after k disconnects the counter is min(10, r+k), and the station stays connected iff it was and r+k ≤ 10 |
| Supervisor.NoProbeBack | main/wifi_idf_test.c:473-502 | in AP mode, no sequence of events without posted credentials ever brings the station back |
| Supervisor.BootWithoutSsidStartsAp | main/wifi_idf_test.c:457-485 | with no stored SSID the first loop pass brings up the access point and starts a server |
| Supervisor.CredentialsReachStation | main/wifi_idf_test.c:486-501 | credentials accepted by `led_handler` are the ones the next loop pass configures the station with |
| Supervisor.DefaultBootStartsStation | main/wifi_idf_test.c:38-39 | the built-in credentials start station mode with that config, then wait 15 s |
| SettingsStore.Opens | main/nvs_data.c:48 | an open succeeds only without an injected fault, and a read-only open of a namespace never written fails |
| SettingsStore.ReadDataFromNvs | main/nvs_data.c:44-120 | when the open fails nothing changes; otherwise every field becomes its stored value when one is readable and keeps its current value when not; duty cycles are untouched |
| SettingsStore.ReadCalls | main/nvs_data.c:53-118 | the reader opens read-only first and closes last, reading SSID, password, the four lights and the MQTT URI in that order |
| SettingsStore.SaveWifiInfo | main/nvs_data.c:123-162 | when the open fails nothing is written; otherwise both keys hold the new values unless their `set` failed, a key whose `set` failed keeps its old entry, no other key changes, and the handle is committed and closed |
| SettingsStore.SaveLights | main/nvs_data.c:173-194 | each light's name and enabled flag are stored unless their `set` failed; a key whose `set` failed keeps its old entry, and no key outside the light keys changes |
| SettingsStore.SaveLightInfo | main/nvs_data.c:165-206 | when the open fails nothing is written; otherwise the calls are the read-write open, the eight sets (name then flag for each light, in order), commit and close; every name and flag is stored unless its `set` failed, and a failed key keeps its old entry, as does every other key |
| SettingsStore.SaveMqttInfo | main/nvs_data.c:209-238 | the URI is stored unless its `set` failed, a failed `set` leaves the store as it was, nothing else changes, and the handle is committed and closed |
| SettingsStore.KeyTables | main/nvs_data.c:9-30 | the key tables follow the `l<i>_name`/`l<i>_en` pattern and no two keys coincide |
| SettingsStore.DutyCycleNotPersisted | main/nvs_data.c:173-194 | the saved store and the calls are the same for any two light tables that differ only in duty cycle |
| SettingsStore.LightSaveIgnoresDutyCycle | main/nvs_data.c:33-38 | saving the whole light table does not depend on the duty cycles |
| SettingsStore.WifiRoundTrip | main/nvs_data.c:53-67 | reading after saving gives back the SSID if it has at most 32 characters, and the password if it has at most 63; a longer one leaves the current value |
| SettingsStore.LightRoundTrip | main/nvs_data.c:78-104 | reading after saving gives back every light's name and enabled flag |
| SettingsStore.MqttRoundTrip | main/nvs_data.c:105-117 | reading after saving gives back a URI of at most 256 characters |
| SettingsStore.FailedSetIsSkipped | main/nvs_data.c:133-159 | a failing SSID `set` leaves the old SSID while the password is still written and committed |
| SettingsStore.FirstBootReadsNothing | main/nvs_data.c:48-50 | on a device never written, reading changes none of the current settings |

## Left out

- `main/lights_ledc.c` is not part of this model. `led_handler` is
  modelled down to the `(level, channel)` commands it issues to the LEDC
  driver.
- `app_main` is not modelled. Neither are NVS flash initialisation,
  mDNS, netif and event-loop creation, URI registration, `index_handler`
  with its embedded HTML, and `wifi_ap_handler`, which only logs.
- `ESP_ERROR_CHECK`: driver calls wrapped in it are assumed to succeed.
  The abort that would follow a failure is not modelled.
- `vTaskDelay` and `esp_restart` are recorded as labelled calls in the
  outcome (`Delay(ms)`, `restartAfterMs`). Time does not pass in the
  model.
- Concurrency is not modelled. Each event handler, HTTP handler or loop
  pass runs atomically, in an order chosen by the event sequence.
  Neither the races on the shared flags nor the missing `volatile` are
  modelled.
- Image validation inside `esp_ota_end` and the partition table are not
  modelled. Both are outcome parameters of the environment, together
  with every socket read and flash write.
- `esp_http_server`'s header lookup is not modelled. The handler receives
  the `Authorization` value or its absence.
- ConfigRequest.LedHandler: bytes past `ret` in the receive buffer are
  left from earlier requests. The model does not guess them. Any parse
  that would read them is reported as `ReadsPastReceived` and flagged
  with `readsStale`. The code compares and copies whatever stale bytes
  `content[200]` still holds (main/wifi_idf_test.c:207, :212, :236). So
  a body such as `{"ssid` sent after a full credential body may deliver
  the earlier credentials again and raise `new_wifi_info`. The model
  flags that case and delivers nothing.
- ConfigRequest.LedHandler: uses the corrected parser, so a 33-character
  SSID or a 64-character password is refused where the code as written
  accepts it. ConfigRequest.LedHandlerAsWritten is the handler as
  written, and ConfigRequest.AsWrittenHandlerStoresLongSsid shows the two
  apart.
- Supervisor.OnConfigPost: uses the corrected parser. The writes one past
  the end of `new_ssid` and `new_pass` made by the loops as written are
  therefore not part of the supervisor model. See the Findings section.
- BasicAuth.HttpAuthBasic: requires `user:pass` to fit the 128-byte
  buffer. The `sprintf` overflow for longer inputs is not modelled; the
  firmware only calls it with admin/admin.
- SettingsStore.SaveWifiInfo: the result of `nvs_commit` is only logged
  by the source, so the model records the call but not its outcome. Sets
  take effect at once, and NVS page and size limits are not modelled.
- SettingsStore.StoredStr: a key stored with another type counts as not
  found. That is the observable effect of `ESP_ERR_NVS_TYPE_MISMATCH`.
- BootGuard.ValidateOnBoot: the bootloader transitions beyond the one
  call `ota_task` makes (rollback on the next reset) are not modelled.
- OtaUpdate.RecvLoop: the source retries a socket timeout without limit
  (main/wifi_idf_test.c:148-151 is a bare `continue`). The model runs
  over a finite script of receive results, so an endless stall of
  timeouts is not modelled. A script that runs out before the announced
  length stands for a socket error.
- OtaUpdate.OtaPost: the handle from `esp_ota_begin` is not modelled.
  The model tracks whether the update has begun, been aborted, ended or
  set to boot.

## Findings

| source | as written | input that shows it | evidently intended | confidence | as-written member | corrected member |
|---|---|---|---|---|---|---|
| main/wifi_idf_test.c:240-248 | the SSID copy loop runs while `i < 33`, so a 33-character SSID is accepted and `new_ssid[33]` is written one past the end of the 33-byte array | body `{"ssid": "<33 × a>", "psk": "x"}` | at most 32 characters, as the log message says; a longer SSID is refused | medium, not executed | ConfigRequest.AsWrittenAcceptsLongSsid | ConfigRequest.ParseRefusesLongSsid |
| main/wifi_idf_test.c:253-261 | the password copy loop runs while `i < 64`, so a 64-character password is accepted and `new_pass[64]` is written one past the end of the 64-byte array | body `{"ssid": "a", "psk": "<64 × b>"}` | at most 63 characters, as the log message says; a longer password is refused | medium, not executed | ConfigRequest.AsWrittenAcceptsLongPsk | ConfigRequest.ParseRefusesLongPsk |
