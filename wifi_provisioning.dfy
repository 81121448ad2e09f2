/**
 * WiFi provisioning (`wifi_provisioning.c`): the station connection state
 * kept in `current_state`, the retry machine of the WiFi event handler, the
 * provisioning HTTP server's start/stop flags, the `/config` handler's
 * checks, and the loading and saving of credentials in the "wifi_cred" NVS
 * namespace.
 *
 * The WiFi driver, the HTTP server, cJSON and the event group are outside
 * the model: what they return is a parameter, and what they are asked to do
 * is recorded as an effect. NVS is a map from blob key to bytes, with the
 * failures its calls can report given as parameters. C strings are byte
 * sequences without a NUL.
 */
module WifiProvisioning {
  import opened Platform

  const MAX_CONNECTION_ATTEMPTS: int := 3
  const SSID_BUF: nat := 32        // sizeof(ssid)
  const PASSWORD_BUF: nat := 64    // sizeof(password)
  const MAX_BODY: nat := 1024
  const SSID_KEY: string := "sta.ssid"
  const PASSWORD_KEY: string := "sta.pswd"

  type Bytes = seq<uint8>

  /** What the handlers ask of the WiFi driver, the event group, NVS and the FreeRTOS scheduler. */
  datatype WifiEffect =
    | Restart                                    // esp_restart
    | Connect                                    // esp_wifi_connect
    | StartAp                                    // start_ap_mode
    | SetFailBit                                 // WIFI_FAIL_BIT
    | SetConnectedBit                            // WIFI_CONNECTED_BIT
    | SetConnectSuccessSent                      // WIFI_CONNECT_SUCCESS_SENT
    | WaitBits                                   // wait for CONNECTED or FAIL, clearing both on exit
    | SaveCredentials(ssid: Bytes, password: Bytes)
    | ScheduleCleanup                            // the delayed_provisioning_cleanup task
    | ConfigureSta(ssid: Bytes, password: Bytes) // esp_wifi_set_config of the station

  /** `strncpy(dst, src, n)` into a zeroed buffer of `n + 1` bytes: the first `n` bytes at most. */
  function Truncate(s: Bytes, n: nat): (t: Bytes)
    ensures |t| == if |s| <= n then |s| else n
    ensures t == s[..|t|]
  {
    if |s| <= n then s else s[..n]
  }

  // ---------------------------------------------------------------------------
  // Connection state and the provisioning server

  /** `prov_state_t` without `max_connection_attempts`, which stays 3. */
  datatype ProvState = ProvState(
    ssid: Bytes, password: Bytes, complete: bool, connected: bool,
    attempts: int, failed: bool, hasCredentials: bool)

  /** The static initial `current_state`. */
  const InitialState := ProvState([], [], false, false, 0, false, false)

  /** `server != NULL` and `provisioning_active`. */
  datatype Http = Http(running: bool, active: bool)

  /** `start_provisioning_server`, with `httpdOk` what `httpd_start` reports. */
  function StartServer(h: Http, httpdOk: bool): (r: (Http, EspErr))
  {
    if h.running then (h, EspOk)
    else if httpdOk then (Http(true, true), EspOk)
    else (h, EspFail)
  }

  /** `stop_provisioning_server`. */
  function StopServer(h: Http): (r: Http)
  {
    if h.running then Http(false, false) else h
  }

  /** The server flag and the active flag agree. */
  predicate ServerFlagsAgree(h: Http)
  {
    h.running == h.active
  }

  /**
   * Starting a running server is a no-op returning `ESP_OK`; a start reports
   * `ESP_OK` exactly when the server then runs, and then it is marked
   * active; stopping leaves it stopped and inactive, and a second stop (or a
   * second start after a successful one) changes nothing. Both keep the two
   * flags in agreement.
   */
  lemma ServerStartStop(h: Http, httpdOk: bool, again: bool)
    requires ServerFlagsAgree(h)
    ensures h.running ==> StartServer(h, httpdOk) == (h, EspOk)
    ensures var (h', r) := StartServer(h, httpdOk);
      && (r == EspOk <==> h'.running)
      && (r == EspOk ==> h'.active)
      && ServerFlagsAgree(h')
      && (r == EspOk ==> StartServer(h', again) == (h', EspOk))
    ensures StopServer(h) == Http(false, false)
    ensures StopServer(StopServer(h)) == StopServer(h)
  {
  }

  /**
   * `WIFI_EVENT_STA_DISCONNECTED`: ignored without credentials; after a
   * connection the device restarts (and `esp_restart` does not return);
   * otherwise a retry while fewer than 3 attempts were made, else the
   * connection is marked failed and, unless the provisioning server is
   * already active, the AP and the server are started; if it is active, the
   * fail bit is set.
   */
  function Disconnect(st: ProvState, h: Http, httpdOk: bool): (r: (ProvState, Http, seq<WifiEffect>))
  {
    if !st.hasCredentials then (st, h, [])
    else if st.connected then (st, h, [Restart])
    else if st.attempts >= MAX_CONNECTION_ATTEMPTS then
      var failed := st.(connected := false, failed := true);
      if !h.active then (failed, StartServer(h, httpdOk).0, [StartAp])
      else (failed, h, [SetFailBit])
    else (st.(connected := false, attempts := st.attempts + 1), h, [Connect])
  }

  /**
   * `IP_EVENT_STA_GOT_IP`: connected and complete, the credentials saved,
   * the connected bit set while the server runs, and the cleanup task
   * created.
   */
  function GotIp(st: ProvState, h: Http): (r: (ProvState, seq<WifiEffect>))
  {
    (st.(connected := true, complete := true),
     [SaveCredentials(st.ssid, st.password)] + (if h.running then [SetConnectedBit] else []) + [ScheduleCleanup])
  }

  /** A disconnect changes nothing while no credentials are configured. */
  lemma DisconnectWithoutCredentials(st: ProvState, h: Http, httpdOk: bool)
    requires !st.hasCredentials
    ensures Disconnect(st, h, httpdOk) == (st, h, [])
  {
  }

  /** A disconnect after a connection only restarts the device; GOT_IP is what connects. */
  lemma LostConnectionRestarts(st: ProvState, h: Http, httpdOk: bool)
    requires st.hasCredentials
    ensures Disconnect(GotIp(st, h).0, h, httpdOk).2 == [Restart]
    ensures GotIp(st, h).0.connected && GotIp(st, h).0.complete
    ensures GotIp(st, h).1[0] == SaveCredentials(st.ssid, st.password)
  {
  }

  /** A disconnect keeps the attempt count between 0 and 3. */
  lemma DisconnectKeepsBound(st: ProvState, h: Http, httpdOk: bool)
    requires 0 <= st.attempts <= MAX_CONNECTION_ATTEMPTS
    ensures 0 <= Disconnect(st, h, httpdOk).0.attempts <= MAX_CONNECTION_ATTEMPTS
    ensures Disconnect(st, h, httpdOk).0.attempts != st.attempts ==>
      Disconnect(st, h, httpdOk).0.attempts == st.attempts + 1 && Disconnect(st, h, httpdOk).2 == [Connect]
  {
  }

  /** `n` disconnects in a row, each seeing the same `httpd_start` result. */
  function Disconnects(st: ProvState, h: Http, n: nat, httpdOk: bool): (r: (ProvState, Http, seq<WifiEffect>))
  {
    if n == 0 then (st, h, [])
    else
      var r := Disconnects(st, h, n - 1, httpdOk);
      var s := Disconnect(r.0, r.1, httpdOk);
      (s.0, s.1, r.2 + s.2)
  }

  function Min(a: int, b: int): int
  {
    if a <= b then a else b
  }

  /**
   * With credentials and no connection, `n` disconnects after `a` attempts
   * bring the attempts to `min(a + n, 3)`: each of the first `3 - a` retries
   * (and nothing else happens while they last); the connection is failed
   * exactly when a disconnect came with 3 attempts made.
   */
  lemma {:induction false} RetriesThenFails(st: ProvState, h: Http, n: nat, httpdOk: bool)
    requires st.hasCredentials && !st.connected && 0 <= st.attempts <= MAX_CONNECTION_ATTEMPTS
    ensures var r := Disconnects(st, h, n, httpdOk);
      && r.0.hasCredentials && !r.0.connected
      && r.0.attempts == Min(st.attempts + n, MAX_CONNECTION_ATTEMPTS)
      && r.0.failed == (st.failed || st.attempts + n > MAX_CONNECTION_ATTEMPTS)
      && (st.attempts + n <= MAX_CONNECTION_ATTEMPTS ==> r.2 == seq(n, _ => Connect) && r.1 == h)
  {
    if n > 0 {
      RetriesThenFails(st, h, n - 1, httpdOk);
      var r := Disconnects(st, h, n - 1, httpdOk);
      if st.attempts + n <= MAX_CONNECTION_ATTEMPTS {
        assert r.2 + [Connect] == seq(n, _ => Connect);
      }
    }
  }

  // ---------------------------------------------------------------------------
  // The /config handler

  /** The JSON body as cJSON sees it: the `ssid` and `password` items where they are strings. */
  datatype Json = Json(ssid: Option<Bytes>, password: Option<Bytes>)

  /** The HTTP answer of the handler. */
  datatype HttpReply =
    | TooLarge414 | RecvFailed500 | InvalidJson400 | MissingSsid400 | ConnectFailed500 | CredentialsFailed500
    | Success

  /**
   * The receive loop: `httpd_req_recv` results in call order until
   * `total` bytes arrived; false at the first result that is not positive.
   */
  function BodyReceived(total: nat, recv: nat -> int, cur: int, k: nat): bool
    decreases total - cur
  {
    if cur >= total then true
    else if recv(k) <= 0 then false
    else BodyReceived(total, recv, cur + recv(k), k + 1)
  }

  /** Positive results always complete the body; a first failing result before any byte fails it. */
  lemma {:induction false} BodyReceivedRule(total: nat, recv: nat -> int, cur: int, k: nat)
    ensures (forall j :: j >= k ==> recv(j) > 0) ==> BodyReceived(total, recv, cur, k)
    ensures cur < total && recv(k) <= 0 ==> !BodyReceived(total, recv, cur, k)
    decreases total - cur
  {
    if cur < total && recv(k) > 0 {
      BodyReceivedRule(total, recv, cur + recv(k), k + 1);
    }
  }

  /**
   * The state once `config_handler` accepts a body: the SSID cut to 31
   * bytes, the password cut to 63 (empty when it is not a string), and the
   * retry machine reset with credentials present.
   */
  function Accept(st: ProvState, ssid: Bytes, password: Option<Bytes>): (r: ProvState)
  {
    st.(ssid := Truncate(ssid, SSID_BUF - 1),
        password := if password.Some? then Truncate(password.value, PASSWORD_BUF - 1) else [],
        attempts := 0, failed := false, connected := false, hasCredentials := true)
  }

  /** A body `config_handler` goes on with: under 1024 bytes, received whole, parsed, with a string `ssid`. */
  predicate BodyAccepted(contentLen: nat, recv: nat -> int, json: Option<Json>)
  {
    contentLen < MAX_BODY && BodyReceived(contentLen, recv, 0, 0) && json.Some? && json.value.ssid.Some?
  }

  /** The two bits of `wifi_event_group` the handler waits for. */
  datatype EventBits = EventBits(connected: bool, fail: bool)

  /**
   * The bits left in the group once `xEventGroupWaitBits` returns with
   * `xClearOnExit` set: both waited-for bits are cleared, whatever ended the
   * wait.
   */
  function ClearedOnExit(woke: EventBits): (left: EventBits)
    ensures !left.connected && !left.fail
  {
    woke.(connected := false, fail := false)
  }

  /**
   * `config_handler` as written: rejects a body of 1024 bytes or more, a
   * failed receive, unparsable JSON or a missing string `ssid`, all without
   * touching the state. Otherwise it stores the SSID (31 bytes at most) and
   * the password (63 at most, empty if not a string), resets the attempt
   * count and the failed and connected flags, marks credentials present,
   * and then configures and connects the station. `woke` holds the bits
   * that ended the wait.
   */
  function Config(st: ProvState, contentLen: nat, recv: nat -> int, json: Option<Json>,
                  connectOk: bool, woke: EventBits, sendResult: EspErr)
    : (r: (ProvState, EspErr, HttpReply, seq<WifiEffect>))
  {
    if contentLen >= MAX_BODY then (st, EspFail, TooLarge414, [])
    else if !BodyReceived(contentLen, recv, 0, 0) then (st, EspFail, RecvFailed500, [])
    else if json.None? then (st, EspFail, InvalidJson400, [])
    else if json.value.ssid.None? then (st, EspFail, MissingSsid400, [])
    else
      Connected(Accept(st, json.value.ssid.value, json.value.password), connectOk, woke, sendResult)
  }

  /**
   * The rest of `config_handler` as written: configure, connect, wait with
   * clear-on-exit, then test the fail bit by reading the group again, which
   * by then no longer holds it.
   */
  function Connected(st: ProvState, connectOk: bool, woke: EventBits, sendResult: EspErr)
    : (r: (ProvState, EspErr, HttpReply, seq<WifiEffect>))
  {
    var configure := [ConfigureSta(st.ssid, st.password)];
    if !connectOk then (st, EspFail, ConnectFailed500, configure + [Connect])
    else if ClearedOnExit(woke).fail then (st, EspFail, CredentialsFailed500, configure + [Connect, WaitBits])
    else (st, sendResult, Success, configure + [Connect, WaitBits, SetConnectSuccessSent])
  }

  /** `config_handler` with the fail test on the bits the wait returned. */
  function ConfigChecked(st: ProvState, contentLen: nat, recv: nat -> int, json: Option<Json>,
                         connectOk: bool, woke: EventBits, sendResult: EspErr)
    : (r: (ProvState, EspErr, HttpReply, seq<WifiEffect>))
  {
    if !BodyAccepted(contentLen, recv, json) then Config(st, contentLen, recv, json, connectOk, woke, sendResult)
    else ConnectedChecked(Accept(st, json.value.ssid.value, json.value.password), connectOk, woke, sendResult)
  }

  /** The tail of the handler, answering from the bits that ended the wait. */
  function ConnectedChecked(st: ProvState, connectOk: bool, woke: EventBits, sendResult: EspErr)
    : (r: (ProvState, EspErr, HttpReply, seq<WifiEffect>))
  {
    var configure := [ConfigureSta(st.ssid, st.password)];
    if !connectOk then (st, EspFail, ConnectFailed500, configure + [Connect])
    else if woke.fail then (st, EspFail, CredentialsFailed500, configure + [Connect, WaitBits])
    else (st, sendResult, Success, configure + [Connect, WaitBits, SetConnectSuccessSent])
  }

  /**
   * A body of 1024 bytes or more, one that does not arrive whole, one that
   * does not parse, or one without a string `ssid` is refused with
   * `ESP_FAIL`, and nothing changes.
   */
  lemma ConfigRejects(st: ProvState, contentLen: nat, recv: nat -> int, json: Option<Json>,
                      connectOk: bool, woke: EventBits, sendResult: EspErr)
    requires !BodyAccepted(contentLen, recv, json)
    ensures var r := Config(st, contentLen, recv, json, connectOk, woke, sendResult);
      && r.0 == st && r.1 == EspFail && r.3 == []
      && r.2 == (if contentLen >= MAX_BODY then TooLarge414
                 else if !BodyReceived(contentLen, recv, 0, 0) then RecvFailed500
                 else if json.None? then InvalidJson400
                 else MissingSsid400)
      && ConfigChecked(st, contentLen, recv, json, connectOk, woke, sendResult) == r
  {
  }

  /**
   * As written, an accepted body is stored and the station configured, and
   * the handler answers success exactly when `esp_wifi_connect` succeeded:
   * the fail bit never reaches the test.
   */
  lemma ConfigAnswersAsWritten(st: ProvState, contentLen: nat, recv: nat -> int, json: Option<Json>,
                               connectOk: bool, woke: EventBits, sendResult: EspErr)
    requires BodyAccepted(contentLen, recv, json)
    ensures var r := Config(st, contentLen, recv, json, connectOk, woke, sendResult);
      && r.0 == Accept(st, json.value.ssid.value, json.value.password)
      && r.3[0] == ConfigureSta(r.0.ssid, r.0.password)
      && (r.2 == Success <==> connectOk)
      && (r.2 == Success ==> r.1 == sendResult && SetConnectSuccessSent in r.3)
      && (r.2 != Success ==> r.1 == EspFail && r.2 == ConnectFailed500 && SetConnectSuccessSent !in r.3)
  {
  }

  /**
   * The discrepancy: credentials the station rejected three times set the
   * fail bit, which ends the wait, yet the handler answers success and marks
   * the success reply as sent; testing the returned bits refuses them.
   */
  lemma SuccessAfterFailAsWritten(st: ProvState, contentLen: nat, recv: nat -> int, json: Option<Json>,
                                  sendResult: EspErr)
    requires BodyAccepted(contentLen, recv, json)
    ensures var r := Config(st, contentLen, recv, json, true, EventBits(false, true), sendResult);
      r.2 == Success && r.1 == sendResult && r.3[|r.3| - 1] == SetConnectSuccessSent
    ensures var r := ConfigChecked(st, contentLen, recv, json, true, EventBits(false, true), sendResult);
      r.2 == CredentialsFailed500 && r.1 == EspFail && SetConnectSuccessSent !in r.3
  {
  }

  /**
   * With the fail test on the returned bits, an accepted body stores its
   * credentials whatever the connection then does, the station is
   * configured with them, and the handler reports success only after the
   * connection was started and the wait ended without the fail bit; it
   * answers as the handler as written whenever the fail bit did not end the
   * wait.
   */
  lemma ConfigAccepts(st: ProvState, contentLen: nat, recv: nat -> int, json: Option<Json>,
                      connectOk: bool, woke: EventBits, sendResult: EspErr)
    requires BodyAccepted(contentLen, recv, json)
    ensures var r := ConfigChecked(st, contentLen, recv, json, connectOk, woke, sendResult);
      && r.0 == Accept(st, json.value.ssid.value, json.value.password)
      && r.3[0] == ConfigureSta(r.0.ssid, r.0.password)
      && (r.2 == Success <==> connectOk && !woke.fail)
      && (r.2 == Success <==> SetConnectSuccessSent in r.3)
      && (r.2 != Success ==> r.1 == EspFail)
      && (!woke.fail ==> r == Config(st, contentLen, recv, json, connectOk, woke, sendResult))
  {
  }

  /**
   * The accepted SSID and password are prefixes of the given ones, of at
   * most 31 and 63 bytes and whole when they fit; the retry machine starts
   * over; whether provisioning completed is kept.
   */
  lemma AcceptRule(st: ProvState, ssid: Bytes, password: Option<Bytes>)
    ensures var r := Accept(st, ssid, password);
      && |r.ssid| < SSID_BUF && |r.password| < PASSWORD_BUF
      && r.ssid == ssid[..|r.ssid|]
      && (|ssid| < SSID_BUF ==> r.ssid == ssid)
      && (password.None? ==> r.password == [])
      && (password.Some? ==> r.password == password.value[..|r.password|])
      && (password.Some? && |password.value| < PASSWORD_BUF ==> r.password == password.value)
      && r.attempts == 0 && !r.failed && !r.connected && r.hasCredentials
      && r.complete == st.complete
  {
  }

  /** Credentials accepted by the handler get three retries before the connection is failed. */
  lemma AcceptedCredentialsRetry(st: ProvState, h: Http, contentLen: nat, recv: nat -> int, json: Option<Json>,
                                 connectOk: bool, woke: EventBits, sendResult: EspErr, httpdOk: bool)
    requires BodyAccepted(contentLen, recv, json)
    ensures var st' := Config(st, contentLen, recv, json, connectOk, woke, sendResult).0;
      && Disconnects(st', h, 3, httpdOk).2 == [Connect, Connect, Connect]
      && !Disconnects(st', h, 3, httpdOk).0.failed
      && Disconnects(st', h, 4, httpdOk).0.failed
  {
    var st' := Config(st, contentLen, recv, json, connectOk, woke, sendResult).0;
    RetriesThenFails(st', h, 3, httpdOk);
    RetriesThenFails(st', h, 4, httpdOk);
    assert seq(3, _ => Connect) == [Connect, Connect, Connect];
  }

  /**
   * `connect_wifi_with_credentials`: nothing for NULL; otherwise the
   * credentials, cut to 31 and 63 bytes, are stored, the attempt count and
   * the failed and connected flags reset, and the station configured and
   * connected (the password only when non-empty).
   */
  function ConnectWith(st: ProvState, creds: Option<Credentials>): (r: (ProvState, seq<WifiEffect>))
  {
    if creds.None? then (st, [])
    else
      var ssid := Truncate(creds.value.ssid, SSID_BUF - 1);
      var password := Truncate(creds.value.password, PASSWORD_BUF - 1);
      (st.(ssid := ssid, password := password, attempts := 0, failed := false, connected := false),
       [ConfigureSta(ssid, if |creds.value.password| > 0 then password else []), Connect])
  }

  /** Loaded credentials reach the state unchanged, and a connection attempt restarts the retry count. */
  lemma ConnectWithLoaded(st: ProvState, c: Credentials)
    requires |c.ssid| < SSID_BUF && |c.password| < PASSWORD_BUF
    ensures var (st', effects) := ConnectWith(st, Some(c));
      && st'.ssid == c.ssid && st'.password == c.password
      && st'.attempts == 0 && !st'.failed && !st'.connected && st'.hasCredentials == st.hasCredentials
      && effects == [ConfigureSta(c.ssid, c.password), Connect]
  {
  }

  // ---------------------------------------------------------------------------
  // Credentials in NVS

  /** The "wifi_cred" namespace. */
  type Namespace = map<string, Bytes>

  /** `wifi_credentials_t`. */
  datatype Credentials = Credentials(ssid: Bytes, password: Bytes)

  /**
   * What the NVS calls of a load report besides a missing key (`EspOk`
   * where they succeed), and the value `password_len` holds when the
   * password length query fails without writing it.
   */
  datatype ReadFaults = ReadFaults(ssidQuery: EspErr, ssidRead: EspErr, passwordQuery: EspErr,
                                   passwordLeftover: nat, passwordRead: EspErr)

  const NoReadFaults := ReadFaults(EspOk, EspOk, EspOk, 0, EspOk)

  /** `nvs_get_blob(h, key, NULL, &len)`: the stored length, or the error. */
  datatype Query = Found(len: nat) | QueryErr(err: EspErr)

  function QueryBlob(ns: Namespace, key: string, fault: EspErr): (q: Query)
    ensures fault == EspOk && key in ns ==> q == Found(|ns[key]|)
  {
    if fault != EspOk then QueryErr(fault)
    else if key in ns then Found(|ns[key]|)
    else QueryErr(ErrNvsNotFound)
  }

  /** `nvs_get_blob(h, key, buf, &len)` with room for `room` bytes: the blob, or None where it fails. */
  function ReadBlob(ns: Namespace, key: string, room: nat, fault: EspErr): (b: Option<Bytes>)
    ensures b.Some? ==> key in ns && b.value == ns[key] && |b.value| <= room
  {
    if fault != EspOk || key !in ns || |ns[key]| > room then None else Some(ns[key])
  }

  /**
   * `load_wifi_credentials_from_nvs` on a non-NULL buffer, with `open` what
   * `nvs_open` returns: the result and the buffer's contents.
   */
  function Load(open: EspErr, ns: Namespace, f: ReadFaults): (r: (EspErr, Credentials))
    ensures r.0 == EspOk ==> 0 < |r.1.ssid| < SSID_BUF && |r.1.password| < PASSWORD_BUF
    ensures r.0 != EspOk ==> r.1.password == []
  {
    if open != EspOk then (open, Credentials([], []))
    else
      match QueryBlob(ns, SSID_KEY, f.ssidQuery)
      case QueryErr(e) => (if e == ErrNvsNotFound then ErrNotFound else e, Credentials([], []))
      case Found(ssidLen) =>
        if ssidLen == 0 then (ErrNotFound, Credentials([], []))
        else if ssidLen >= SSID_BUF then (ErrInvalidSize, Credentials([], []))
        else
          match ReadBlob(ns, SSID_KEY, ssidLen, f.ssidRead)
          case None => (ErrNotFound, Credentials([], []))
          case Some(ssid) => LoadPassword(ns, f, ssid)
  }

  /** The password half of a load, once the SSID is in the buffer. */
  function LoadPassword(ns: Namespace, f: ReadFaults, ssid: Bytes): (r: (EspErr, Credentials))
    requires 0 < |ssid| < SSID_BUF
    ensures r.1.ssid == ssid
    ensures r.0 == EspOk || r.0 == ErrInvalidSize
    ensures r.0 == EspOk ==> |r.1.password| < PASSWORD_BUF
    ensures r.0 != EspOk ==> r.1.password == []
  {
    var q := QueryBlob(ns, PASSWORD_KEY, f.passwordQuery);
    var passwordLen := if q.Found? then q.len else f.passwordLeftover;
    if q == QueryErr(ErrNvsNotFound) || passwordLen == 0 then (EspOk, Credentials(ssid, []))
    else if passwordLen >= PASSWORD_BUF then (ErrInvalidSize, Credentials(ssid, []))
    else
      match ReadBlob(ns, PASSWORD_KEY, passwordLen, f.passwordRead)
      case None => (EspOk, Credentials(ssid, []))
      case Some(password) => (EspOk, Credentials(ssid, password))
  }

  /**
   * With every NVS call succeeding, a load is a function of the two blobs:
   * no or an empty SSID is `ESP_ERR_NOT_FOUND`, an SSID of 32 bytes or more
   * `ESP_ERR_INVALID_SIZE`; no or an empty password is an open network; a
   * password of 64 bytes or more is `ESP_ERR_INVALID_SIZE`.
   */
  lemma LoadFromBlobs(ns: Namespace)
    ensures Load(EspOk, ns, NoReadFaults) ==
      if SSID_KEY !in ns || |ns[SSID_KEY]| == 0 then (ErrNotFound, Credentials([], []))
      else if |ns[SSID_KEY]| >= SSID_BUF then (ErrInvalidSize, Credentials([], []))
      else if PASSWORD_KEY !in ns || |ns[PASSWORD_KEY]| == 0 then (EspOk, Credentials(ns[SSID_KEY], []))
      else if |ns[PASSWORD_KEY]| >= PASSWORD_BUF then (ErrInvalidSize, Credentials(ns[SSID_KEY], []))
      else (EspOk, Credentials(ns[SSID_KEY], ns[PASSWORD_KEY]))
  {
  }

  /**
   * A failure to open the namespace is returned as is; a failing second
   * read of a password of acceptable length still loads, as an open
   * network.
   */
  lemma LoadFailures(open: EspErr, ns: Namespace, f: ReadFaults)
    ensures open != EspOk ==> Load(open, ns, f) == (open, Credentials([], []))
    ensures open == EspOk && f.ssidQuery == EspOk && f.ssidRead == EspOk && f.passwordQuery == EspOk
            && f.passwordRead != EspOk && SSID_KEY in ns && 0 < |ns[SSID_KEY]| < SSID_BUF
            && PASSWORD_KEY in ns && 0 < |ns[PASSWORD_KEY]| < PASSWORD_BUF
            ==> Load(open, ns, f) == (EspOk, Credentials(ns[SSID_KEY], []))
  {
  }

  /** What the NVS writes of a save report (`EspOk` where they succeed). */
  datatype WriteFaults = WriteFaults(setSsid: EspErr, setPassword: EspErr, commit: EspErr)

  const NoWriteFaults := WriteFaults(EspOk, EspOk, EspOk)

  /**
   * `save_wifi_credentials_to_nvs` as written, with `open` what `nvs_open`
   * returns: the result and the namespace afterwards. The password blob is
   * written only when the password is non-empty, the commit only when every
   * write before it succeeded, and only a commit makes the writes stay.
   */
  function SaveAsWritten(open: EspErr, ns: Namespace, f: WriteFaults, ssid: Bytes, password: Bytes)
    : (r: (EspErr, Namespace))
    ensures r.0 == EspOk <==>
      open == EspOk && f.setSsid == EspOk && (|password| == 0 || f.setPassword == EspOk) && f.commit == EspOk
    ensures r.1 != ns ==> r.0 == EspOk
    ensures r.0 == EspOk ==> SSID_KEY in r.1 && r.1[SSID_KEY] == ssid
    ensures r.0 == EspOk && |password| > 0 ==> PASSWORD_KEY in r.1 && r.1[PASSWORD_KEY] == password
    ensures r.0 == EspOk && |password| == 0 ==> r.1 == ns[SSID_KEY := ssid]
  {
    if open == ErrNvsNotInitialized then (ErrInvalidState, ns)
    else if open != EspOk then (open, ns)
    else
      var ret := f.setSsid;
      var ret := if ret == EspOk && |password| > 0 then f.setPassword else ret;
      var written := if |password| > 0 then ns[SSID_KEY := ssid][PASSWORD_KEY := password] else ns[SSID_KEY := ssid];
      if ret != EspOk then (ret, ns)
      else if f.commit != EspOk then (f.commit, ns)
      else (EspOk, written)
  }

  /**
   * Saving an open network's SSID over earlier credentials with a password
   * leaves the old password blob in place, so the next load returns the new
   * SSID with the old password.
   */
  lemma StalePasswordAsWritten()
    ensures var old_ := map[SSID_KEY := [72, 111, 109, 101], PASSWORD_KEY := [115, 101, 99, 114, 101, 116]];
      var (r, ns) := SaveAsWritten(EspOk, old_, NoWriteFaults, [67, 97, 102, 101], []);
      && r == EspOk
      && Load(EspOk, ns, NoReadFaults) == (EspOk, Credentials([67, 97, 102, 101], [115, 101, 99, 114, 101, 116]))
  {
    var old_: Namespace := map[SSID_KEY := [72, 111, 109, 101], PASSWORD_KEY := [115, 101, 99, 114, 101, 116]];
    var ns := SaveAsWritten(EspOk, old_, NoWriteFaults, [67, 97, 102, 101], []).1;
    assert ns == old_[SSID_KEY := [67, 97, 102, 101]];
    LoadFromBlobs(ns);
  }

  /**
   * The save the load expects: as written, except that an empty password
   * erases the password blob (the erase reporting through `setPassword`).
   */
  function Save(open: EspErr, ns: Namespace, f: WriteFaults, ssid: Bytes, password: Bytes)
    : (r: (EspErr, Namespace))
    ensures r.0 == EspOk <==> open == EspOk && f.setSsid == EspOk && f.setPassword == EspOk && f.commit == EspOk
    ensures r.1 != ns ==> r.0 == EspOk
  {
    if open == ErrNvsNotInitialized then (ErrInvalidState, ns)
    else if open != EspOk then (open, ns)
    else
      var ret := f.setSsid;
      var ret := if ret == EspOk then f.setPassword else ret;
      var written := if |password| > 0 then ns[SSID_KEY := ssid][PASSWORD_KEY := password]
                     else ns[SSID_KEY := ssid] - {PASSWORD_KEY};
      if ret != EspOk then (ret, ns)
      else if f.commit != EspOk then (f.commit, ns)
      else (EspOk, written)
  }

  /**
   * Credentials the `/config` handler accepts (a non-empty SSID of at most
   * 31 bytes, a password of at most 63) load back exactly after a save
   * that succeeds, whatever the namespace held before.
   */
  lemma SaveLoadRoundTrip(ns: Namespace, ssid: Bytes, password: Bytes)
    requires 0 < |ssid| < SSID_BUF && |password| < PASSWORD_BUF
    ensures var (r, ns') := Save(EspOk, ns, NoWriteFaults, ssid, password);
      r == EspOk && Load(EspOk, ns', NoReadFaults) == (EspOk, Credentials(ssid, password))
  {
    var ns' := Save(EspOk, ns, NoWriteFaults, ssid, password).1;
    assert SSID_KEY != PASSWORD_KEY;
    LoadFromBlobs(ns');
  }

  // ---------------------------------------------------------------------------
  // The module's globals, updated in place

  /** The caller's `wifi_credentials_t` buffer. */
  class CredentialsBuffer {
    var ssid: Bytes
    var password: Bytes

    constructor ()
      ensures ssid == [] && password == []
    {
      ssid, password := [], [];
    }
  }

  /**
   * `load_wifi_credentials_from_nvs`: `ESP_ERR_INVALID_ARG` for NULL;
   * otherwise the buffer is cleared and filled as far as the checks get.
   */
  method LoadCredentials(buf: CredentialsBuffer?, open: EspErr, ns: Namespace, f: ReadFaults) returns (r: EspErr)
    modifies buf
    ensures buf == null ==> r == ErrInvalidArg
    ensures buf != null ==> r == Load(open, ns, f).0 && Credentials(buf.ssid, buf.password) == Load(open, ns, f).1
  {
    if buf == null {
      return ErrInvalidArg;
    }
    buf.ssid, buf.password := [], [];
    if open != EspOk {
      return open;
    }
    var q := QueryBlob(ns, SSID_KEY, f.ssidQuery);
    if q == QueryErr(ErrNvsNotFound) {
      return ErrNotFound;
    }
    if q.QueryErr? {
      return q.err;
    }
    if q.len == 0 {
      return ErrNotFound;
    }
    if q.len >= SSID_BUF {
      return ErrInvalidSize;
    }
    var ssid := ReadBlob(ns, SSID_KEY, q.len, f.ssidRead);
    if ssid.None? {
      return ErrNotFound;
    }
    buf.ssid := ssid.value;
    var pq := QueryBlob(ns, PASSWORD_KEY, f.passwordQuery);
    var passwordLen := if pq.Found? then pq.len else f.passwordLeftover;
    if pq == QueryErr(ErrNvsNotFound) || passwordLen == 0 {
      buf.password := [];
      return EspOk;
    }
    if passwordLen >= PASSWORD_BUF {
      return ErrInvalidSize;
    }
    var password := ReadBlob(ns, PASSWORD_KEY, passwordLen, f.passwordRead);
    if password.None? {
      buf.password := [];
    } else {
      buf.password := password.value;
    }
    r := EspOk;
  }

  /** `current_state`, `server` and `provisioning_active`, and the effects requested so far. */
  class Provisioning {
    var ssid: Bytes
    var password: Bytes
    var provisioningComplete: bool
    var wifiConnected: bool
    var connectionAttempts: int
    const maxConnectionAttempts: int
    var connectionFailed: bool
    var hasCredentials: bool
    var server: bool
    var provisioningActive: bool
    var effects: seq<WifiEffect>

    /** The attempt count stays within the limit, and the server flags agree. */
    ghost predicate Valid()
      reads this
    {
      && maxConnectionAttempts == MAX_CONNECTION_ATTEMPTS
      && 0 <= connectionAttempts <= maxConnectionAttempts
      && server == provisioningActive
    }

    function State(): ProvState
      reads this
    {
      ProvState(ssid, password, provisioningComplete, wifiConnected, connectionAttempts, connectionFailed,
                hasCredentials)
    }

    function Server(): Http
      reads this
    {
      Http(server, provisioningActive)
    }

    constructor ()
      ensures Valid() && State() == InitialState && Server() == Http(false, false) && effects == []
    {
      ssid, password := [], [];
      provisioningComplete, wifiConnected := false, false;
      connectionAttempts, maxConnectionAttempts := 0, 3;
      connectionFailed, hasCredentials := false, false;
      server, provisioningActive := false, false;
      effects := [];
    }

    /** `start_provisioning_server`. */
    method StartProvisioningServer(httpdOk: bool) returns (r: EspErr)
      requires Valid()
      modifies this
      ensures Valid() && (Server(), r) == StartServer(old(Server()), httpdOk)
      ensures State() == old(State()) && effects == old(effects)
    {
      if server {
        return EspOk;
      }
      if httpdOk {
        server := true;
        provisioningActive := true;
        return EspOk;
      }
      r := EspFail;
    }

    /** `stop_provisioning_server`. */
    method StopProvisioningServer()
      requires Valid()
      modifies this
      ensures Valid() && Server() == StopServer(old(Server()))
      ensures State() == old(State()) && effects == old(effects)
    {
      if server {
        server := false;
        provisioningActive := false;
      }
    }

    /** The `WIFI_EVENT_STA_DISCONNECTED` branch of `wifi_event_handler`. */
    method OnStaDisconnected(httpdOk: bool)
      requires Valid()
      modifies this
      ensures Valid()
      ensures var r := Disconnect(old(State()), old(Server()), httpdOk);
        State() == r.0 && Server() == r.1 && effects == old(effects) + r.2
    {
      if !hasCredentials {
        return;
      }
      if wifiConnected {
        effects := effects + [Restart];
        return;
      }
      wifiConnected := false;
      if connectionAttempts >= maxConnectionAttempts && !wifiConnected {
        connectionFailed := true;
        if !provisioningActive {
          effects := effects + [StartAp];
          var _ := StartProvisioningServer(httpdOk);
        } else {
          effects := effects + [SetFailBit];
        }
      } else {
        connectionAttempts := connectionAttempts + 1;
        effects := effects + [Connect];
      }
    }

    /** The `IP_EVENT_STA_GOT_IP` branch of `wifi_event_handler`. */
    method OnGotIp()
      requires Valid()
      modifies this
      ensures Valid() && Server() == old(Server())
      ensures var r := GotIp(old(State()), old(Server()));
        State() == r.0 && effects == old(effects) + r.1
    {
      wifiConnected := true;
      provisioningComplete := true;
      var t := [SaveCredentials(ssid, password)];
      if server {
        t := t + [SetConnectedBit];
      }
      effects := effects + t + [ScheduleCleanup];
    }

    /** The receive loop of `config_handler`. */
    static method ReceiveBody(total: nat, recv: nat -> int) returns (ok: bool)
      ensures ok == BodyReceived(total, recv, 0, 0)
    {
      var cur := 0;
      var k := 0;
      while cur < total
        invariant BodyReceived(total, recv, cur, k) == BodyReceived(total, recv, 0, 0)
        decreases total - cur
      {
        var received := recv(k);
        if received <= 0 {
          return false;
        }
        cur := cur + received;
        k := k + 1;
      }
      ok := true;
    }

    /** The state updates of `config_handler` once the body is accepted. */
    method AcceptCredentials(newSsid: Bytes, newPassword: Option<Bytes>)
      requires Valid()
      modifies this
      ensures Valid() && Server() == old(Server()) && effects == old(effects)
      ensures State() == Accept(old(State()), newSsid, newPassword)
    {
      ssid := Truncate(newSsid, SSID_BUF - 1);
      if newPassword.Some? {
        password := Truncate(newPassword.value, PASSWORD_BUF - 1);
      } else {
        password := [];
      }
      connectionAttempts := 0;
      connectionFailed := false;
      wifiConnected := false;
      hasCredentials := true;
    }

    /** `config_handler`. */
    method ConfigHandler(contentLen: nat, recv: nat -> int, json: Option<Json>,
                         connectOk: bool, woke: EventBits, sendResult: EspErr)
      returns (r: EspErr, reply: HttpReply)
      requires Valid()
      modifies this
      ensures Valid() && Server() == old(Server())
      ensures var c := Config(old(State()), contentLen, recv, json, connectOk, woke, sendResult);
        State() == c.0 && r == c.1 && reply == c.2 && effects == old(effects) + c.3
    {
      if contentLen >= MAX_BODY {
        return EspFail, TooLarge414;
      }
      var received := ReceiveBody(contentLen, recv);
      if !received {
        return EspFail, RecvFailed500;
      }
      if json.None? {
        return EspFail, InvalidJson400;
      }
      if json.value.ssid.None? {
        return EspFail, MissingSsid400;
      }
      AcceptCredentials(json.value.ssid.value, json.value.password);
      r, reply := ConnectAndAnswer(connectOk, woke, sendResult);
    }

    /**
     * The tail of `config_handler`: configure the station, connect, wait for
     * either bit (the wait clears both as it returns), then read the group
     * for the fail bit and answer.
     */
    method ConnectAndAnswer(connectOk: bool, woke: EventBits, sendResult: EspErr) returns (r: EspErr, reply: HttpReply)
      modifies this`effects
      ensures var c := Connected(State(), connectOk, woke, sendResult);
        r == c.1 && reply == c.2 && effects == old(effects) + c.3
    {
      effects := effects + [ConfigureSta(ssid, password), Connect];
      if !connectOk {
        return EspFail, ConnectFailed500;
      }
      effects := effects + [WaitBits];
      var left := ClearedOnExit(woke);
      if left.fail {
        return EspFail, CredentialsFailed500;
      }
      effects := effects + [SetConnectSuccessSent];
      r, reply := sendResult, Success;
    }

    /** `connect_wifi_with_credentials`. */
    method ConnectWithCredentials(creds: Option<Credentials>)
      requires Valid()
      modifies this
      ensures Valid() && Server() == old(Server())
      ensures var c := ConnectWith(old(State()), creds);
        State() == c.0 && effects == old(effects) + c.1
    {
      if creds.None? {
        return;
      }
      ssid := Truncate(creds.value.ssid, SSID_BUF - 1);
      password := Truncate(creds.value.password, PASSWORD_BUF - 1);
      connectionAttempts := 0;
      connectionFailed := false;
      wifiConnected := false;
      var staPassword := if |creds.value.password| > 0 then password else [];
      effects := effects + [ConfigureSta(ssid, staPassword), Connect];
    }
  }
}
