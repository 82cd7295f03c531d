/** Wi-Fi provisioning over a SoftAP: the service name the access point
    advertises, the provisioning latch that keeps a second provisioning
    session from starting while one runs, the credentials copied out of the
    provisioning events, the timeout and failure tasks, the custom data
    endpoint and the reconnection to the stored network. The Wi-Fi driver,
    the provisioning manager and non-volatile storage are not modelled;
    their effects are fields of the state. */
module WifiProv {

  import opened Util

  const SsidSize: nat := 32
  const PasswordSize: nat := 64
  const ServiceNameSize: nat := 12
  const ServicePrefix: string := "BEE_"

  // ----- Service name -----

  /** `get_device_service_name`: `BEE_` and the last three bytes of the
      station MAC in upper-case hex, as far as the buffer allows. */
  function ServiceName(mac: seq<bv8>): (s: string)
    requires |mac| == 6
    ensures |s| == 10 && |s| < ServiceNameSize
    ensures s[..4] == ServicePrefix
    ensures ParseHex(s[4..]) == Some(mac[3..])
  {
    var full := ServicePrefix + HexString(mac[3..]);
    ParseHexString(mac[3..]);
    assert full[4..] == HexString(mac[3..]);
    Bounded(full, ServiceNameSize)
  }

  /** Two devices advertise the same name exactly when their MAC addresses
      agree in the last three bytes. */
  lemma ServiceNamesCollide(mac1: seq<bv8>, mac2: seq<bv8>)
    requires |mac1| == 6 && |mac2| == 6
    ensures ServiceName(mac1) == ServiceName(mac2) <==> mac1[3..] == mac2[3..]
  {
    var s1, s2 := ServiceName(mac1), ServiceName(mac2);
    if s1 == s2 {
      assert s1[4..] == s2[4..];
    }
    if mac1[3..] == mac2[3..] {
      assert s1[..4] == s2[..4];
      HexStringOfParse(s1[4..]);
      HexStringOfParse(s2[4..]);
      assert s1 == s1[..4] + s1[4..];
      assert s2 == s2[..4] + s2[4..];
    }
  }

  // ----- State -----

  datatype Credentials = Credentials(ssid: string, password: string)

  /** The provisioning side of the node. Task handles are numbers drawn from
      `nextHandle`, so a freshly created task is told apart from an older
      one. `stored` is what non-volatile storage holds and `station` the
      network the station was last started on. */
  datatype ProvState = ProvState(
    latched: bool,
    service: Option<string>,
    timeoutTask: Option<nat>,
    failTask: Option<nat>,
    nextHandle: nat,
    received: Credentials,
    stored: Credentials,
    station: Option<Credentials>,
    connectRequests: nat,
    connected: bool)

  /** The state after power-on: nothing latched, no task, nothing received
      and nothing stored. */
  const Boot: ProvState :=
    ProvState(false, None, None, None, 0, Credentials("", ""), Credentials("", ""), None, 0, false)

  /** What every reachable state keeps: the received and stored credentials
      fit their buffers, and every task handle was drawn before `nextHandle`. */
  predicate Valid(s: ProvState) {
    |s.received.ssid| < SsidSize && |s.received.password| < PasswordSize
    && |s.stored.ssid| < SsidSize && |s.stored.password| < PasswordSize
    && (s.timeoutTask.Some? ==> s.timeoutTask.value < s.nextHandle)
    && (s.failTask.Some? ==> s.failTask.value < s.nextHandle)
  }

  lemma BootValid()
    ensures Valid(Boot) && !Boot.latched
  {
  }

  // ----- Starting provisioning -----

  /** `wifi_prov`: when the latch is clear, latch it, advertise the service
      name and start the timeout task; when it is set, do nothing. */
  function StartProvisioning(s: ProvState, mac: seq<bv8>): (r: ProvState)
    requires |mac| == 6
    ensures s.latched ==> r == s
    ensures !s.latched ==> r.latched && r.service == Some(ServiceName(mac))
                           && r.timeoutTask == Some(s.nextHandle)
                           && r.failTask == s.failTask && r.received == s.received
                           && r.stored == s.stored && r.station == s.station
    ensures Valid(s) ==> Valid(r)
  {
    if s.latched then s
    else s.(latched := true, service := Some(ServiceName(mac)),
            timeoutTask := Some(s.nextHandle), nextHandle := s.nextHandle + 1)
  }

  // ----- Provisioning events -----

  datatype ProvEvent =
    | ProvStart
    | CredRecv(ssid: string, password: string)
    | CredFail
    | CredSuccess
    | ProvEnd

  /** The provisioning arm of `event_handler`. */
  function OnProvEvent(s: ProvState, e: ProvEvent): (r: ProvState)
    ensures e.CredRecv? ==> r.received.ssid <= e.ssid && r.received.password <= e.password
                            && (r.received.ssid == e.ssid <==> |e.ssid| < SsidSize)
                            && (r.received.password == e.password <==> |e.password| < PasswordSize)
    ensures e.CredFail? ==> r.timeoutTask == None && r.failTask == Some(s.nextHandle)
    ensures e.CredSuccess? ==> r.stored == s.received && r.timeoutTask == None && r.failTask == None
    ensures r.stored != s.stored ==> e.CredSuccess?
    ensures r.latched == (s.latched && !e.ProvEnd?)
    ensures Valid(s) ==> Valid(r)
  {
    match e
    case ProvStart => s
    case CredRecv(ssid, password) =>
      s.(received := Credentials(Bounded(ssid, SsidSize), Bounded(password, PasswordSize)))
    case CredFail =>
      s.(timeoutTask := None, failTask := Some(s.nextHandle), nextHandle := s.nextHandle + 1)
    case CredSuccess =>
      s.(stored := s.received, timeoutTask := None, failTask := None)
    case ProvEnd =>
      s.(latched := false, service := None)
  }

  /** A failure always leaves a fail task that did not exist before it:
      any earlier one is replaced, never kept. */
  lemma FailTaskReplaced(s: ProvState)
    requires Valid(s)
    ensures OnProvEvent(s, CredFail).failTask.Some?
    ensures s.failTask.Some? ==> OnProvEvent(s, CredFail).failTask != s.failTask
    ensures s.timeoutTask.Some? ==> OnProvEvent(s, CredFail).failTask != s.timeoutTask
  {
  }

  // ----- Station and IP events -----

  datatype WifiEvent = StaStart | StaDisconnected | ApStaConnected | ApStaDisconnected | GotIp

  /** The Wi-Fi and IP arms of `event_handler`: a started or disconnected
      station asks to connect, an address sets the connected bit. */
  function OnWifiEvent(s: ProvState, e: WifiEvent): (r: ProvState)
    ensures r.connectRequests == s.connectRequests + (if e.StaStart? || e.StaDisconnected? then 1 else 0)
    ensures r.connected <==> s.connected || e.GotIp?
    ensures r.latched == s.latched && r.stored == s.stored && r.received == s.received
  {
    match e
    case StaStart => s.(connectRequests := s.connectRequests + 1)
    case StaDisconnected => s.(connectRequests := s.connectRequests + 1)
    case ApStaConnected => s
    case ApStaDisconnected => s
    case GotIp => s.(connected := true)
  }

  // ----- Reconnection and the two tasks -----

  /** `reconnect_old_wifi`: with a stored SSID, start the station on the
      stored network and ask it to connect; with none, do nothing. */
  function ReconnectOldWifi(s: ProvState): (r: ProvState)
    ensures |s.stored.ssid| > 0 ==> r.station == Some(s.stored)
                                    && r.connectRequests == s.connectRequests + 1
    ensures |s.stored.ssid| == 0 ==> r == s
    ensures r.latched == s.latched && r.stored == s.stored
  {
    if |s.stored.ssid| > 0 then
      s.(station := Some(s.stored), connectRequests := s.connectRequests + 1)
    else s
  }

  /** What the timeout task does once its wait is over: stop provisioning,
      fall back to the stored network and delete itself. The task itself
      leaves the latch alone; the manager's `WIFI_PROV_END` arrives later as
      an input of `Run`. */
  function TimeoutTaskExpires(s: ProvState): (r: ProvState)
    ensures r.timeoutTask == None && r.failTask == s.failTask
    ensures r.latched == s.latched && r.stored == s.stored
    ensures r.station == (if |s.stored.ssid| > 0 then Some(s.stored) else s.station)
  {
    ReconnectOldWifi(s).(timeoutTask := None, service := None)
  }

  /** The same for the failure task; here too the latch is cleared only by
      the `WIFI_PROV_END` that follows as an input. */
  function FailTaskExpires(s: ProvState): (r: ProvState)
    ensures r.failTask == None && r.timeoutTask == s.timeoutTask
    ensures r.latched == s.latched && r.stored == s.stored
    ensures r.station == (if |s.stored.ssid| > 0 then Some(s.stored) else s.station)
  {
    ReconnectOldWifi(s).(failTask := None, service := None)
  }

  // ----- Runs -----

  /** Everything that can happen to the provisioning state: a request to
      provision (a button press), a provisioning event, a Wi-Fi event, or
      one of the tasks finishing its wait. */
  datatype Input =
    | Request(mac: seq<bv8>)
    | Prov(event: ProvEvent)
    | Wifi(wifiEvent: WifiEvent)
    | TimeoutElapsed
    | FailElapsed

  predicate WellFormed(i: Input) {
    i.Request? ==> |i.mac| == 6
  }

  function Step(s: ProvState, i: Input): (r: ProvState)
    requires WellFormed(i)
    ensures Valid(s) ==> Valid(r)
  {
    match i
    case Request(mac) => StartProvisioning(s, mac)
    case Prov(e) => OnProvEvent(s, e)
    case Wifi(e) => OnWifiEvent(s, e)
    case TimeoutElapsed => if s.timeoutTask.Some? then TimeoutTaskExpires(s) else s
    case FailElapsed => if s.failTask.Some? then FailTaskExpires(s) else s
  }

  /** The state after a run of inputs, applied first to last. */
  function Run(s: ProvState, ins: seq<Input>): (r: ProvState)
    requires forall k | 0 <= k < |ins| :: WellFormed(ins[k])
    ensures Valid(s) ==> Valid(r)
    decreases |ins|
  {
    if |ins| == 0 then s else Step(Run(s, ins[..|ins| - 1]), ins[|ins| - 1])
  }

  /** The latch is set after a run exactly when some provisioning request
      has not yet been followed by `WIFI_PROV_END`, or it was set before and
      no `WIFI_PROV_END` arrived at all. */
  predicate LatchedAfter(latched: bool, ins: seq<Input>) {
    (exists k | 0 <= k < |ins| :: ins[k].Request? && NoEndIn(ins, k + 1))
    || (latched && NoEndIn(ins, 0))
  }

  /** No `WIFI_PROV_END` at or after position `from`. */
  predicate NoEndIn(ins: seq<Input>, from: nat) {
    forall j | from <= j < |ins| :: ins[j] != Prov(ProvEnd)
  }

  /** Only `WIFI_PROV_END` clears the latch, and only a request sets it. */
  lemma {:induction false} LatchRule(s: ProvState, ins: seq<Input>)
    requires forall k | 0 <= k < |ins| :: WellFormed(ins[k])
    ensures Run(s, ins).latched <==> LatchedAfter(s.latched, ins)
    decreases |ins|
  {
    if |ins| > 0 {
      var n := |ins| - 1;
      LatchRule(s, ins[..n]);
      StepLatch(Run(s, ins[..n]), ins[n]);
      if ins[n] == Prov(ProvEnd) {
        LatchAfterEnd(s.latched, ins);
      } else if ins[n].Request? {
        assert ins[n].Request? && NoEndIn(ins, n + 1);
      } else {
        LatchAfterOther(s.latched, ins);
      }
    }
  }

  lemma StepLatch(s: ProvState, i: Input)
    requires WellFormed(i)
    ensures Step(s, i).latched == (i != Prov(ProvEnd) && (i.Request? || s.latched))
  {
  }

  lemma LatchAfterEnd(latched: bool, ins: seq<Input>)
    requires |ins| > 0 && ins[|ins| - 1] == Prov(ProvEnd)
    ensures !LatchedAfter(latched, ins)
  {
    var n := |ins| - 1;
    assert !NoEndIn(ins, 0);
    forall k | 0 <= k < |ins| ensures !(ins[k].Request? && NoEndIn(ins, k + 1)) {
      if k < n {
        assert ins[n] == Prov(ProvEnd);
      }
    }
  }

  lemma LatchAfterOther(latched: bool, ins: seq<Input>)
    requires |ins| > 0 && ins[|ins| - 1] != Prov(ProvEnd) && !ins[|ins| - 1].Request?
    ensures LatchedAfter(latched, ins) == LatchedAfter(latched, ins[..|ins| - 1])
  {
    var n := |ins| - 1;
    var pre := ins[..n];
    assert ins == pre + [ins[n]];
    NoEndExtends(pre, ins[n]);
    if exists k | 0 <= k < |pre| :: pre[k].Request? && NoEndIn(pre, k + 1) {
      var k :| 0 <= k < |pre| && pre[k].Request? && NoEndIn(pre, k + 1);
      assert ins[k].Request? && NoEndIn(ins, k + 1);
    }
    if exists k | 0 <= k < |ins| :: ins[k].Request? && NoEndIn(ins, k + 1) {
      var k :| 0 <= k < |ins| && ins[k].Request? && NoEndIn(ins, k + 1);
      assert pre[k].Request? && NoEndIn(pre, k + 1);
    }
  }

  /** Appending anything but `WIFI_PROV_END` keeps every "no end from here"
      fact of the prefix. */
  lemma NoEndExtends(pre: seq<Input>, x: Input)
    requires x != Prov(ProvEnd)
    ensures forall from: nat | from <= |pre| :: NoEndIn(pre + [x], from) == NoEndIn(pre, from)
  {
    forall from: nat | from <= |pre| ensures NoEndIn(pre + [x], from) == NoEndIn(pre, from) {
      if NoEndIn(pre, from) {
        forall j | from <= j < |pre| + 1 ensures (pre + [x])[j] != Prov(ProvEnd) {
          if j < |pre| {
            assert (pre + [x])[j] == pre[j];
          }
        }
      }
      if NoEndIn(pre + [x], from) {
        forall j | from <= j < |pre| ensures pre[j] != Prov(ProvEnd) {
          assert (pre + [x])[j] == pre[j];
        }
      }
    }
  }

  /** Credentials reach storage only through `WIFI_PROV_CRED_SUCCESS`, and
      what is stored is what was last received. */
  lemma StoredOnlyOnSuccess(s: ProvState, i: Input)
    requires WellFormed(i)
    ensures Step(s, i).stored != s.stored ==> i == Prov(CredSuccess) && Step(s, i).stored == s.received
  {
  }

  // ----- The custom data endpoint -----

  datatype EndpointReply = NoMem | Reply(bytes: seq<char>, len: nat)

  const Success: string := "SUCCESS"

  /** The C string a buffer holds: its characters up to the first NUL. */
  function CString(bytes: seq<char>): (s: string)
    ensures s <= bytes
    ensures forall k | 0 <= k < |s| :: s[k] != '\0'
    ensures |s| < |bytes| ==> bytes[|s|] == '\0'
    decreases |bytes|
  {
    if |bytes| == 0 || bytes[0] == '\0' then [] else [bytes[0]] + CString(bytes[1..])
  }

  /** `custom_prov_data_handler`: a copy of `"SUCCESS"` with its terminating
      NUL, whose length counts the NUL; `NO_MEM` only when the copy cannot
      be allocated. The incoming data is only logged. */
  function CustomDataReply(allocOk: bool): (r: EndpointReply)
    ensures r.NoMem? <==> !allocOk
    ensures r.Reply? ==> r.len == |r.bytes| == 8 && CString(r.bytes) == Success
                         && r.len == |CString(r.bytes)| + 1
  {
    if !allocOk then NoMem
    else
      var bytes := Success + ['\0'];
      SuccessString(bytes);
      Reply(bytes, |Success| + 1)
  }

  lemma SuccessString(bytes: seq<char>)
    requires bytes == Success + ['\0']
    ensures CString(bytes) == Success
  {
    TerminatedString(Success);
  }

  /** A string without NUL, followed by a NUL, reads back as itself. */
  lemma {:induction false} TerminatedString(s: string)
    requires forall k | 0 <= k < |s| :: s[k] != '\0'
    ensures CString(s + ['\0']) == s
    decreases |s|
  {
    if |s| > 0 {
      assert (s + ['\0'])[1..] == s[1..] + ['\0'];
      TerminatedString(s[1..]);
    }
  }
}
