/** The MQTT side of the node: the identity string and topics built from
    the station MAC address, the four kinds of published message with their
    quality of service and the 8-bit transaction code stamped on each, the
    subscription made on connection, and the decision the OTA listener takes
    on each command it receives. JSON encoding and the MQTT client itself
    are not modelled: a message is an abstract record. */
module Mqtt {

  import opened Util

  type uint8 = x: int | 0 <= x < 256

  const MacSize: nat := 6
  const MacStrSize: nat := 13
  const TopicSize: nat := 64
  const TopicRoot: string := "VB/DMP/VBEEON/CUSTOM/SMH/"
  const FirmwareVersion: real := 1.0

  // ----- Identity and topics -----

  /** `cMac_str`: `%02X` of each MAC byte, in order. */
  function MacString(mac: seq<bv8>): (s: string)
    requires |mac| == MacSize
    ensures |s| == 12
    ensures forall i | 0 <= i < |s| :: IsUpperHex(s[i])
    ensures ParseHex(s) == Some(mac)
  {
    ParseHexString(mac);
    Bounded(HexString(mac), MacStrSize)
  }

  /** The publish topic, as far as it fits its buffer. */
  function TelemetryTopic(macStr: string): (t: string)
    ensures |macStr| == 12 ==> |t| == 47 && t == TopicRoot + macStr + "/telemetry"
    ensures |t| < TopicSize
  {
    Bounded(TopicRoot + macStr + "/telemetry", TopicSize)
  }

  /** The subscribe topic for commands, as far as it fits its buffer. */
  function CommandTopic(macStr: string): (t: string)
    ensures |macStr| == 12 ==> |t| == 45 && t == TopicRoot + macStr + "/Command"
    ensures |t| < TopicSize
  {
    Bounded(TopicRoot + macStr + "/Command", TopicSize)
  }

  /** Two devices share a topic only if they share a MAC address. */
  lemma TopicsIdentifyDevice(mac1: seq<bv8>, mac2: seq<bv8>)
    requires |mac1| == MacSize && |mac2| == MacSize
    requires TelemetryTopic(MacString(mac1)) == TelemetryTopic(MacString(mac2))
    ensures mac1 == mac2
  {
    var s1, s2 := MacString(mac1), MacString(mac2);
    var t := TelemetryTopic(s1);
    assert s1 == t[|TopicRoot|..|TopicRoot| + 12];
    assert s2 == t[|TopicRoot|..|TopicRoot| + 12];
  }

  // ----- Publishing -----

  /** The four `pub_*` messages. `Quantity` is the shape of the wake cycle's
      two telemetry calls, which name one quantity each; it is published as
      `pub_data` publishes. */
  datatype Payload =
    | Data(temperature: real, humidity: real)
    | Quantity(name: string, value: real)
    | Warning(code: nat)
    | KeepAlive
    | OtaStatus(status: string)

  datatype QoS = AtMostOnce | AtLeastOnce

  /** Telemetry and keep-alives may be lost; warnings and OTA status are
      acknowledged. */
  function QosOf(p: Payload): (q: QoS)
    ensures q == AtLeastOnce <==> p.Warning? || p.OtaStatus?
  {
    match p
    case Data(_, _) => AtMostOnce
    case Quantity(_, _) => AtMostOnce
    case Warning(_) => AtLeastOnce
    case KeepAlive => AtMostOnce
    case OtaStatus(_) => AtLeastOnce
  }

  /** The `cmd_name` field of each message; the keep-alive has none. */
  function CmdName(p: Payload): Option<string> {
    match p
    case Data(_, _) => Some("Bee.data")
    case Quantity(_, _) => Some("Bee.data")
    case Warning(_) => Some("Bee.data")
    case KeepAlive => None
    case OtaStatus(_) => Some("Bee_ota")
  }

  datatype Message = Message(topic: string, thingToken: string, payload: Payload, transCode: uint8, qos: QoS)

  /** What the publisher keeps: its identity, its topic, the transaction
      code of the next message (kept across deep sleep), and the messages
      published so far. */
  datatype Publisher = Publisher(macStr: string, topic: string, transCode: uint8, sent: seq<Message>)

  /** `mqtt_func_init`'s formatting of identity and topic. The transaction
      code is not reset: it lives in memory that survives deep sleep. */
  function InitPublisher(mac: seq<bv8>, transCode: uint8): (p: Publisher)
    requires |mac| == MacSize
    ensures ParseHex(p.macStr) == Some(mac)
    ensures p.topic == TopicRoot + p.macStr + "/telemetry"
    ensures p.transCode == transCode && p.sent == []
  {
    var s := MacString(mac);
    Publisher(s, TelemetryTopic(s), transCode, [])
  }

  /** One `pub_*` call: the message carries the current code, then the code
      steps by one, wrapping from 255 to 0. */
  function Publish(pub: Publisher, p: Payload): (r: Publisher)
    ensures r.sent == pub.sent + [Message(pub.topic, pub.macStr, p, pub.transCode, QosOf(p))]
    ensures r.transCode == (pub.transCode + 1) % 256
    ensures r.macStr == pub.macStr && r.topic == pub.topic
  {
    var code := if pub.transCode == 255 then 0 else pub.transCode + 1;
    pub.(transCode := code, sent := pub.sent + [Message(pub.topic, pub.macStr, p, pub.transCode, QosOf(p))])
  }

  function PublishAll(pub: Publisher, ps: seq<Payload>): (r: Publisher)
    ensures |r.sent| == |pub.sent| + |ps|
    decreases |ps|
  {
    if |ps| == 0 then pub else PublishAll(Publish(pub, ps[0]), ps[1..])
  }

  /** The messages a run of publications is expected to produce: the
      `i`-th payload stamped with the starting code plus `i`, modulo 256. */
  function Stamped(pub: Publisher, ps: seq<Payload>): (ms: seq<Message>)
    ensures |ms| == |ps|
  {
    seq(|ps|, i requires 0 <= i < |ps| =>
      Message(pub.topic, pub.macStr, ps[i], (pub.transCode + i) % 256, QosOf(ps[i])))
  }

  /** Any run of publications appends exactly the stamped messages, and
      leaves as next code the starting code plus the number of messages,
      modulo 256. */
  lemma {:induction false} TransCodesCount(pub: Publisher, ps: seq<Payload>)
    ensures PublishAll(pub, ps).sent == pub.sent + Stamped(pub, ps)
    ensures PublishAll(pub, ps).transCode == (pub.transCode + |ps|) % 256
    ensures PublishAll(pub, ps).macStr == pub.macStr && PublishAll(pub, ps).topic == pub.topic
    decreases |ps|
  {
    if |ps| == 0 {
      assert pub.sent + Stamped(pub, ps) == pub.sent;
    } else {
      var next := Publish(pub, ps[0]);
      TransCodesCount(next, ps[1..]);
      ModAdd(pub.transCode + 1, |ps| - 1);
      StampedStep(pub, ps);
      assert next.sent + Stamped(next, ps[1..]) == pub.sent + ([next.sent[|pub.sent|]] + Stamped(next, ps[1..]));
    }
  }

  /** Stamping the first payload, then the rest from the stepped code, is
      stamping them all. */
  lemma StampedStep(pub: Publisher, ps: seq<Payload>)
    requires |ps| > 0
    ensures [Message(pub.topic, pub.macStr, ps[0], pub.transCode, QosOf(ps[0]))] + Stamped(Publish(pub, ps[0]), ps[1..])
         == Stamped(pub, ps)
  {
    var next := Publish(pub, ps[0]);
    var lhs := [Message(pub.topic, pub.macStr, ps[0], pub.transCode, QosOf(ps[0]))] + Stamped(next, ps[1..]);
    forall k | 0 <= k < |ps|
      ensures lhs[k] == Stamped(pub, ps)[k]
    {
      if k > 0 {
        ModAdd(pub.transCode + 1, k - 1);
        assert lhs[k] == Stamped(next, ps[1..])[k - 1];
      }
    }
  }

  /** Codes repeat only after 256 messages: any 256 consecutive messages
      carry pairwise different codes. */
  lemma CodesDistinctWithinWindow(pub: Publisher, ps: seq<Payload>, i: nat, j: nat)
    requires i < j < |ps| && j - i < 256
    ensures Stamped(pub, ps)[i].transCode != Stamped(pub, ps)[j].transCode
  {
    ModDistinct(pub.transCode + i, pub.transCode + j);
  }

  lemma ModAdd(x: nat, k: nat)
    ensures (x % 256 + k) % 256 == (x + k) % 256
  {
    var q := x / 256;
    assert x == 256 * q + x % 256;
    assert x + k == 256 * q + (x % 256 + k);
  }

  lemma ModDistinct(a: nat, b: nat)
    requires a < b < a + 256
    ensures a % 256 != b % 256
  {
    var qa, qb := a / 256, b / 256;
    var d := b % 256 - a % 256;
    assert b - a == 256 * (qb - qa) + d;
    if qb == qa {
      assert d == b - a;
    } else {
      assert qb - qa >= 1;
    }
  }

  // ----- Connection -----

  /** On `MQTT_EVENT_CONNECTED` the command topic is subscribed only while
      the button task is running. */
  function OnConnected(macStr: string, buttonTask: bool): (sub: Option<string>)
    ensures sub.Some? <==> buttonTask
    ensures sub.Some? && |macStr| == 12 ==> sub.value == TopicRoot + macStr + "/Command"
  {
    if buttonTask then Some(CommandTopic(macStr)) else None
  }

  // ----- The OTA listener -----

  /** The fields the listener reads from a command. */
  datatype OtaCommand = OtaCommand(
    thingToken: string, entityType: string, cmdName: string, objectType: string,
    url: string, version: real)

  /** What one wait on the command queue yields: nothing within fifteen
      seconds, a message that is not JSON, JSON that lacks a field the
      listener reads or holds a non-string in a string field the comparison
      reaches, or a complete command. */
  datatype Received = TimedOut | Unparseable | Malformed | Parsed(cmd: OtaCommand)

  /** What the listener does about a message: start the update from a URL,
      restart the device, or crash on a null field, which also ends in a
      reboot, through the panic handler. */
  datatype Action = StartOta(url: string) | Restart | Crash

  /** The command the server sends to move this device to `version`. */
  function Offer(macStr: string, url: string, version: real): OtaCommand {
    OtaCommand(macStr, "module_sht3x", "Bee.ota", "Bee.ota_info", url, version)
  }

  /** The listener's test: addressed to this device, for this module, an
      OTA command carrying OTA information, and a newer version. */
  predicate Accepts(macStr: string, c: OtaCommand) {
    c.thingToken == macStr && c.entityType == "module_sht3x" && c.cmdName == "Bee.ota"
    && c.objectType == "Bee.ota_info" && c.version > FirmwareVersion
  }

  /** Exactly the server's offers of a newer version are accepted. */
  lemma AcceptsOnlyOffers(macStr: string, c: OtaCommand)
    ensures Accepts(macStr, c) <==> c == Offer(macStr, c.url, c.version) && c.version > FirmwareVersion
  {
  }

  /** One pass of the listener's loop: the action taken, if any. A message
      that is not JSON is dropped and the listener waits again; JSON whose
      fields are missing is dereferenced all the same. */
  function OnReceive(macStr: string, r: Received): (a: Option<Action>)
    ensures a.None? <==> r.Unparseable?
    ensures a == Some(Crash) <==> r.Malformed?
    ensures a == Some(Restart) <==> r.TimedOut? || (r.Parsed? && !Accepts(macStr, r.cmd))
    ensures a.Some? && a.value.StartOta? <==> r.Parsed? && Accepts(macStr, r.cmd)
    ensures a.Some? && a.value.StartOta? ==> a.value.url == r.cmd.url
  {
    match r
    case TimedOut => Some(Restart)
    case Unparseable => None
    case Malformed => Some(Crash)
    case Parsed(c) => if Accepts(macStr, c) then Some(StartOta(c.url)) else Some(Restart)
  }

  /** The reference for the listener: what it would do about each message
      in turn, were it never to stop. */
  function Responses(macStr: string, rs: seq<Received>): (out: seq<Action>)
    ensures |out| <= |rs|
    ensures out == [] <==> forall i | 0 <= i < |rs| :: OnReceive(macStr, rs[i]).None?
    decreases |rs|
  {
    if |rs| == 0 then []
    else
      var tail := Responses(macStr, rs[1..]);
      assert tail == [] <==> forall i | 1 <= i < |rs| :: OnReceive(macStr, rs[i]).None? by {
        forall i | 1 <= i < |rs| ensures rs[i] == rs[1..][i - 1] { }
      }
      match OnReceive(macStr, rs[0])
      case None => tail
      case Some(a) => [a] + tail
  }

  /** A response that ends the listener: everything but an update start. */
  predicate Ends(a: Action) {
    !a.StartOta?
  }

  /** `rx_mqtt_ota_task`: publish the `Check_ota` status, then handle what
      arrives. A restart or a crash ends the run; an OTA start that returns
      lets the loop wait again. The result is the publisher afterwards and
      the actions taken in order: the responses up to and including the
      first that ends the run. */
  function RxTask(pub: Publisher, rs: seq<Received>): (r: (Publisher, seq<Action>))
    ensures r.0 == Publish(pub, OtaStatus("Check_ota"))
    ensures r.1 <= Responses(pub.macStr, rs)
    ensures forall k | 0 <= k < |r.1| - 1 :: !Ends(r.1[k])
    ensures |r.1| < |Responses(pub.macStr, rs)| ==> |r.1| > 0 && Ends(r.1[|r.1| - 1])
    ensures r.1 == [] <==> forall i | 0 <= i < |rs| :: OnReceive(pub.macStr, rs[i]).None?
  {
    (Publish(pub, OtaStatus("Check_ota")), Listen(pub.macStr, rs))
  }

  function Listen(macStr: string, rs: seq<Received>): (acts: seq<Action>)
    ensures acts <= Responses(macStr, rs)
    ensures forall k | 0 <= k < |acts| - 1 :: !Ends(acts[k])
    ensures |acts| < |Responses(macStr, rs)| ==> |acts| > 0 && Ends(acts[|acts| - 1])
    ensures acts == [] <==> Responses(macStr, rs) == []
    ensures |acts| <= |rs|
    decreases |rs|
  {
    if |rs| == 0 then []
    else
      match OnReceive(macStr, rs[0])
      case None => Listen(macStr, rs[1..])
      case Some(StartOta(u)) => [StartOta(u)] + Listen(macStr, rs[1..])
      case Some(a) => [a]
  }

  /** With no answer from the server the device restarts at once. */
  lemma SilenceRestarts(pub: Publisher, rest: seq<Received>)
    ensures RxTask(pub, [TimedOut] + rest).1 == [Restart]
  {
  }

  /** JSON without the fields the listener reads crashes the device
      instead of being dropped like text that is not JSON. */
  lemma MalformedCrashes(pub: Publisher, rest: seq<Received>)
    ensures RxTask(pub, [Malformed] + rest).1 == [Crash]
    ensures RxTask(pub, [Unparseable] + rest).1 == RxTask(pub, rest).1
  {
    assert ([Unparseable] + rest)[1..] == rest;
  }

  /** A wrong command restarts the device; an offer of a newer version for
      this device starts the update from the offered URL. */
  lemma OfferHandled(pub: Publisher, url: string, version: real, rest: seq<Received>)
    ensures var acts := RxTask(pub, [Parsed(Offer(pub.macStr, url, version))] + rest).1;
            |acts| >= 1 && (acts[0] == StartOta(url) <==> version > FirmwareVersion)
            && (acts[0] == Restart <==> version <= FirmwareVersion)
  {
    assert ([Parsed(Offer(pub.macStr, url, version))] + rest)[1..] == rest;
  }
}
