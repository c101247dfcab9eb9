/** web/src/protocol/http-transport.ts: the transport that talks to the
    Python server over HTTP. Each `fetch` the code awaits is replaced by its
    reply, an input of the step; the interval timer is modelled by timer
    numbers, and the callback by the log of its invocations. */
module Http {
  import opened Types

  /** What one awaited `fetch` gives: a response with `res.ok` whose JSON
      body is `body`, a response with `res.ok` whose body is not JSON, a
      response without `res.ok` whose text is `text`, or a rejected promise
      (the server cannot be reached). */
  datatype Reply<T> = Ok(body: T) | Unparsable | NotOk(text: string) | Unreachable

  /** The fields of the `/api/device/connect` reply the code reads. */
  datatype ConnectStatus = ConnectStatus(connected: bool, macAddress: Option<string>)

  /** The field of the `/api/device/status` reply the code reads. */
  datatype DeviceStatus = DeviceStatus(connected: bool)

  /** Why a promise of the transport rejects: an `Error` the code throws, a
      rejected `fetch`, or a body `res.json()` cannot parse. */
  datatype HttpError = Thrown(message: string) | NetworkError | SyntaxError

  /** The requests the transport posts, in the order it posts them. */
  datatype Request =
    | ScanRequest
    | ConnectRequest(macAddress: Option<string>, screenSize: Option<nat>)
    | DisconnectRequest
    | StatusRequest
    | SendRequest(data: seq<Byte>, withResponse: bool)
    | SendPacketsRequest(packets: seq<seq<seq<Byte>>>, withResponse: bool)

  /** JavaScript truthiness of a `string | null`: neither null nor empty. */
  predicate Truthy(s: Option<string>)
  {
    s.Some? && s.value != ""
  }

  /** The device name `connect()` records for the reported MAC address. */
  function Label(macAddress: Option<string>): string
  {
    if Truthy(macAddress) then "IDM (" + macAddress.value + ")" else "IDM (server)"
  }

  /** A label names the MAC address it was made from: it can be read back,
      and only the address "server" shares its label with the no-address
      case. */
  lemma LabelReadBack(macAddress: Option<string>)
    ensures var l := Label(macAddress);
      && |l| >= 6 && l[..5] == "IDM (" && l[|l| - 1] == ')'
      && (Truthy(macAddress) ==> l[5..|l| - 1] == macAddress.value)
      && (l == "IDM (server)" <==> !Truthy(macAddress) || macAddress.value == "server")
  {
    var l := Label(macAddress);
    if Truthy(macAddress) {
      var m := macAddress.value;
      assert l == "IDM (" + m + ")";
      assert l[5..|l| - 1] == m;
      if l == "IDM (server)" {
        assert m == l[5..|l| - 1];
      }
    }
  }

  /** Different non-empty addresses give different labels. */
  lemma LabelInjective(a: Option<string>, b: Option<string>)
    requires Truthy(a) && Truthy(b) && Label(a) == Label(b)
    ensures a == b
  {
    LabelReadBack(a);
    LabelReadBack(b);
  }

  /** `scan()` given the reply to `POST /api/device/scan`: the MAC address
      afterwards and the outcome. */
  function ScanStep(macAddress: Option<string>, reply: Reply<seq<string>>): (r: (Option<string>, Outcome<HttpError>))
    ensures r.1.Pass? <==> reply.Ok?
    ensures reply.Ok? && |reply.body| > 0 ==> r.0 == Some(reply.body[0])
    ensures !(reply.Ok? && |reply.body| > 0) ==> r.0 == macAddress
    ensures reply.NotOk? ==> r.1 == Fail(Thrown("Scan failed"))
  {
    match reply
    case Unreachable => (macAddress, Fail(NetworkError))
    case NotOk(_) => (macAddress, Fail(Thrown("Scan failed")))
    case Unparsable => (macAddress, Fail(SyntaxError))
    case Ok(devices) => (if |devices| > 0 then Some(devices[0]) else macAddress, Pass)
  }

  /** The MAC address `connect()` posts, and the outcome of the scan it runs
      first when no address is known. */
  function AddressForConnect(macAddress: Option<string>, scanReply: Reply<seq<string>>): (r: (Option<string>, Outcome<HttpError>))
    ensures Truthy(macAddress) ==> r == (macAddress, Pass)
    ensures !Truthy(macAddress) ==> r == ScanStep(macAddress, scanReply)
  {
    if Truthy(macAddress) then (macAddress, Pass) else ScanStep(macAddress, scanReply)
  }

  /** Whether a poll reply, arriving while the transport believes itself
      connected or not, is taken as a lost connection: a reply saying the
      device is not connected, a body that is not JSON, or an unreachable
      server; a reply without `res.ok` is ignored. */
  predicate Lost(connected: bool, reply: Reply<DeviceStatus>)
  {
    connected &&
    match reply
    case Ok(status) => !status.connected
    case Unparsable => true
    case NotOk(_) => false
    case Unreachable => true
  }

  /** How many times the disconnect callback fires over consecutive poll
      replies with no other call in between, starting from `connected`. */
  function Fires(connected: bool, replies: seq<Reply<DeviceStatus>>): nat
    decreases |replies|
  {
    if |replies| == 0 then 0
    else if Lost(connected, replies[0]) then 1 + Fires(false, replies[1..])
    else Fires(connected, replies[1..])
  }

  /** Polling fires the callback at most once between two calls of the
      transport: never when it starts disconnected, and, when it starts
      connected, exactly when some reply is taken as a lost connection. */
  lemma {:induction false} FiresAtMostOnce(connected: bool, replies: seq<Reply<DeviceStatus>>)
    ensures Fires(connected, replies) <= 1
    ensures !connected ==> Fires(connected, replies) == 0
    ensures Fires(connected, replies) == 1 <==> exists i :: 0 <= i < |replies| && Lost(connected, replies[i])
    decreases |replies|
  {
    if |replies| > 0 {
      FiresAtMostOnce(false, replies[1..]);
      FiresAtMostOnce(connected, replies[1..]);
      if Fires(connected, replies) == 1 && !Lost(connected, replies[0]) {
        var i :| 0 <= i < |replies[1..]| && Lost(connected, replies[1..][i]);
        assert Lost(connected, replies[i + 1]);
      }
      if (exists i :: 0 <= i < |replies| && Lost(connected, replies[i])) && !Lost(connected, replies[0]) {
        var i :| 0 <= i < |replies| && Lost(connected, replies[i]);
        assert Lost(connected, replies[1..][i - 1]);
      }
    }
  }

  class HttpTransport {
    var connected: bool
    var deviceName: Option<string>
    /** The registered disconnect callback, identified by a number. */
    var disconnectCb: Option<nat>
    /** The id of the running poll interval, if any. */
    var pollTimer: Option<nat>
    var macAddress: Option<string>
    /** Never assigned: every connect request carries `null`. */
    var screenSize: Option<nat>
    /** The intervals still running, and the id the next one gets. */
    var liveTimers: set<nat>
    var nextTimer: nat
    /** The callbacks invoked so far, in order. */
    var fired: seq<nat>
    /** Every request posted so far, in order. */
    var requests: seq<Request>

    /** At most one interval runs, and it is the one `pollTimer` names; a
        transport that believes itself connected has a device name. */
    predicate Valid()
      reads this
    {
      && liveTimers == (if pollTimer.Some? then {pollTimer.value} else {})
      && nextTimer > 0 && (forall t :: t in liveTimers ==> 0 < t < nextTimer)
      && (connected ==> deviceName.Some?)
    }

    constructor()
      ensures Valid()
      ensures !connected && deviceName == None && disconnectCb == None && pollTimer == None
      ensures macAddress == None && screenSize == None
      ensures fired == [] && requests == []
    {
      connected := false;
      deviceName := None;
      disconnectCb := None;
      pollTimer := None;
      macAddress := None;
      screenSize := None;
      liveTimers := {};
      nextTimer := 1;
      fired := [];
      requests := [];
    }

    /** `scan()`: asks the server for devices and keeps the first one's
        address; an empty list keeps the address it had. */
    method Scan(reply: Reply<seq<string>>) returns (outcome: Outcome<HttpError>)
      requires Valid()
      modifies this
      ensures Valid()
      ensures (macAddress, outcome) == ScanStep(old(macAddress), reply)
      ensures requests == old(requests) + [ScanRequest]
      ensures connected == old(connected) && deviceName == old(deviceName) && disconnectCb == old(disconnectCb)
      ensures pollTimer == old(pollTimer) && liveTimers == old(liveTimers) && nextTimer == old(nextTimer)
      ensures screenSize == old(screenSize) && fired == old(fired)
    {
      requests := requests + [ScanRequest];
      match reply {
        case Unreachable => return Fail(NetworkError);
        case NotOk(_) => return Fail(Thrown("Scan failed"));
        case Unparsable => return Fail(SyntaxError);
        case Ok(devices) =>
          if |devices| > 0 {
            macAddress := Some(devices[0]);
          }
          return Pass;
      }
    }

    /** `connect()`: scans first when no address is known, posts the
        address, and on an ok reply records the reported state and name and
        (re)starts polling. Any failure rejects before `connected`, the name
        or the timer change. */
    method Connect(scanReply: Reply<seq<string>>, reply: Reply<ConnectStatus>) returns (outcome: Outcome<HttpError>)
      requires Valid()
      modifies this
      ensures Valid()
      ensures macAddress == AddressForConnect(old(macAddress), scanReply).0
      ensures AddressForConnect(old(macAddress), scanReply).1.Fail? ==>
                && outcome == AddressForConnect(old(macAddress), scanReply).1
                && requests == old(requests) + [ScanRequest]
      ensures AddressForConnect(old(macAddress), scanReply).1.Pass? ==>
                requests == old(requests) + (if Truthy(old(macAddress)) then [] else [ScanRequest])
                                          + [ConnectRequest(macAddress, screenSize)]
      ensures outcome.Pass? <==> AddressForConnect(old(macAddress), scanReply).1.Pass? && reply.Ok?
      ensures outcome.Pass? ==>
                && connected == reply.body.connected
                && deviceName == Some(Label(reply.body.macAddress))
                && pollTimer == Some(old(nextTimer)) && liveTimers == {old(nextTimer)}
                && nextTimer == old(nextTimer) + 1
      ensures AddressForConnect(old(macAddress), scanReply).1.Pass? && !reply.Ok? ==>
                outcome == Fail(match reply
                                case NotOk(_) => Thrown("Connect failed")
                                case Unparsable => SyntaxError
                                case _ => NetworkError)
      ensures outcome.Fail? ==>
                && connected == old(connected) && deviceName == old(deviceName)
                && pollTimer == old(pollTimer) && liveTimers == old(liveTimers) && nextTimer == old(nextTimer)
      ensures disconnectCb == old(disconnectCb) && screenSize == old(screenSize) && fired == old(fired)
    {
      if !Truthy(macAddress) {
        outcome := Scan(scanReply);
        if outcome.Fail? {
          return;
        }
      }
      requests := requests + [ConnectRequest(macAddress, screenSize)];
      match reply {
        case Unreachable => return Fail(NetworkError);
        case NotOk(_) => return Fail(Thrown("Connect failed"));
        case Unparsable => return Fail(SyntaxError);
        case Ok(status) =>
          connected := status.connected;
          deviceName := Some(Label(status.macAddress));
          StartPolling();
          return Pass;
      }
    }

    /** `disconnect()`: stops polling first, then posts the request; unless
        the server cannot be reached, it forgets the connection whatever the
        reply says. */
    method Disconnect(reply: Reply<()>) returns (outcome: Outcome<HttpError>)
      requires Valid()
      modifies this
      ensures Valid()
      ensures pollTimer == None && liveTimers == {} && nextTimer == old(nextTimer)
      ensures requests == old(requests) + [DisconnectRequest]
      ensures reply.Unreachable? ==>
                outcome == Fail(NetworkError) && connected == old(connected) && deviceName == old(deviceName)
      ensures !reply.Unreachable? ==> outcome == Pass && !connected && deviceName == None
      ensures macAddress == old(macAddress) && disconnectCb == old(disconnectCb)
      ensures screenSize == old(screenSize) && fired == old(fired)
    {
      StopPolling();
      requests := requests + [DisconnectRequest];
      if reply.Unreachable? {
        return Fail(NetworkError);
      }
      connected := false;
      deviceName := None;
      return Pass;
    }

    function IsConnected(): bool
      reads this
    {
      connected
    }

    function DeviceName(): Option<string>
      reads this
    {
      deviceName
    }

    /** `sendBytes(data, withResponse)`: posts the data whether or not the
        transport believes itself connected; rejects only on a failed
        request. */
    method SendBytes(data: seq<Byte>, withResponse: bool, reply: Reply<()>) returns (outcome: Outcome<HttpError>)
      modifies this
      ensures requests == old(requests) + [SendRequest(data, withResponse)]
      ensures outcome == match reply
                         case NotOk(text) => Fail(Thrown("Send failed: " + text))
                         case Unreachable => Fail(NetworkError)
                         case _ => Pass
      ensures connected == old(connected) && deviceName == old(deviceName) && disconnectCb == old(disconnectCb)
      ensures pollTimer == old(pollTimer) && liveTimers == old(liveTimers) && nextTimer == old(nextTimer)
      ensures macAddress == old(macAddress) && screenSize == old(screenSize) && fired == old(fired)
    {
      requests := requests + [SendRequest(data, withResponse)];
      match reply {
        case NotOk(text) => return Fail(Thrown("Send failed: " + text));
        case Unreachable => return Fail(NetworkError);
        case _ => return Pass;
      }
    }

    /** `sendPackets(packets, withResponse)`: posts all packets in one
        request, with the same error handling as `sendBytes`. */
    method SendPackets(packets: seq<seq<seq<Byte>>>, withResponse: bool, reply: Reply<()>) returns (outcome: Outcome<HttpError>)
      modifies this
      ensures requests == old(requests) + [SendPacketsRequest(packets, withResponse)]
      ensures outcome == match reply
                         case NotOk(text) => Fail(Thrown("Send packets failed: " + text))
                         case Unreachable => Fail(NetworkError)
                         case _ => Pass
      ensures connected == old(connected) && deviceName == old(deviceName) && disconnectCb == old(disconnectCb)
      ensures pollTimer == old(pollTimer) && liveTimers == old(liveTimers) && nextTimer == old(nextTimer)
      ensures macAddress == old(macAddress) && screenSize == old(screenSize) && fired == old(fired)
    {
      requests := requests + [SendPacketsRequest(packets, withResponse)];
      match reply {
        case NotOk(text) => return Fail(Thrown("Send packets failed: " + text));
        case Unreachable => return Fail(NetworkError);
        case _ => return Pass;
      }
    }

    /** `onDisconnect(cb)`: the latest registration replaces any earlier one. */
    method OnDisconnect(cb: nat)
      modifies this
      ensures disconnectCb == Some(cb)
      ensures connected == old(connected) && deviceName == old(deviceName) && macAddress == old(macAddress)
      ensures pollTimer == old(pollTimer) && liveTimers == old(liveTimers) && nextTimer == old(nextTimer)
      ensures screenSize == old(screenSize) && fired == old(fired) && requests == old(requests)
    {
      disconnectCb := Some(cb);
    }

    /** `_startPolling()`: clears any running interval before starting a new
        one, so exactly one runs afterwards. */
    method StartPolling()
      requires Valid()
      modifies this
      ensures Valid()
      ensures pollTimer == Some(old(nextTimer)) && liveTimers == {old(nextTimer)} && nextTimer == old(nextTimer) + 1
      ensures connected == old(connected) && deviceName == old(deviceName) && disconnectCb == old(disconnectCb)
      ensures macAddress == old(macAddress) && screenSize == old(screenSize)
      ensures fired == old(fired) && requests == old(requests)
    {
      StopPolling();
      pollTimer := Some(nextTimer);
      liveTimers := {nextTimer};
      nextTimer := nextTimer + 1;
    }

    /** `_stopPolling()`: clears the running interval, if any; without one it
        changes nothing, so calling it twice is calling it once. */
    method StopPolling()
      requires Valid()
      modifies this
      ensures Valid()
      ensures pollTimer == None && liveTimers == {}
      ensures old(pollTimer).None? ==> liveTimers == old(liveTimers)
      ensures connected == old(connected) && deviceName == old(deviceName) && disconnectCb == old(disconnectCb)
      ensures macAddress == old(macAddress) && screenSize == old(screenSize) && nextTimer == old(nextTimer)
      ensures fired == old(fired) && requests == old(requests)
    {
      if pollTimer.Some? {
        liveTimers := liveTimers - {pollTimer.value};
        pollTimer := None;
      }
    }

    /** One run of the interval callback, given the reply to
        `GET /api/device/status`. A reply taken as a lost connection clears
        the connection and the name, invokes the callback and stops
        polling; any other reply changes nothing. The reply may arrive after
        polling was stopped, so no running interval is required. */
    method PollTick(reply: Reply<DeviceStatus>)
      requires Valid()
      modifies this
      ensures Valid()
      ensures requests == old(requests) + [StatusRequest]
      ensures connected == (old(connected) && !Lost(old(connected), reply))
      ensures Lost(old(connected), reply) ==>
                && deviceName == None && pollTimer == None && liveTimers == {}
                && fired == old(fired) + (if disconnectCb.Some? then [disconnectCb.value] else [])
      ensures !Lost(old(connected), reply) ==>
                && deviceName == old(deviceName) && pollTimer == old(pollTimer) && liveTimers == old(liveTimers)
                && fired == old(fired)
      ensures disconnectCb == old(disconnectCb) && macAddress == old(macAddress)
      ensures screenSize == old(screenSize) && nextTimer == old(nextTimer)
    {
      requests := requests + [StatusRequest];
      var lost := false;
      match reply {
        case Ok(status) => lost := !status.connected && connected;
        case NotOk(_) => lost := false;
        case Unparsable => lost := connected;
        case Unreachable => lost := connected;
      }
      if lost {
        connected := false;
        deviceName := None;
        if disconnectCb.Some? {
          fired := fired + [disconnectCb.value];
        }
        StopPolling();
      }
    }
  }
}
