/** web/src/protocol/transport.ts: the Web Bluetooth transport. What the
    browser's chooser and GATT stack answer is an input of each step; the
    write characteristic is modelled as the log of the writes made on it. */
module BluetoothTransport {
  import opened Types
  import opened Chunking

  /** A device the browser's chooser returned: its advertised name, if any,
      and whether its GATT server is connected. */
  datatype Peripheral = Peripheral(name: Option<string>, gattConnected: bool)

  /** How far the GATT calls of one `connect()` get once a device is chosen. */
  datatype Progress = GattRefused | ServiceMissing | CharacteristicMissing | Ready

  /** What the browser does for one `connect()`: the user dismisses the
      chooser, or picks a device and the GATT calls get as far as `progress`. */
  datatype Attempt = UserCancelled | Chosen(device: Peripheral, progress: Progress)

  /** The errors the transport's promises reject with. */
  datatype TransportError = Cancelled | GattFailed | NoService | NoCharacteristic | NotConnected

  /** One write on the characteristic: its bytes, and whether it used
      `writeValueWithResponse` (acknowledged) rather than
      `writeValueWithoutResponse`. */
  datatype Write = Write(bytes: seq<Byte>, acknowledged: bool)

  /** The connection-related fields: the chosen device, and whether a GATT
      server and a write characteristic are held. */
  datatype Link = Link(device: Option<Peripheral>, server: bool, writeChar: bool)

  /** A characteristic is only ever held together with its server, and a
      server only once a device was chosen. */
  predicate Wired(l: Link)
  {
    (l.writeChar ==> l.server) && (l.server ==> l.device.Some?)
  }

  /** `connect()`: `requestDevice`, then `gatt.connect()`, then the service,
      then the characteristic; each field is assigned only once its call
      returned, so a failed step leaves the later fields as they were. */
  function ConnectStep(link: Link, attempt: Attempt): (r: (Link, Outcome<TransportError>))
    ensures r.1.Pass? <==> attempt.Chosen? && attempt.progress == Ready
    ensures attempt.UserCancelled? ==> r == (link, Fail(Cancelled))
    ensures attempt.Chosen? ==> r.0.device.Some? && r.0.device.value.name == attempt.device.name
    ensures attempt.Chosen? && attempt.progress == GattRefused ==> r.0 == link.(device := Some(attempt.device))
    ensures attempt.Chosen? && attempt.progress != GattRefused ==>
              r.0.server && r.0.device == Some(attempt.device.(gattConnected := true))
    ensures r.1.Pass? ==> r.0.writeChar
    ensures r.1.Fail? ==> r.0.writeChar == link.writeChar
    ensures Wired(link) ==> Wired(r.0)
  {
    match attempt
    case UserCancelled => (link, Fail(Cancelled))
    case Chosen(d, progress) =>
      var up := Link(Some(d.(gattConnected := true)), true, link.writeChar);
      match progress
      case GattRefused => (link.(device := Some(d)), Fail(GattFailed))
      case ServiceMissing => (up, Fail(NoService))
      case CharacteristicMissing => (up, Fail(NoCharacteristic))
      case Ready => (up.(writeChar := true), Pass)
  }

  /** The writes `sendBytes` makes: one per fragment, all of the same kind. */
  function FragmentWrites(fragments: seq<seq<Byte>>, withResponse: bool): (ws: seq<Write>)
    ensures |ws| == |fragments|
  {
    seq(|fragments|, i requires 0 <= i < |fragments| => Write(fragments[i], withResponse))
  }

  /** The first `j` writes `sendPackets` makes for one packet: only the
      packet's last fragment may be acknowledged. */
  function PacketWrites(packet: seq<seq<Byte>>, withResponse: bool, j: nat): (ws: seq<Write>)
    requires j <= |packet|
    ensures |ws| == j
  {
    seq(j, k requires 0 <= k < j => Write(packet[k], withResponse && k == |packet| - 1))
  }

  /** All the writes `sendPackets` makes, packet after packet. */
  function PacketsWrites(packets: seq<seq<seq<Byte>>>, withResponse: bool): seq<Write>
  {
    if |packets| == 0 then []
    else
      var last := packets[|packets| - 1];
      PacketsWrites(packets[..|packets| - 1], withResponse) + PacketWrites(last, withResponse, |last|)
  }

  /** The bytes of each write, in order. */
  function Payloads(ws: seq<Write>): (ps: seq<seq<Byte>>)
    ensures |ps| == |ws|
  {
    seq(|ws|, i requires 0 <= i < |ws| => ws[i].bytes)
  }

  /** The number of acknowledged writes. */
  function AckCount(ws: seq<Write>): nat
  {
    if |ws| == 0 then 0
    else AckCount(ws[..|ws| - 1]) + (if ws[|ws| - 1].acknowledged then 1 else 0)
  }

  /** The number of packets with at least one fragment. */
  function NonEmptyCount(packets: seq<seq<seq<Byte>>>): nat
  {
    if |packets| == 0 then 0
    else NonEmptyCount(packets[..|packets| - 1]) + (if |packets[|packets| - 1]| > 0 then 1 else 0)
  }

  lemma {:induction false} AckCountAppend(a: seq<Write>, b: seq<Write>)
    ensures AckCount(a + b) == AckCount(a) + AckCount(b)
    decreases |b|
  {
    if |b| == 0 {
      assert a + b == a;
    } else {
      var m := |b| - 1;
      assert (a + b)[..|a + b| - 1] == a + b[..m];
      AckCountAppend(a, b[..m]);
    }
  }

  lemma PayloadsAppend(a: seq<Write>, b: seq<Write>)
    ensures Payloads(a + b) == Payloads(a) + Payloads(b)
  {
  }

  /** The first `j` writes of a packet are unacknowledged while the last
      fragment is not among them; all `|packet|` of them hold one
      acknowledgement exactly when `withResponse` and the packet is not empty. */
  lemma {:induction false} PacketAcks(packet: seq<seq<Byte>>, withResponse: bool, j: nat)
    requires j <= |packet|
    ensures AckCount(PacketWrites(packet, withResponse, j)) ==
              if withResponse && j == |packet| && j > 0 then 1 else 0
    decreases j
  {
    if j > 0 {
      var ws := PacketWrites(packet, withResponse, j);
      assert ws[..j - 1] == PacketWrites(packet, withResponse, j - 1);
      PacketAcks(packet, withResponse, j - 1);
    }
  }

  /** `sendBytes(data, withResponse)` on a connected transport: fragments of
      at most `MTU_SIZE` bytes that join back to `data`, none for empty data,
      and every one of them acknowledged exactly when `withResponse`. */
  lemma SendBytesWrites(data: seq<Byte>, withResponse: bool)
    ensures var ws := FragmentWrites(Chunks(data, MTU_SIZE), withResponse);
      && Flatten(Payloads(ws)) == data
      && (forall i :: 0 <= i < |ws| ==> 0 < |ws[i].bytes| <= MTU_SIZE)
      && (data == [] <==> ws == [])
      && AckCount(ws) == if withResponse then |ws| else 0
  {
    var fragments := Chunks(data, MTU_SIZE);
    var ws := FragmentWrites(fragments, withResponse);
    ChunksShape(data, MTU_SIZE);
    assert Payloads(ws) == fragments;
    AllSameAcks(ws, withResponse);
  }

  lemma {:induction false} AllSameAcks(ws: seq<Write>, withResponse: bool)
    requires forall i :: 0 <= i < |ws| ==> ws[i].acknowledged == withResponse
    ensures AckCount(ws) == if withResponse then |ws| else 0
    decreases |ws|
  {
    if |ws| > 0 {
      AllSameAcks(ws[..|ws| - 1], withResponse);
    }
  }

  /** `sendPackets(packets, withResponse)` on a connected transport writes
      the fragments of all packets, unchanged and in order. */
  lemma {:induction false} SendPacketsPayloads(packets: seq<seq<seq<Byte>>>, withResponse: bool)
    ensures Payloads(PacketsWrites(packets, withResponse)) == Flatten(packets)
    decreases |packets|
  {
    if |packets| > 0 {
      var front := packets[..|packets| - 1];
      var last := packets[|packets| - 1];
      var ws := PacketWrites(last, withResponse, |last|);
      SendPacketsPayloads(front, withResponse);
      PayloadsAppend(PacketsWrites(front, withResponse), ws);
      assert Payloads(ws) == last;
      assert packets == front + [last];
      FlattenSnoc(front, last);
    }
  }

  /** `sendPackets(packets, withResponse)` on a connected transport makes one
      acknowledged write per non-empty packet when `withResponse` and none
      otherwise, so never more acknowledged writes than packets. */
  lemma {:induction false} SendPacketsAcks(packets: seq<seq<seq<Byte>>>, withResponse: bool)
    ensures AckCount(PacketsWrites(packets, withResponse)) ==
              if withResponse then NonEmptyCount(packets) else 0
    ensures NonEmptyCount(packets) <= |packets|
    decreases |packets|
  {
    if |packets| > 0 {
      var front := packets[..|packets| - 1];
      var last := packets[|packets| - 1];
      var ws := PacketWrites(last, withResponse, |last|);
      SendPacketsAcks(front, withResponse);
      AckCountAppend(PacketsWrites(front, withResponse), ws);
      PacketAcks(last, withResponse, |last|);
    }
  }

  /** One step of the `sendBytes` loop: the fragment at `offset`, then the
      fragments of what follows it. */
  lemma ChunksStep(data: seq<Byte>, offset: nat)
    requires offset < |data|
    ensures Chunks(data[offset..], MTU_SIZE) ==
              [data[offset..Min(offset + MTU_SIZE, |data|)]] + Chunks(data[Min(offset + MTU_SIZE, |data|)..], MTU_SIZE)
  {
    var rest := data[offset..];
    assert rest[..Min(MTU_SIZE, |rest|)] == data[offset..Min(offset + MTU_SIZE, |data|)];
    assert rest[Min(MTU_SIZE, |rest|)..] == data[Min(offset + MTU_SIZE, |data|)..];
  }

  /** The loop invariant of `sendBytes` carried past one fragment. */
  lemma SendStep(data: seq<Byte>, offset: nat, sent: seq<seq<Byte>>)
    requires offset < |data|
    requires sent + Chunks(data[offset..], MTU_SIZE) == Chunks(data, MTU_SIZE)
    ensures (sent + [data[offset..Min(offset + MTU_SIZE, |data|)]]) + Chunks(data[Min(offset + MTU_SIZE, |data|)..], MTU_SIZE)
            == Chunks(data, MTU_SIZE)
  {
    ChunksStep(data, offset);
  }

  lemma FragmentWritesSnoc(sent: seq<seq<Byte>>, chunk: seq<Byte>, withResponse: bool)
    ensures FragmentWrites(sent + [chunk], withResponse) == FragmentWrites(sent, withResponse) + [Write(chunk, withResponse)]
  {
  }

  class WebBluetoothTransport {
    var device: Option<Peripheral>
    var server: bool
    var writeChar: bool
    /** The registered disconnect callback, identified by a number. */
    var disconnectCb: Option<nat>
    /** The callbacks invoked so far, in order. */
    var fired: seq<nat>
    /** Every write made on the characteristic so far, in order. */
    var writes: seq<Write>

    function State(): Link
      reads this
    {
      Link(device, server, writeChar)
    }

    predicate Valid()
      reads this
    {
      Wired(State())
    }

    /** A fresh transport holds no device, server, characteristic or callback. */
    constructor()
      ensures Valid()
      ensures State() == Link(None, false, false)
      ensures disconnectCb == None && fired == [] && writes == []
    {
      device := None;
      server := false;
      writeChar := false;
      disconnectCb := None;
      fired := [];
      writes := [];
    }

    /** `connect()`, one awaited call after another. */
    method Connect(attempt: Attempt) returns (outcome: Outcome<TransportError>)
      requires Valid()
      modifies this
      ensures Valid()
      ensures (State(), outcome) == ConnectStep(old(State()), attempt)
      ensures disconnectCb == old(disconnectCb) && fired == old(fired) && writes == old(writes)
    {
      match attempt {
        case UserCancelled =>
          return Fail(Cancelled);
        case Chosen(d, progress) =>
          device := Some(d);
          if progress == GattRefused {
            return Fail(GattFailed);
          }
          device := Some(d.(gattConnected := true));
          server := true;
          if progress == ServiceMissing {
            return Fail(NoService);
          }
          if progress == CharacteristicMissing {
            return Fail(NoCharacteristic);
          }
          writeChar := true;
          return Pass;
      }
    }

    /** `scan()` is `connect()`: Web Bluetooth chooses and connects in one go. */
    method Scan(attempt: Attempt) returns (outcome: Outcome<TransportError>)
      requires Valid()
      modifies this
      ensures Valid()
      ensures (State(), outcome) == ConnectStep(old(State()), attempt)
      ensures disconnectCb == old(disconnectCb) && fired == old(fired) && writes == old(writes)
    {
      outcome := Connect(attempt);
    }

    /** `disconnect()`: drops the GATT connection if there is one and forgets
        the server and the characteristic. */
    method Disconnect()
      requires Valid()
      modifies this
      ensures Valid()
      ensures !IsConnected() && !server && !writeChar
      ensures device == if old(device).Some? then Some(old(device).value.(gattConnected := false)) else None
      ensures disconnectCb == old(disconnectCb) && fired == old(fired) && writes == old(writes)
    {
      if device.Some? && device.value.gattConnected {
        device := Some(device.value.(gattConnected := false));
      }
      server := false;
      writeChar := false;
    }

    /** The `gattserverdisconnected` handler `connect()` installs on a chosen
        device: forgets the server and the characteristic and invokes the
        registered callback, if any. `current` says whether the event comes
        from the device now held rather than one chosen earlier (whose
        handler is still installed and does the same). */
    method LinkLost(current: bool)
      requires Valid() && device.Some?
      modifies this
      ensures Valid()
      ensures !server && !writeChar
      ensures current ==> !IsConnected()
      ensures device == if current then Some(old(device).value.(gattConnected := false)) else old(device)
      ensures fired == if old(disconnectCb).Some? then old(fired) + [old(disconnectCb).value] else old(fired)
      ensures disconnectCb == old(disconnectCb) && writes == old(writes)
    {
      if current {
        device := Some(device.value.(gattConnected := false));
      }
      server := false;
      writeChar := false;
      if disconnectCb.Some? {
        fired := fired + [disconnectCb.value];
      }
    }

    /** `isConnected()`: the chosen device's GATT connection state. */
    function IsConnected(): bool
      reads this
    {
      device.Some? && device.value.gattConnected
    }

    /** `deviceName()`: the chosen device's name, if both exist. */
    function DeviceName(): Option<string>
      reads this
    {
      if device.Some? then device.value.name else None
    }

    /** `onDisconnect(cb)`: the latest registration replaces any earlier one. */
    method OnDisconnect(cb: nat)
      modifies this
      ensures disconnectCb == Some(cb)
      ensures State() == old(State()) && fired == old(fired) && writes == old(writes)
    {
      disconnectCb := Some(cb);
    }

    /** One `writeValueWithResponse` or `writeValueWithoutResponse` call. */
    method Send(w: Write)
      modifies this
      ensures writes == old(writes) + [w]
      ensures State() == old(State()) && disconnectCb == old(disconnectCb) && fired == old(fired)
    {
      writes := writes + [w];
    }

    /** `sendBytes(data, withResponse)`: without a characteristic it rejects
        and writes nothing; otherwise it writes `data` in MTU-sized slices. */
    method SendBytes(data: seq<Byte>, withResponse: bool) returns (outcome: Outcome<TransportError>)
      modifies this
      ensures !old(writeChar) ==> outcome == Fail(NotConnected) && writes == old(writes)
      ensures old(writeChar) ==>
                outcome == Pass && writes == old(writes) + FragmentWrites(Chunks(data, MTU_SIZE), withResponse)
      ensures State() == old(State()) && disconnectCb == old(disconnectCb) && fired == old(fired)
    {
      if !writeChar {
        return Fail(NotConnected);
      }
      ghost var sent: seq<seq<Byte>> := [];
      var offset := 0;
      while offset < |data|
        invariant sent + Chunks(data[Min(offset, |data|)..], MTU_SIZE) == Chunks(data, MTU_SIZE)
        invariant writes == old(writes) + FragmentWrites(sent, withResponse)
        invariant device == old(device) && server == old(server) && writeChar == old(writeChar)
        invariant disconnectCb == old(disconnectCb) && fired == old(fired)
        decreases |data| - offset
      {
        var end := Min(offset + MTU_SIZE, |data|);
        var chunk := data[offset..end];
        SendStep(data, offset, sent);
        FragmentWritesSnoc(sent, chunk, withResponse);
        Send(Write(chunk, withResponse));
        sent := sent + [chunk];
        offset := offset + MTU_SIZE;
      }
      assert data[Min(offset, |data|)..] == [];
      return Pass;
    }

    /** `sendPackets(packets, withResponse)`: without a characteristic it
        rejects and writes nothing; otherwise it writes every fragment of
        every packet, acknowledging only the last fragment of each packet. */
    method SendPackets(packets: seq<seq<seq<Byte>>>, withResponse: bool) returns (outcome: Outcome<TransportError>)
      modifies this
      ensures !old(writeChar) ==> outcome == Fail(NotConnected) && writes == old(writes)
      ensures old(writeChar) ==> outcome == Pass && writes == old(writes) + PacketsWrites(packets, withResponse)
      ensures State() == old(State()) && disconnectCb == old(disconnectCb) && fired == old(fired)
    {
      if !writeChar {
        return Fail(NotConnected);
      }
      for i := 0 to |packets|
        invariant writes == old(writes) + PacketsWrites(packets[..i], withResponse)
        invariant State() == old(State()) && disconnectCb == old(disconnectCb) && fired == old(fired)
      {
        var packet := packets[i];
        ghost var before := writes;
        for j := 0 to |packet|
          invariant writes == before + PacketWrites(packet, withResponse, j)
          invariant State() == old(State()) && disconnectCb == old(disconnectCb) && fired == old(fired)
        {
          var isLast := j == |packet| - 1;
          var useResponse := withResponse && isLast;
          assert PacketWrites(packet, withResponse, j + 1) ==
                 PacketWrites(packet, withResponse, j) + [Write(packet[j], useResponse)];
          Send(Write(packet[j], useResponse));
        }
        assert packets[..i + 1][..i] == packets[..i];
      }
      assert packets[..|packets|] == packets;
      return Pass;
    }
  }
}
