/** One wand session (kano_wando.py, class `Wand`): connection flag, the four
    callback dictionaries with their subscription flags, the lazily memoised
    characteristic reads, the actuator writes and notification dispatch.
    The Bluetooth client is not modelled; every call the wand makes on it is
    appended to the ghost `log`, and what the peripheral answers is passed in
    as a parameter. */
module Session {
  import opened Common
  import opened Registry
  import Codec

  /** A discovered peripheral: its advertised name and its address. */
  datatype Device = Device(name: Option<string>, address: string)

  /** The GATT characteristics the wand reads, writes or subscribes to. */
  datatype Characteristic =
    | OrganizationChar | SoftwareChar | HardwareChar
    | BatteryChar | UserButtonChar | VibratorChar | LedChar | KeepAliveChar
    | QuaternionsChar | TempChar

  /** The characteristic `on`/`off` start and stop notifications on. */
  function NotifyCharacteristic(e: Event): (c: Characteristic)
    ensures c in {QuaternionsChar, UserButtonChar, TempChar, BatteryChar}
  {
    match e
    case Position => QuaternionsChar
    case Button => UserButtonChar
    case Temp => TempChar
    case Battery => BatteryChar
  }

  lemma NotifyCharacteristicInjective(e1: Event, e2: Event)
    requires NotifyCharacteristic(e1) == NotifyCharacteristic(e2)
    ensures e1 == e2
  {
  }

  /** A call the wand makes on its Bluetooth client. */
  datatype TransportCall =
    | LinkConnect
    | LinkDisconnect
    | Read(c: Characteristic)
    | Write(c: Characteristic, payload: seq<Byte>)
    | StartNotify(c: Characteristic)
    | StopNotify(c: Characteristic)

  /** How often `call` appears in `log`. */
  ghost function Occurrences(log: seq<TransportCall>, call: TransportCall): (n: nat)
  {
    if log == [] then 0
    else Occurrences(log[..|log| - 1], call) + (if log[|log| - 1] == call then 1 else 0)
  }

  // ---------------------------------------------------------------------------
  // Notification routing
  // ---------------------------------------------------------------------------

  const PositionHandle: int := 41
  const ButtonHandle: int := 33
  const TempHandle: int := 56
  const BatteryHandle: int := 23

  /** The handle whose notifications carry event `e`; `handleNotification`
      routes it back to `e`. */
  function HandleOf(e: Event): (handle: int)
    ensures EventOfHandle(handle) == Some(e)
  {
    match e
    case Position => PositionHandle
    case Button => ButtonHandle
    case Temp => TempHandle
    case Battery => BatteryHandle
  }

  /** The event `handleNotification` routes a characteristic handle to. */
  function EventOfHandle(handle: int): (e: Option<Event>)
  {
    if handle == PositionHandle then Some(Position)
    else if handle == ButtonHandle then Some(Button)
    else if handle == TempHandle then Some(Temp)
    else if handle == BatteryHandle then Some(Battery)
    else None
  }

  /** Only an event's own handle is routed to it. */
  lemma RoutedHandle(handle: int)
    ensures EventOfHandle(handle).Some? ==> HandleOf(EventOfHandle(handle).value) == handle
  {
  }

  /** The event a decoded reading belongs to. */
  function EventOfReading(reading: Codec.Reading): (e: Event)
  {
    match reading
    case Position(_, _, _, _) => Position
    case Button(_) => Button
    case Temperature(_) => Temp
    case Battery(_) => Battery
  }

  /** The decoder of `_on_position`, `_on_button`, `_on_temperature` or `_on_battery`. */
  function Decode(e: Event, data: seq<Byte>): (r: Result<Codec.Reading>)
    ensures r.Ok? ==> EventOfReading(r.value) == e
    ensures r.Err? <==> (e == Button || e == Battery) && data == []
    ensures r.Err? ==> r.error == IndexError
  {
    match e
    case Position => Ok(Codec.DecodePosition(data))
    case Button => Codec.DecodeButton(data)
    case Temp => Ok(Codec.DecodeTemperature(data))
    case Battery => Codec.DecodeBattery(data)
  }

  /** Who is called during dispatch: the built-in `on_*` hook of an event, or
      a registered callback. */
  datatype Target = Hook(event: Event) | Listener(callback: Callback)

  datatype Invocation = Invocation(target: Target, reading: Codec.Reading)

  /** Where a memoised read comes from: the cached payload, or the
      transport's answer when nothing is cached. */
  function ReadThrough(cache: map<Characteristic, seq<Byte>>, c: Characteristic, response: seq<Byte>): (payload: seq<Byte>)
  {
    if c in cache then cache[c] else response
  }

  class Wand {
    const device: Device
    const name: Option<string>

    var connected: bool

    /** `_position_callbacks`, `_button_callbacks`, `_temperature_callbacks`,
        `_battery_callbacks`. */
    var callbacks: PerEvent<Dict>

    /** `_position_subscribed`, `_button_subscribed`, `_temperature_subscribed`,
        `_battery_subscribed`. */
    var subscribed: PerEvent<bool>

    /** Stands in for `uuid.uuid4()`: every id handed out so far is below it. */
    var nextId: nat

    /** The memoised reads `_organization`, `_software`, `_hardware`,
        `_battery`, `_button`, `_temperature`, keyed by characteristic. */
    var cached: map<Characteristic, seq<Byte>>

    /** Every call made on the Bluetooth client, in order. */
    ghost var log: seq<TransportCall>

    /** Every id some dictionary holds. */
    function LiveIds(): (ids: set<ListenerId>)
      reads this`callbacks
    {
      AllIds(callbacks)
    }

    /** No two live listeners share an id, every id came from the allocator, and
        each memoised characteristic has been read exactly once, the others never. */
    ghost predicate Valid()
      reads this
    {
      RegistryValid() && MemoValid()
    }

    /** The listener registry half of `Valid`. */
    ghost predicate RegistryValid()
      reads this`callbacks, this`nextId
    {
      Consistent(callbacks, nextId)
    }

    /** The memoisation half of `Valid`. */
    ghost predicate MemoValid()
      reads this`log, this`cached
    {
      forall c :: Occurrences(log, Read(c)) == if c in cached then 1 else 0
    }

    constructor (device: Device)
      ensures Valid()
      ensures this.device == device && name == device.name
      ensures !connected
      ensures callbacks == PerEvent([], [], [], [])
      ensures subscribed == PerEvent(false, false, false, false)
      ensures cached == map[] && log == []
    {
      this.device := device;
      name := device.name;
      connected := false;
      callbacks := PerEvent([], [], [], []);
      subscribed := PerEvent(false, false, false, false);
      nextId := 0;
      cached := map[];
      log := [];
    }

    /** Appends one call to the transport log. */
    ghost method Record(call: TransportCall)
      modifies this`log
      ensures log == old(log) + [call]
      ensures forall c :: Occurrences(log, Read(c)) == Occurrences(old(log), Read(c)) + (if call == Read(c) then 1 else 0)
    {
      log := log + [call];
      assert log[..|log| - 1] == old(log);
    }

    // -------------------------------------------------------------------------
    // Connection
    // -------------------------------------------------------------------------

    /** `connect`: opens the link and records what `is_connected` answered. */
    method Connect(linkUp: bool)
      requires Valid()
      modifies this`connected, this`log
      ensures Valid()
      ensures connected == linkUp
      ensures log == old(log) + [LinkConnect]
    {
      Record(LinkConnect);
      connected := linkUp;
    }

    /** `disconnect`: closes the link and clears the connected and subscribed
        flags; the callback dictionaries and the memoised reads are kept. */
    method Disconnect()
      requires Valid()
      modifies this`connected, this`subscribed, this`log
      ensures Valid()
      ensures !connected
      ensures subscribed == PerEvent(false, false, false, false)
      ensures callbacks == old(callbacks) && cached == old(cached)
      ensures log == old(log) + [LinkDisconnect]
    {
      Record(LinkDisconnect);
      connected := false;
      subscribed := PerEvent(false, false, false, false);
    }

    // -------------------------------------------------------------------------
    // Memoised reads
    // -------------------------------------------------------------------------

    /** `if not hasattr(self, "_x"): self._x = read_gatt_char(c)`: the
        transport is read only when nothing is cached for `c`. */
    method ReadOnce(c: Characteristic, response: seq<Byte>) returns (payload: seq<Byte>)
      requires Valid()
      modifies this`cached, this`log
      ensures Valid()
      ensures payload == ReadThrough(old(cached), c, response)
      ensures cached == old(cached)[c := payload]
      ensures log == old(log) + (if c in old(cached) then [] else [Read(c)])
    {
      if c !in cached {
        Record(Read(c));
        cached := cached[c := response];
      }
      payload := cached[c];
    }

    /** `get_organization` (the UTF-8 decoding of the payload is not modelled). */
    method GetOrganization(response: seq<Byte>) returns (payload: seq<Byte>)
      requires Valid()
      modifies this`cached, this`log
      ensures Valid()
      ensures payload == ReadThrough(old(cached), OrganizationChar, response)
      ensures cached == old(cached)[OrganizationChar := payload]
      ensures log == old(log) + (if OrganizationChar in old(cached) then [] else [Read(OrganizationChar)])
    {
      payload := ReadOnce(OrganizationChar, response);
    }

    /** `get_software_version`. */
    method GetSoftwareVersion(response: seq<Byte>) returns (payload: seq<Byte>)
      requires Valid()
      modifies this`cached, this`log
      ensures Valid()
      ensures payload == ReadThrough(old(cached), SoftwareChar, response)
      ensures cached == old(cached)[SoftwareChar := payload]
      ensures log == old(log) + (if SoftwareChar in old(cached) then [] else [Read(SoftwareChar)])
    {
      payload := ReadOnce(SoftwareChar, response);
    }

    /** `get_hardware_version`. */
    method GetHardwareVersion(response: seq<Byte>) returns (payload: seq<Byte>)
      requires Valid()
      modifies this`cached, this`log
      ensures Valid()
      ensures payload == ReadThrough(old(cached), HardwareChar, response)
      ensures cached == old(cached)[HardwareChar := payload]
      ensures log == old(log) + (if HardwareChar in old(cached) then [] else [Read(HardwareChar)])
    {
      payload := ReadOnce(HardwareChar, response);
    }

    /** `get_battery`. */
    method GetBattery(response: seq<Byte>) returns (payload: seq<Byte>)
      requires Valid()
      modifies this`cached, this`log
      ensures Valid()
      ensures payload == ReadThrough(old(cached), BatteryChar, response)
      ensures cached == old(cached)[BatteryChar := payload]
      ensures log == old(log) + (if BatteryChar in old(cached) then [] else [Read(BatteryChar)])
    {
      payload := ReadOnce(BatteryChar, response);
    }

    /** `get_button`: the cached payload's first byte is 1; an IndexError when
        the payload is empty. */
    method GetButton(response: seq<Byte>) returns (r: Result<bool>)
      requires Valid()
      modifies this`cached, this`log
      ensures Valid()
      ensures var payload := ReadThrough(old(cached), UserButtonChar, response);
        && cached == old(cached)[UserButtonChar := payload]
        && (r.Ok? <==> |payload| > 0)
        && (r.Ok? ==> (r.value <==> payload[0] == 1))
      ensures log == old(log) + (if UserButtonChar in old(cached) then [] else [Read(UserButtonChar)])
    {
      var payload := ReadOnce(UserButtonChar, response);
      match Codec.DecodeButton(payload)
      case Ok(reading) => r := Ok(reading.pressed);
      case Err(e) => r := Err(e);
    }

    /** `get_temperature`. */
    method GetTemperature(response: seq<Byte>) returns (payload: seq<Byte>)
      requires Valid()
      modifies this`cached, this`log
      ensures Valid()
      ensures payload == ReadThrough(old(cached), TempChar, response)
      ensures cached == old(cached)[TempChar := payload]
      ensures log == old(log) + (if TempChar in old(cached) then [] else [Read(TempChar)])
    {
      payload := ReadOnce(TempChar, response);
    }

    // -------------------------------------------------------------------------
    // Actuator writes
    // -------------------------------------------------------------------------

    /** `keep_alive`: writes the single byte 1. */
    method KeepAlive()
      requires Valid()
      modifies this`log
      ensures Valid()
      ensures log == old(log) + [Write(KeepAliveChar, [1])]
    {
      Record(Write(KeepAliveChar, [1]));
    }

    /** `vibrate`: encodes the pattern and writes it; nothing is written when
        `bytes(message)` raises. */
    method Vibrate(arg: Codec.VibrationArg := Codec.Named(Codec.Regular)) returns (r: Result<seq<Byte>>)
      requires Valid()
      modifies this`log
      ensures Valid()
      ensures r == Codec.EncodeVibration(arg)
      ensures log == old(log) + (if r.Ok? then [Write(VibratorChar, r.value)] else [])
    {
      r := Codec.EncodeVibration(arg);
      if r.Ok? {
        Record(Write(VibratorChar, r.value));
      }
    }

    /** `set_led`: encodes the colour and writes it; nothing is written when
        the colour does not parse. */
    method SetLed(color: string := "0x2185d0", on: bool := true) returns (r: Result<seq<Byte>>)
      requires Valid()
      modifies this`log
      ensures Valid()
      ensures r == Codec.EncodeLed(color, on)
      ensures log == old(log) + (if r.Ok? then [Write(LedChar, r.value)] else [])
    {
      r := Codec.EncodeLed(color, on);
      if r.Ok? {
        Record(Write(LedChar, r.value));
      }
    }

    // -------------------------------------------------------------------------
    // Listener registry
    // -------------------------------------------------------------------------

    /** `on(event, callback)`: a recognised event stores the callback last in
        its dictionary under a fresh id and starts notifications unless the
        event is already subscribed; any other event string changes nothing. */
    method On(event: string, cb: Callback) returns (id: Option<ListenerId>)
      requires Valid()
      modifies this`callbacks, this`subscribed, this`nextId, this`log
      ensures Valid()
      ensures id.Some? <==> EventOf(event).Some?
      ensures id.None? ==> unchanged(this)
      ensures id.Some? ==>
        var e := EventOf(event).value;
        && id.value !in old(LiveIds())
        && LiveIds() == old(LiveIds()) + {id.value}
        && callbacks == old(callbacks).Set(e, old(callbacks.Get(e)) + [Entry(id.value, cb)])
        && subscribed == old(subscribed).Set(e, true)
        && log == old(log) + (if old(subscribed.Get(e)) then [] else [StartNotify(NotifyCharacteristic(e))])
    {
      id := None;
      match EventOf(event)
      case None =>
      case Some(e) =>
        var newId := Register(e, cb);
        Subscribe(e);
        id := Some(newId);
    }

    /** The storing half of `on`: the callback goes last in its event's
        dictionary under the next id. */
    method Register(e: Event, cb: Callback) returns (newId: ListenerId)
      requires RegistryValid()
      modifies this`callbacks, this`nextId
      ensures RegistryValid()
      ensures newId !in old(LiveIds())
      ensures LiveIds() == old(LiveIds()) + {newId}
      ensures callbacks == old(callbacks).Set(e, old(callbacks.Get(e)) + [Entry(newId, cb)])
    {
      var dicts := callbacks;
      newId := nextId;
      InsertConsistent(dicts, newId, e, cb);
      nextId := nextId + 1;
      callbacks := callbacks.Set(e, Insert(dicts.Get(e), newId, cb));
    }

    /** The notifying half of `on`: starts notifications for an event that is
        not yet subscribed and marks it subscribed. */
    method Subscribe(e: Event)
      requires MemoValid()
      modifies this`subscribed, this`log
      ensures MemoValid()
      ensures subscribed == old(subscribed).Set(e, true)
      ensures log == old(log) + (if old(subscribed.Get(e)) then [] else [StartNotify(NotifyCharacteristic(e))])
    {
      if !subscribed.Get(e) {
        Record(StartNotify(NotifyCharacteristic(e)));
        subscribed := subscribed.Set(e, true);
      } else {
        assert subscribed == old(subscribed).Set(e, true);
      }
    }

    /** `off(id, continue_notifications)`: removes `id` from the first
        dictionary, in the order position, button, temperature, battery, that
        holds it, and stops that event's notifications once its dictionary is
        empty unless asked to continue. An unknown id changes nothing. */
    method Off(id: ListenerId, continueNotifications: bool) returns (removed: bool)
      requires Valid()
      modifies this`callbacks, this`subscribed, this`log
      ensures Valid()
      ensures removed <==> id in old(LiveIds())
      ensures !removed ==> unchanged(this)
      ensures removed ==>
        var e := OwnerOf(old(callbacks), id).value;
        var stop := !continueNotifications && callbacks.Get(e) == [];
        && LiveIds() == old(LiveIds()) - {id}
        && callbacks == old(callbacks).Set(e, Remove(old(callbacks.Get(e)), id))
        && |callbacks.Get(e)| == |old(callbacks.Get(e))| - 1
        && subscribed == (if stop then old(subscribed).Set(e, false) else old(subscribed))
        && log == old(log) + (if stop then [StopNotify(NotifyCharacteristic(e))] else [])
    {
      var owner := Unregister(id);
      removed := owner.Some?;
      if owner.Some? {
        Unsubscribe(owner.value, continueNotifications);
      }
    }

    /** The removing half of `off`: pops `id` from the first dictionary, in
        search order, that holds it, and answers which one that was. */
    method Unregister(id: ListenerId) returns (owner: Option<Event>)
      requires RegistryValid()
      modifies this`callbacks
      ensures RegistryValid()
      ensures owner == OwnerOf(old(callbacks), id)
      ensures owner.Some? <==> id in old(LiveIds())
      ensures owner.None? ==> callbacks == old(callbacks)
      ensures owner.Some? ==>
        && LiveIds() == old(LiveIds()) - {id}
        && callbacks == old(callbacks).Set(owner.value, Remove(old(callbacks.Get(owner.value)), id))
        && |callbacks.Get(owner.value)| == |old(callbacks.Get(owner.value))| - 1
    {
      owner := None;
      if id in Ids(callbacks.position) {
        owner := Some(Position);
      } else if id in Ids(callbacks.button) {
        owner := Some(Button);
      } else if id in Ids(callbacks.temp) {
        owner := Some(Temp);
      } else if id in Ids(callbacks.battery) {
        owner := Some(Battery);
      }
      assert owner == OwnerOf(callbacks, id);
      if owner.Some? {
        var e := owner.value;
        RemoveConsistent(callbacks, nextId, id);
        callbacks := callbacks.Set(e, Remove(callbacks.Get(e), id));
      }
    }

    /** The notifying half of `off`: once the event's dictionary is empty,
        stops its notifications and clears its flag, unless asked to continue. */
    method Unsubscribe(e: Event, continueNotifications: bool)
      requires MemoValid()
      modifies this`subscribed, this`log
      ensures MemoValid()
      ensures var stop := !continueNotifications && callbacks.Get(e) == [];
        && subscribed == (if stop then old(subscribed).Set(e, false) else old(subscribed))
        && log == old(log) + (if stop then [StopNotify(NotifyCharacteristic(e))] else [])
    {
      if !continueNotifications && |callbacks.Get(e)| == 0 {
        Record(StopNotify(NotifyCharacteristic(e)));
        subscribed := subscribed.Set(e, false);
      }
    }

    // -------------------------------------------------------------------------
    // Notification dispatch
    // -------------------------------------------------------------------------

    /** The tail of `_on_*`: the built-in hook first, then every registered
        callback of the event once, in insertion order, all with the same reading. */
    method Dispatch(e: Event, reading: Codec.Reading) returns (calls: seq<Invocation>)
      ensures |calls| == |callbacks.Get(e)| + 1
      ensures calls[0] == Invocation(Hook(e), reading)
      ensures forall i :: 0 <= i < |callbacks.Get(e)| ==>
        calls[i + 1] == Invocation(Listener(callbacks.Get(e)[i].callback), reading)
    {
      var listeners := Values(callbacks.Get(e));
      calls := [Invocation(Hook(e), reading)];
      for i := 0 to |listeners|
        invariant |calls| == i + 1
        invariant calls[0] == Invocation(Hook(e), reading)
        invariant forall j :: 0 <= j < i ==> calls[j + 1] == Invocation(Listener(listeners[j]), reading)
      {
        calls := calls + [Invocation(Listener(listeners[i]), reading)];
      }
    }

    /** `handleNotification(cHandle, data)`: handles 41, 33, 56 and 23 are
        decoded as position, button, temperature and battery and dispatched;
        any other handle is ignored. A decoder that raises calls nobody. */
    method HandleNotification(handle: int, data: seq<Byte>) returns (r: Result<seq<Invocation>>)
      ensures EventOfHandle(handle).None? ==> r == Ok([])
      ensures EventOfHandle(handle).Some? ==>
        var e := EventOfHandle(handle).value;
        && (r.Err? <==> Decode(e, data).Err?)
        && (r.Err? ==> r.error == Decode(e, data).error)
        && (r.Ok? ==>
          && |r.value| == |callbacks.Get(e)| + 1
          && r.value[0] == Invocation(Hook(e), Decode(e, data).value)
          && forall i :: 0 <= i < |callbacks.Get(e)| ==>
            r.value[i + 1] == Invocation(Listener(callbacks.Get(e)[i].callback), Decode(e, data).value))
    {
      match EventOfHandle(handle)
      case None => r := Ok([]);
      case Some(e) =>
        match Decode(e, data)
        case Err(err) => r := Err(err);
        case Ok(reading) =>
          var calls := Dispatch(e, reading);
          r := Ok(calls);
    }
  }
}
