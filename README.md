# Kano wand session and scanner, modelled in Dafny

This project models the core of `kano_wando.py`, a Python library that drives
the Kano Harry Potter coding wand over Bluetooth Low Energy. It covers two
classes.

- `Wand` is one wand session. It holds:
  - the `connected` flag;
  - four insertion-ordered callback dictionaries (position, button,
    temperature, battery), each with its `*_subscribed` flag;
  - the lazily memoised characteristic reads;
  - the actuator writes (`vibrate`, `set_led`, `keep_alive`);
  - the routing of incoming notifications to a decoder and then to the
    built-in `on_*` hook and every registered callback.
- `Shop` is the scanner. It keeps the name / prefix / MAC criteria and builds
  one `Wand` per discovered device that meets every criterion set.

Layout:

- `common.dfy` (module `Common`): bytes, `Option`, and a `Result` whose errors
  are the Python exceptions the code can raise (`IndexError`, `ValueError`,
  `AssertionError`).
- `codec.dfy` (module `Codec`): the four notification decoders and the two
  actuator encoders, as functions. Lemmas give their round trips and the
  5-6-5 colour packing.
- `registry.dfy` (module `Registry`): the event names, and an ordered
  dictionary as a sequence of `(id, callback)` entries with distinct ids. It
  holds the insert and pop operations and the registry invariant across the
  four dictionaries.
- `wand.dfy` (module `Session`): class `Wand`. The Bluetooth client is
  abstracted away:
  - every call the wand makes on the client is appended to a ghost `log`;
  - what the peripheral answers (a read payload, the `is_connected` outcome)
    is a method parameter.
- `shop.dfy` (module `Discovery`): class `Shop`, with the matcher of
  `handleDiscovery` and the selector rules and discovery loop of `scan`. The
  discovered devices are a parameter.

The model's invariant `Wand.Valid` says two things:

- No listener id is held twice, in one dictionary or across two, and every id
  came from the allocator.
- Each memoised characteristic has been read from the transport exactly once
  if it is cached, and never otherwise. So over the object's lifetime each
  read happens at most once.

Every method of `Wand` keeps this invariant.

### Where the model follows the code rather than the documentation

- Position on a short buffer: `_on_position` reads its words through Python
  slices and `int.from_bytes`, neither of which fails. A buffer shorter than
  eight bytes therefore decodes with the missing bytes treated as zero
  (`Codec.ShortPositionReadsAsZeroPadded`); there is no error.
- Position range: the values are full int16. The documented range
  [-1000, 1000] is not enforced.
- Disconnect: `disconnect` clears `connected` and the four subscribed flags. It
  keeps the callback dictionaries and the memoised reads, so a memoised value
  survives reconnection.
- No connection checks: no operation checks `connected` first.
- Selector persistence: `scan` sets only the first criterion given and never
  clears the others. Criteria set by an earlier scan stay in force.

### Where the model follows the evident intent of the code

At each of these points the code either cannot run as written or contradicts
its own bookkeeping. The model states what it evidently means.

- Notification characteristics: `on` names `_SENSOR.POSITION_CHAR`,
  `TEMPERATURE_CHAR` and `BATTERY_CHAR`, which do not exist
  (`kano_wando.py:272`, `280`, `284`). The model starts notifications on the
  quaternions, temperature and battery characteristics
  (`Session.NotifyCharacteristic`).
- Subscription flags: `on` calls `start_notify` on every registration and
  never sets the `*_subscribed` flags. In the model, `on` starts notifications
  only when the event is not yet subscribed and then sets the flag. `off`
  clears the flag when it stops notifications.
- Discovery call: `scan` calls `handleDiscovery(device)` with one argument
  where three are required (`kano_wando.py:509`, `519`). The model passes
  `isNewDev = true`.
- Position hook: the `on_position` hook is declared `(roll, x, y, z)` but called
  positionally with `(x, y, z, w)`. The model records the positional 4-tuple
  `(x, y, z, w)`.
- Memoised reads: `get_software_version`, `get_hardware_version`,
  `get_battery`, `get_button` and `get_temperature` index the coroutine
  (`await read(...)[0]`). The model memoises the whole payload once, as
  `get_organization` does.
- Stopping notifications: `off` also names the missing `_SENSOR.POSITION_CHAR`,
  `TEMPERATURE_CHAR` and `BATTERY_CHAR` (`kano_wando.py:300`, `308`, `312`).
  Popping the last position, temperature or battery listener without
  `continue_notifications` would raise AttributeError after the pop. The model
  stops notifications on the quaternions, temperature and battery
  characteristics.
- Building a wand: `class Wand()` derives from `object`, and its `__init__`
  calls `super().__init__(None)` (`kano_wando.py:55`, `66`). `object.__init__`
  takes no argument, so every `Wand(device)` raises TypeError, including the
  one in the accepting branch of `handleDiscovery` (`kano_wando.py:546`). The
  model's constructor builds the wand that lines 67-90 set up.
- Device address: `handleDiscovery` compares `device.addr` (a bluepy name)
  against the MAC. The model compares the device's address.

## Model

| member | source | states |
|---|---|---|
| Codec.ToSigned16 | kano_wando.py:347 | `int16(uint16(u))` is the int16 congruent to `u` mod 2^16, negative exactly when the top bit is set |
| Codec.ToUnsigned16 | kano_wando.py:347 | every int16 has a 16-bit word whose signed reading is that value |
| Codec.SignedUnsignedInverse | kano_wando.py:347 | the word-to-int16 reinterpretation loses nothing: it is inverted by `ToUnsigned16` |
| Codec.Negate16 | kano_wando.py:348-349 | `-1 * int16` stays in int16, is congruent to the negation and equals it except at -32768, which wraps to itself |
| Codec.Negate16Involution | kano_wando.py:348-349 | int16 negation undone by itself, including at -32768 |
| Codec.Slice | kano_wando.py:347-350 | Python slicing clamps: never longer than asked, the exact slice when in range, the tail `data[lo:]` when only `hi` is past the end, empty when `lo` is |
| Codec.FromLittleEndian | kano_wando.py:347 | `int.from_bytes(s, 'little')` is below 256^len(s) |
| Codec.Word | kano_wando.py:347-350 | the word read through `data[i:i+2]`: little-endian for two bytes, the lone byte for one, 0 past the end |
| Codec.Int16Bytes | kano_wando.py:347 | two little-endian bytes that read back as the given int16 |
| Codec.DecodePosition | kano_wando.py:347-350 | all four outputs int16; for 8 bytes y = s16(0), x = -s16(2), w = -s16(4), z = s16(6) with int16 negation; no clamping |
| Codec.EncodePosition | kano_wando.py:347-350 | a wire buffer of exactly 8 bytes for an orientation |
| Codec.DecodeEncodePosition | kano_wando.py:347-350 | decoding the encoding of any int16 orientation gives it back |
| Codec.EncodeDecodePosition | kano_wando.py:347-350 | every 8-byte buffer is the encoding of its own decoding: the decoder loses no information |
| Codec.ShortPositionReadsAsZeroPadded | kano_wando.py:347-350 | a buffer shorter than 8 bytes decodes as if padded with zero bytes |
| Codec.DecodeButton | kano_wando.py:383 | pressed iff `data[0] == 1`; IndexError exactly when the payload is empty |
| Codec.DecodeTemperature | kano_wando.py:404 | an int16, the signed little-endian value of bytes 0-1 |
| Codec.DecodeTemperatureRoundTrip | kano_wando.py:404 | any int16 written little-endian, followed by anything, decodes to itself |
| Codec.ShortTemperatureReadsAsZeroPadded | kano_wando.py:404 | a payload shorter than two bytes decodes as if zero-padded: empty reads 0, one byte reads as itself |
| Codec.DecodeBattery | kano_wando.py:425 | exactly `data[0]`; IndexError exactly when the payload is empty |
| Codec.PatternValue | kano_wando.py:45-53 | each pattern's value is in 1..7 |
| Codec.PatternValueInjective | kano_wando.py:45-53 | no two `PATTERN` members share a value |
| Codec.EncodeVibration | kano_wando.py:211-214 | a one-byte message: the pattern's value for a PATTERN, the raw value otherwise; ValueError exactly when the raw value is not a byte |
| Codec.VibrationNamedEqualsRaw | kano_wando.py:211-214 | a named pattern and its raw value produce the same message |
| Codec.RemoveHashes | kano_wando.py:238 | `replace("#", "")` leaves no `#`, never lengthens, and changes nothing without a `#` |
| Codec.RemoveHashesChar | kano_wando.py:238 | a lone `#` is removed and any other character is kept |
| Codec.RemoveHashesConcat | kano_wando.py:238 | removal distributes over concatenation, so every non-`#` character is kept, in order |
| Codec.ParseHex | kano_wando.py:238 | `int(s, 16)` fails only with ValueError; a plain digit string gives its value; a success is either all hex digits or `0x`/`0X` followed by hex digits, whose value it gives |
| Codec.ParsePrefixedHex | kano_wando.py:238 | `0x` or `0X` followed by one or more hex digits, in either case, parses to the digits' value |
| Codec.IsHexDigit | kano_wando.py:238 | the ASCII hex digits; the prefix letters `x`, `X` and `#` are not among them |
| Codec.HexDigitValue | kano_wando.py:238 | each hex digit has a value 0..15, below 10 exactly for decimal digits |
| Codec.HexDigitOfValue | kano_wando.py:238 | a decimal or lower-case digit is the rendering of its own value |
| Codec.HexDigit | kano_wando.py:238 | each digit 0..15 has a hex character of that value |
| Codec.HexValueFormatHex | kano_wando.py:238 | parsing back a fixed-width hex rendering gives the number |
| Codec.HexValue | kano_wando.py:238 | an n-digit hex string's value is below 16^n |
| Codec.Pack565 | kano_wando.py:239-242 | the packed colour fits 16 bits; `rgb>>11 == r>>3`, `(rgb>>5)&63 == g>>2`, `rgb&31 == b>>3` |
| Codec.Pack565Fields | kano_wando.py:242 | the three shifted terms occupy disjoint bit ranges, so each channel's top bits read back |
| Codec.EncodeLed | kano_wando.py:231-244 | exactly 3 bytes `[on?1:0, rgb>>8, rgb&0xff]` with rgb the 5-6-5 packing of the parsed channels; fails iff the colour does not parse |
| Codec.EncodeLedHashColor | kano_wando.py:238-244 | every `#rrggbb` colour encodes, and the message carries each channel's top bits |
| Codec.HashColorParses | kano_wando.py:238 | `#` plus six hex digits parses back to the colour |
| Codec.TopChannel | kano_wando.py:239 | for a 24-bit colour the `& 255` on the red channel removes nothing |
| Codec.DefaultColorHighDigits | kano_wando.py:224 | the leading digits "218" of the default colour are hex with value 0x218 |
| Codec.DefaultColorDigits | kano_wando.py:224 | the default colour's digits "2185d0" are hex with value 0x2185d0 |
| Codec.DefaultColorValue | kano_wando.py:224-238 | the default "0x2185d0" parses to 0x2185d0 |
| Codec.DefaultColorPacking | kano_wando.py:239-244 | the default colour's channels are 0x21, 0x85, 0xD0 and pack to 0x243A |
| Codec.EncodeLedDefault | kano_wando.py:224-244 | `set_led()` with its defaults writes `[1, 0x24, 0x3A]` |
| Registry.EventName | kano_wando.py:269-281 | each of the four event strings `on` compares against is recognised as its own event |
| Registry.EventOfName | kano_wando.py:269-284 | a string selects an event only when it is that event's name; any other string selects none |
| Registry.Ids | kano_wando.py:78-85 | the keys of a dictionary, in order |
| Registry.Values | kano_wando.py:358 | `callbacks.values()`: the callbacks, in insertion order |
| Registry.Remove | kano_wando.py:297 | popping never lengthens a dictionary |
| Registry.RemoveIds | kano_wando.py:297 | popping drops the key and keeps every other key |
| Registry.RemoveAbsent | kano_wando.py:297 | popping a missing key changes nothing |
| Registry.RemoveAt | kano_wando.py:297 | popping a key held once removes only that entry and keeps the others in order |
| Registry.DropWellFormed | kano_wando.py:297 | dropping an entry keeps the keys distinct |
| Registry.RemoveWellFormed | kano_wando.py:297 | popping keeps the keys distinct and removes exactly one entry iff the key was present |
| Registry.Insert | kano_wando.py:271 | `d[id] = cb` for a new key appends it last, keeps the keys distinct, and appends the callback to the values |
| Registry.RemoveInsert | kano_wando.py:271-297 | popping the id just stored gives back the dictionary as it was |
| Registry.PerEvent.Set | kano_wando.py:78-85 | updates one event's slot and leaves the other three unchanged |
| Registry.OwnerOf | kano_wando.py:297-312 | the first dictionary in search order (position, button, temperature, battery) holding the id, found iff some dictionary holds it |
| Registry.StoredIds | kano_wando.py:271 | storing adds the id to its event's keys and no other |
| Registry.StoredWellFormed | kano_wando.py:271 | storing a new key keeps every dictionary's keys distinct |
| Registry.StoredDisjoint | kano_wando.py:270-271 | storing a fresh id keeps the dictionaries' key sets disjoint |
| Registry.StoredBelow | kano_wando.py:270-271 | after storing the next id, all ids are below its successor |
| Registry.StoredAllIds | kano_wando.py:271 | storing adds exactly the new id to the live ids |
| Registry.InsertConsistent | kano_wando.py:270-271 | the fresh id is held by no dictionary, and storing it keeps the registry invariant and adds exactly it |
| Registry.RemoveConsistent | kano_wando.py:297-312 | popping a live id from its owner keeps the invariant, drops exactly that id and shortens that dictionary by one |
| Session.NotifyCharacteristic | kano_wando.py:272-284 | each event starts notifications on one of the four notifying characteristics |
| Session.NotifyCharacteristicInjective | kano_wando.py:272-284 | different events use different characteristics |
| Session.HandleOf | kano_wando.py:87-90 | the handles 41, 33, 56 and 23 of the four events, each routed back to its own event |
| Session.RoutedHandle | kano_wando.py:446-453 | a handle is routed to an event only when it is that event's handle; any other handle goes nowhere |
| Session.Decode | kano_wando.py:446-453 | each handled event's decoder yields a reading of that event; only the button and battery decoders fail, with IndexError, and only on an empty payload |
| Session.Wand.constructor | kano_wando.py:59-90 | a new wand is valid, disconnected, with empty dictionaries, no subscription, nothing cached and nothing sent |
| Session.Wand.Record | kano_wando.py:137 | a transport call is appended to the log, and read counts change only for that call |
| Session.Wand.Connect | kano_wando.py:93-105 | `connected` is what the link reported; one link-connect call is logged |
| Session.Wand.Disconnect | kano_wando.py:113-124 | disconnected, all four subscribed flags false, dictionaries and memoised reads untouched, one link-disconnect call logged |
| Session.Wand.ReadOnce | kano_wando.py:136-137 | the transport is read only when nothing is cached for the characteristic, and the payload is then cached for good |
| Session.Wand.GetOrganization | kano_wando.py:132-139 | the organisation payload, read from the transport at most once |
| Session.Wand.GetSoftwareVersion | kano_wando.py:142-149 | the software payload, read from the transport at most once |
| Session.Wand.GetHardwareVersion | kano_wando.py:152-159 | the hardware payload, read from the transport at most once |
| Session.Wand.GetBattery | kano_wando.py:162-169 | the battery payload, read from the transport at most once |
| Session.Wand.GetButton | kano_wando.py:172-179 | pressed iff the memoised payload's first byte is 1, IndexError when it is empty, read at most once |
| Session.Wand.GetTemperature | kano_wando.py:182-189 | the temperature payload, read from the transport at most once |
| Session.Wand.KeepAlive | kano_wando.py:192-202 | writes the single byte 1 to the keep-alive characteristic |
| Session.Wand.Vibrate | kano_wando.py:205-221 | writes the encoded pattern to the vibrator, and writes nothing when encoding raises |
| Session.Wand.SetLed | kano_wando.py:224-251 | writes the encoded colour to the LED, and writes nothing when the colour does not parse |
| Session.Wand.On | kano_wando.py:258-286 | a recognised event gets an id held nowhere before, appended last to its dictionary only, with notifications started once; any other string returns None and changes nothing |
| Session.Wand.Register | kano_wando.py:270-271 | stores the callback last under a fresh id, adding exactly that id |
| Session.Wand.Subscribe | kano_wando.py:272-284 | starts notifications only when the event is not yet subscribed, and marks it subscribed |
| Session.Wand.Off | kano_wando.py:288-320 | true iff the id was live; only that entry is removed from the first dictionary holding it; stop_notify is sent once exactly when that dictionary is now empty and notifications are not continued; an unknown id changes nothing |
| Session.Wand.Unregister | kano_wando.py:297-312 | pops the id from the first dictionary, in search order, that holds it, dropping exactly that id |
| Session.Wand.Unsubscribe | kano_wando.py:299-312 | stops notifications and clears the flag only when the dictionary is empty and notifications are not continued |
| Session.Wand.Dispatch | kano_wando.py:357-359 | the hook first, then every registered callback exactly once, in insertion order, all with the same reading |
| Session.Wand.HandleNotification | kano_wando.py:440-453 | a known handle is decoded and dispatched, a decoder error calls nobody, and an unknown handle calls nobody |
| Discovery.Filter | kano_wando.py:505-510 | the accepted devices never outnumber the discovered ones |
| Discovery.FilterMembers | kano_wando.py:529-546 | a device is kept iff it was discovered and meets every criterion set |
| Discovery.FilterIdempotent | kano_wando.py:505-510 | filtering keeps order, so filtering twice changes nothing |
| Discovery.FilterStep | kano_wando.py:508-509 | one more discovered device extends the result by that device exactly when it is accepted |
| Discovery.StartsWith | kano_wando.py:538 | `name.startswith(prefix)`: the name is the prefix followed by the rest of the name |
| Discovery.StartsWithConcat | kano_wando.py:538 | every name that extends the prefix starts with it |
| Discovery.Accepts | kano_wando.py:532-545 | every set criterion must match; with none set every device matches; a prefix criterion rejects unnamed and shorter names |
| Discovery.DevicesOfAppend | kano_wando.py:546 | appending a wand appends its device |
| Discovery.Shop.constructor | kano_wando.py:458-470 | no criterion set and no wands |
| Discovery.Shop.HandleDiscovery | kano_wando.py:519-546 | a new device meeting every set criterion (counted as found >= mode) appends exactly one fresh wand for it; otherwise the list is unchanged |
| Discovery.Shop.Collect | kano_wando.py:505-510 | the new wand list holds one fresh, distinct, new wand per accepted device, in discovery order |
| Discovery.Shop.Scan | kano_wando.py:472-516 | with no criterion: AssertionError and nothing changes; otherwise only the first criterion given is recorded, and the result is the wands of the accepted devices |
| Discovery.PristineIsValid | kano_wando.py:59-90 | a wand as built by discovery satisfies the session invariant |

## Left out

- Bluetooth I/O (`BleakClient`, `BleakScanner`): it is a foreign library. Each
  call is a ghost log entry, and each answer (read payloads, the connection
  outcome, the discovered devices) is a parameter.
- async/await and the notification thread: each method is one sequential step.
- Debug `print` output and the `debug` flag.
- The UUID tables: characteristics are symbolic names.
- The hook bodies: `on_*` hooks and `post_connect`/`post_disconnect` are empty
  overridable no-ops. A hook appears only as an invocation in the dispatch
  result.
- `reset_position`: it uses members this class does not define.
- The `subscribe_*`/`unsubscribe_*` helpers: they are one-line transport
  wrappers.
- UTF-8 decoding in the `get_*` methods: payloads stay byte sequences.
- `uuid.uuid4()` randomness: ids come from a counter, which gives the only
  property used, freshness.
- Session.Wand.On: the callback `on` hands to `start_notify` is not modelled.
  Notifications reach callbacks only through `HandleNotification`.
- Session.Wand.Off: a callback stored as `None` makes `pop` return `None`, so
  `off` reports false while still removing it. Callbacks here are never
  `None`.
- Session.Wand.Dispatch: callbacks are opaque tokens. Their effects,
  exceptions and changes to the dictionaries during dispatch are not
  modelled.
- Codec.Negate16: assumes NumPy 2 promotion rules (NEP 50), under which
  `-1 * int16` stays an int16 and wraps. Under NumPy 1.x the product is
  promoted to a wider integer and `-1 * int16(-32768)` is 32768.
- Codec.ParseHex: `int(s, 16)` also accepts a sign, surrounding whitespace,
  underscores between digits and non-ASCII decimal digits such as '٣'. The model accepts only an optional `0x`/`0X`
  prefix followed by hex digits, so it rejects some strings Python accepts.
- Discovery.Shop.Scan: auto-connect (`connect=True`), the scan `timeout` and
  the `wand_class` parameter are left out. Connecting is `Wand.Connect`.
- Discovery.Shop.HandleDiscovery: the `isNewData` parameter is unused in the
  code and left out.
- The `wands` attribute before the first scan: the code creates it only in
  `scan`, while the model's constructor starts it empty.
