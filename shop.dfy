/** Discovery: the `Shop` scanner that picks wands out of the advertised
    devices by name, name prefix or MAC address. */
module Discovery {
  import opened Common
  import opened Session
  import Registry

  /** The three criteria a shop may hold; an absent one is not checked. */
  datatype Selector = Selector(name: Option<string>, prefix: Option<string>, mac: Option<string>)

  /** `s.startswith(prefix)`: `s` is `prefix` followed by the rest of `s`. */
  predicate StartsWith(s: string, prefix: string)
    ensures StartsWith(s, prefix) <==> |prefix| <= |s| && s == prefix + s[|prefix|..]
  {
    |prefix| <= |s| && s[..|prefix|] == prefix
  }

  /** A device matches when it satisfies every criterion the selector sets: the
      exact name, a name starting with the prefix (an unnamed device has
      none), the address. With no criterion set every device matches. */
  predicate Accepts(sel: Selector, d: Device)
    ensures sel == Selector(None, None, None) ==> Accepts(sel, d)
    ensures sel.prefix.Some? && Accepts(sel, d) ==> d.name.Some? && |sel.prefix.value| <= |d.name.value|
  {
    && (sel.name.Some? ==> d.name == sel.name)
    && (sel.prefix.Some? ==> d.name.Some? && StartsWith(d.name.value, sel.prefix.value))
    && (sel.mac.Some? ==> d.address == sel.mac.value)
  }

  /** The accepted devices, in the order they were discovered. */
  function Filter(sel: Selector, devices: seq<Device>): (r: seq<Device>)
    ensures |r| <= |devices|
  {
    if devices == [] then []
    else
      var last := devices[|devices| - 1];
      Filter(sel, devices[..|devices| - 1]) + (if Accepts(sel, last) then [last] else [])
  }

  /** Filtering keeps exactly the accepted devices. */
  lemma {:induction false} FilterMembers(sel: Selector, devices: seq<Device>)
    ensures forall d :: d in Filter(sel, devices) <==> d in devices && Accepts(sel, d)
  {
    if devices != [] {
      var init := devices[..|devices| - 1];
      FilterMembers(sel, init);
      assert devices == init + [devices[|devices| - 1]];
    }
  }

  /** Filtering keeps the accepted devices' relative order: it never
      reorders, so filtering an already filtered list changes nothing. */
  lemma {:induction false} FilterIdempotent(sel: Selector, devices: seq<Device>)
    ensures Filter(sel, Filter(sel, devices)) == Filter(sel, devices)
  {
    if devices != [] {
      var init := devices[..|devices| - 1];
      var last := devices[|devices| - 1];
      FilterIdempotent(sel, init);
      var r := Filter(sel, devices);
      if Accepts(sel, last) {
        assert r == Filter(sel, init) + [last];
        assert r[..|r| - 1] == Filter(sel, init);
        assert r[|r| - 1] == last;
      } else {
        assert r == Filter(sel, init);
      }
    }
  }

  /** Filtering one more device appends it when it is accepted. */
  lemma FilterStep(sel: Selector, devices: seq<Device>, i: nat)
    requires i < |devices|
    ensures Filter(sel, devices[..i + 1]) ==
      Filter(sel, devices[..i]) + (if Accepts(sel, devices[i]) then [devices[i]] else [])
  {
    assert devices[..i + 1][..i] == devices[..i];
  }

  /** The device each wand was built for. */
  function DevicesOf(ws: seq<Wand>): (ds: seq<Device>)
  {
    seq(|ws|, i requires 0 <= i < |ws| => ws[i].device)
  }

  /** Every name built by extending a prefix starts with it. */
  lemma StartsWithConcat(prefix: string, rest: string)
    ensures StartsWith(prefix + rest, prefix)
  {
    assert (prefix + rest)[..|prefix|] == prefix;
  }

  lemma DevicesOfAppend(ws: seq<Wand>, w: Wand)
    ensures DevicesOf(ws + [w]) == DevicesOf(ws) + [w.device]
  {
  }

  class Shop {
    var name: Option<string>
    var prefix: Option<string>
    var mac: Option<string>
    /** The wands of the last scan. */
    var wands: seq<Wand>

    constructor ()
      ensures name.None? && prefix.None? && mac.None?
      ensures wands == []
    {
      name, prefix, mac := None, None, None;
      wands := [];
    }

    /** The criteria currently held. */
    function Selection(): (sel: Selector)
      reads this`name, this`prefix, this`mac
    {
      Selector(name, prefix, mac)
    }

    /** `handleDiscovery`: counts the criteria set (`mode`) and the ones the
        device meets (`found`); a new device meeting all of them gets a new
        wand appended. */
    method HandleDiscovery(device: Device, isNewDev: bool)
      modifies this`wands
      ensures var accepted := isNewDev && Accepts(Selection(), device);
        && |wands| == |old(wands)| + (if accepted then 1 else 0)
        && wands[..|old(wands)|] == old(wands)
        && (accepted ==> fresh(wands[|old(wands)|]) && Pristine(wands[|old(wands)|], device))
    {
      if isNewDev {
        var mode := 0;
        var found := 0;
        var deviceName := device.name;
        if name.Some? {
          mode := mode + 1;
          if deviceName == name {
            found := found + 1;
          }
        }
        if prefix.Some? {
          mode := mode + 1;
          if deviceName.Some? && StartsWith(deviceName.value, prefix.value) {
            found := found + 1;
          }
        }
        if mac.Some? {
          mode := mode + 1;
          if device.address == mac.value {
            found := found + 1;
          }
        }
        if found >= mode {
          var w := new Wand(device);
          wands := wands + [w];
        }
      }
    }

    /** The discovery loop of `scan`: a new wand list, filled by
        `handleDiscovery` with every device treated as new. */
    method Collect(devices: seq<Device>)
      modifies this`wands
      ensures DevicesOf(wands) == Filter(Selection(), devices)
      ensures forall i :: 0 <= i < |wands| ==> fresh(wands[i]) && Pristine(wands[i], wands[i].device)
      ensures forall i, j :: 0 <= i < j < |wands| ==> wands[i] != wands[j]
    {
      wands := [];
      for i := 0 to |devices|
        invariant DevicesOf(wands) == Filter(Selection(), devices[..i])
        invariant forall k :: 0 <= k < |wands| ==> fresh(wands[k]) && Pristine(wands[k], wands[k].device)
        invariant forall k, l :: 0 <= k < l < |wands| ==> wands[k] != wands[l]
      {
        ghost var before := wands;
        HandleDiscovery(devices[i], true);
        FilterStep(Selection(), devices, i);
        if |wands| > |before| {
          assert wands == before + [wands[|before|]];
          DevicesOfAppend(before, wands[|before|]);
        } else {
          assert wands == before;
        }
      }
      assert devices[..|devices|] == devices;
    }

    /** `scan`: with no criterion it raises AssertionError and changes
        nothing; otherwise it records the first criterion given (name before
        prefix before address) beside those left from earlier scans, and the
        new wand list holds one fresh wand per accepted device, in order. */
    method Scan(devices: seq<Device>, name: Option<string> := None,
                prefix: Option<string> := Some("Kano-Wand"), mac: Option<string> := None)
      returns (r: Result<seq<Wand>>)
      modifies this`name, this`prefix, this`mac, this`wands
      ensures name.None? && prefix.None? && mac.None? ==>
        r == Err(AssertionError) && unchanged(this)
      ensures name.Some? || prefix.Some? || mac.Some? ==>
        && this.name == (if name.Some? then name else old(this.name))
        && this.prefix == (if name.None? && prefix.Some? then prefix else old(this.prefix))
        && this.mac == (if name.None? && prefix.None? then mac else old(this.mac))
        && r == Ok(wands)
        && DevicesOf(wands) == Filter(Selection(), devices)
        && (forall i :: 0 <= i < |wands| ==> fresh(wands[i]) && Pristine(wands[i], wands[i].device))
        && (forall i, j :: 0 <= i < j < |wands| ==> wands[i] != wands[j])
    {
      if name.None? && prefix.None? && mac.None? {
        return Err(AssertionError);
      }
      if name.Some? {
        this.name := name;
      } else if prefix.Some? {
        this.prefix := prefix;
      } else {
        this.mac := mac;
      }
      Collect(devices);
      r := Ok(wands);
    }
  }

  /** A wand as built for `device`: valid, disconnected, with no listeners,
      no subscriptions, nothing cached and nothing sent. */
  ghost predicate Pristine(w: Wand, device: Device)
    reads w
  {
    && w.device == device
    && !w.connected
    && w.callbacks == Registry.PerEvent([], [], [], [])
    && w.subscribed == Registry.PerEvent(false, false, false, false)
    && w.cached == map[]
    && w.log == []
  }

  /** A wand as built is a valid session. */
  lemma PristineIsValid(w: Wand, device: Device)
    requires Pristine(w, device)
    ensures w.Valid()
  {
    forall e: Registry.Event ensures Registry.WellFormed(w.callbacks.Get(e)) {
    }
  }
}
