/** The per-event callback dictionaries of `Wand`. A Python dict keeps its
    keys in insertion order, so each dictionary is a sequence of entries whose
    ids are pairwise distinct. */
module Registry {
  import opened Common

  /** The four events `Wand.on` accepts. */
  datatype Event = Position | Button | Temp | Battery

  /** The event string `on` compares against; `on` recognises it as this event. */
  function EventName(e: Event): (name: string)
    ensures EventOf(name) == Some(e)
  {
    match e
    case Position => "position"
    case Button => "button"
    case Temp => "temp"
    case Battery => "battery"
  }

  /** The event an `on(event, ...)` string selects; any other string selects none. */
  function EventOf(name: string): (e: Option<Event>)
  {
    if name == "position" then Some(Position)
    else if name == "button" then Some(Button)
    else if name == "temp" then Some(Temp)
    else if name == "battery" then Some(Battery)
    else None
  }

  /** Only an event's own name selects it. */
  lemma EventOfName(name: string)
    ensures EventOf(name).Some? ==> EventName(EventOf(name).value) == name
  {
  }

  /** A listener id (a `uuid.uuid4()` in the source). */
  type ListenerId = nat

  /** An opaque user callback. */
  datatype Callback = Callback(token: nat)

  datatype Entry = Entry(id: ListenerId, callback: Callback)

  /** An insertion-ordered dictionary from listener id to callback. */
  type Dict = seq<Entry>

  /** The keys of a dictionary, in order. */
  function Ids(d: Dict): (ids: seq<ListenerId>)
    ensures |ids| == |d|
    ensures forall i :: 0 <= i < |d| ==> ids[i] == d[i].id
  {
    if d == [] then [] else [d[0].id] + Ids(d[1..])
  }

  /** `d.values()`, in order. */
  function Values(d: Dict): (cbs: seq<Callback>)
    ensures |cbs| == |d|
    ensures forall i :: 0 <= i < |d| ==> cbs[i] == d[i].callback
  {
    if d == [] then [] else [d[0].callback] + Values(d[1..])
  }

  /** No two entries share an id. */
  predicate WellFormed(d: Dict)
  {
    forall i, j :: 0 <= i < j < |d| ==> d[i].id != d[j].id
  }

  /** `d.pop(id, None)` without its value: every entry but the one keyed `id`, in order. */
  function Remove(d: Dict, id: ListenerId): (r: Dict)
    ensures |r| <= |d|
  {
    if d == [] then []
    else if d[0].id == id then Remove(d[1..], id)
    else [d[0]] + Remove(d[1..], id)
  }

  /** Removing drops the key and keeps every other key. */
  lemma {:induction false} RemoveIds(d: Dict, id: ListenerId)
    ensures forall k :: k in Ids(Remove(d, id)) <==> k in Ids(d) && k != id
  {
    if d != [] {
      RemoveIds(d[1..], id);
      assert Ids(d) == [d[0].id] + Ids(d[1..]);
      if d[0].id != id {
        assert Ids(Remove(d, id)) == [d[0].id] + Ids(Remove(d[1..], id));
      }
    }
  }

  /** Removing a key no entry carries changes nothing. */
  lemma {:induction false} RemoveAbsent(d: Dict, id: ListenerId)
    requires forall j :: 0 <= j < |d| ==> d[j].id != id
    ensures Remove(d, id) == d
  {
    if d != [] {
      var tail := d[1..];
      assert forall j :: 0 <= j < |tail| ==> tail[j] == d[j + 1];
      RemoveAbsent(tail, id);
      assert d == [d[0]] + tail;
    }
  }

  /** Removing a key carried by exactly one entry drops that entry and keeps
      every other entry in its order. */
  lemma {:induction false} RemoveAt(d: Dict, i: nat)
    requires i < |d|
    requires forall j :: 0 <= j < |d| && j != i ==> d[j].id != d[i].id
    ensures Remove(d, d[i].id) == d[..i] + d[i + 1..]
  {
    var id := d[i].id;
    var tail := d[1..];
    if i == 0 {
      forall j | 0 <= j < |tail| ensures tail[j].id != id {
        assert tail[j] == d[j + 1];
      }
      RemoveAbsent(tail, id);
      assert d[..0] + d[1..] == tail;
    } else {
      forall j | 0 <= j < |tail| && j != i - 1 ensures tail[j].id != tail[i - 1].id {
        assert tail[j] == d[j + 1];
      }
      assert tail[i - 1] == d[i];
      RemoveAt(tail, i - 1);
      assert tail[..i - 1] == d[1..i];
      assert tail[i..] == d[i + 1..];
      assert d[0].id != id;
      assert [d[0]] + (d[1..i] + d[i + 1..]) == d[..i] + d[i + 1..];
    }
  }

  /** Dropping one entry keeps the remaining ids distinct. */
  lemma DropWellFormed(d: Dict, i: nat)
    requires WellFormed(d) && i < |d|
    ensures WellFormed(d[..i] + d[i + 1..])
  {
    var r := d[..i] + d[i + 1..];
    forall a, b | 0 <= a < b < |r| ensures r[a].id != r[b].id {
      var a' := if a < i then a else a + 1;
      var b' := if b < i then b else b + 1;
      assert r[a] == d[a'];
      assert r[b] == d[b'];
    }
  }

  /** Removing keeps the ids distinct and shortens the dictionary by exactly one
      entry when the key was present. */
  lemma RemoveWellFormed(d: Dict, id: ListenerId)
    requires WellFormed(d)
    ensures WellFormed(Remove(d, id))
    ensures |Remove(d, id)| == if id in Ids(d) then |d| - 1 else |d|
  {
    if id in Ids(d) {
      var i :| 0 <= i < |d| && Ids(d)[i] == id;
      forall j | 0 <= j < |d| && j != i ensures d[j].id != d[i].id {
        if j < i {
          assert d[j].id != d[i].id;
        } else {
          assert d[i].id != d[j].id;
        }
      }
      RemoveAt(d, i);
      DropWellFormed(d, i);
    } else {
      forall j | 0 <= j < |d| ensures d[j].id != id {
        assert Ids(d)[j] == d[j].id;
      }
      RemoveAbsent(d, id);
    }
  }

  /** `d[id] = callback` for an id the dictionary does not hold: the new entry
      goes last. */
  function Insert(d: Dict, id: ListenerId, cb: Callback): (r: Dict)
    requires id !in Ids(d)
    ensures Ids(r) == Ids(d) + [id]
    ensures WellFormed(d) ==> WellFormed(r)
    ensures Values(r) == Values(d) + [cb]
  {
    var r := d + [Entry(id, cb)];
    assert Ids(r) == Ids(d) + [id];
    r
  }

  /** `off` undoes `on`: popping the id just stored gives back the
      dictionary as it was. */
  lemma RemoveInsert(d: Dict, id: ListenerId, cb: Callback)
    requires id !in Ids(d)
    ensures Remove(Insert(d, id, cb), id) == d
  {
    var r := Insert(d, id, cb);
    assert r == d + [Entry(id, cb)];
    forall j | 0 <= j < |r| && j != |d| ensures r[j].id != r[|d|].id {
      assert r[j] == d[j] && Ids(d)[j] == d[j].id;
    }
    RemoveAt(r, |d|);
    assert r[..|d|] + r[|d| + 1..] == d;
  }

  /** One value per event, in the order `off` searches the dictionaries:
      position, button, temperature, battery. */
  datatype PerEvent<T> = PerEvent(position: T, button: T, temp: T, battery: T)
  {
    function Get(e: Event): (v: T)
    {
      match e
      case Position => position
      case Button => button
      case Temp => temp
      case Battery => battery
    }

    function Set(e: Event, v: T): (r: PerEvent<T>)
      ensures r.Get(e) == v
      ensures forall e' :: e' != e ==> r.Get(e') == Get(e')
    {
      match e
      case Position => this.(position := v)
      case Button => this.(button := v)
      case Temp => this.(temp := v)
      case Battery => this.(battery := v)
    }
  }

  /** The first event, in search order, whose dictionary holds `id`. */
  function OwnerOf(dicts: PerEvent<Dict>, id: ListenerId): (e: Option<Event>)
    ensures e.Some? <==> id in AllIds(dicts)
    ensures e.Some? ==> id in Ids(dicts.Get(e.value))
    ensures e == Some(Button) ==> id !in Ids(dicts.Get(Position))
    ensures e == Some(Temp) ==> id !in Ids(dicts.Get(Position)) && id !in Ids(dicts.Get(Button))
    ensures e == Some(Battery) ==>
      id !in Ids(dicts.Get(Position)) && id !in Ids(dicts.Get(Button)) && id !in Ids(dicts.Get(Temp))
  {
    if id in Ids(dicts.Get(Position)) then Some(Position)
    else if id in Ids(dicts.Get(Button)) then Some(Button)
    else if id in Ids(dicts.Get(Temp)) then Some(Temp)
    else if id in Ids(dicts.Get(Battery)) then Some(Battery)
    else None
  }

  /** Every id some dictionary holds. */
  function AllIds(dicts: PerEvent<Dict>): (ids: set<ListenerId>)
    ensures forall k :: k in ids <==>
      k in Ids(dicts.Get(Position)) || k in Ids(dicts.Get(Button)) ||
      k in Ids(dicts.Get(Temp)) || k in Ids(dicts.Get(Battery))
  {
    set k | k in Ids(dicts.position) + Ids(dicts.button) + Ids(dicts.temp) + Ids(dicts.battery)
  }

  /** The registry invariant: no two live listeners share an id, in one
      dictionary or across two, and every id is below the next one to be
      handed out. */
  predicate Consistent(dicts: PerEvent<Dict>, nextId: nat)
  {
    AllWellFormed(dicts) && Disjoint(dicts) && Below(dicts, nextId)
  }

  /** No dictionary holds an id twice. */
  predicate AllWellFormed(dicts: PerEvent<Dict>)
  {
    forall e :: WellFormed(dicts.Get(e))
  }

  /** No id is held by two dictionaries. */
  predicate Disjoint(dicts: PerEvent<Dict>)
  {
    forall e1, e2, k :: e1 != e2 && k in Ids(dicts.Get(e1)) ==> k !in Ids(dicts.Get(e2))
  }

  /** Every id held is below `nextId`. */
  predicate Below(dicts: PerEvent<Dict>, nextId: nat)
  {
    forall e, k :: k in Ids(dicts.Get(e)) ==> k < nextId
  }

  /** The dictionaries after storing `cb` under `id` in event `e`'s one. */
  function Stored(dicts: PerEvent<Dict>, e: Event, id: ListenerId, cb: Callback): (after: PerEvent<Dict>)
  {
    dicts.Set(e, dicts.Get(e) + [Entry(id, cb)])
  }

  /** Storing adds the id to its event's keys and to no other event's. */
  lemma StoredIds(dicts: PerEvent<Dict>, e: Event, id: ListenerId, cb: Callback)
    ensures forall e', k :: k in Ids(Stored(dicts, e, id, cb).Get(e')) <==>
      k in Ids(dicts.Get(e')) || (e' == e && k == id)
  {
    var after := Stored(dicts, e, id, cb);
    forall e' ensures Ids(after.Get(e')) == Ids(dicts.Get(e')) + (if e' == e then [id] else []) {
      if e' == e {
        assert after.Get(e') == dicts.Get(e) + [Entry(id, cb)];
      } else {
        assert Ids(dicts.Get(e')) + [] == Ids(dicts.Get(e'));
      }
    }
  }

  /** Registering under the next id keeps the registry consistent and adds
      exactly that id, which no dictionary held before. */
  lemma InsertConsistent(dicts: PerEvent<Dict>, nextId: nat, e: Event, cb: Callback)
    requires Consistent(dicts, nextId)
    ensures nextId !in AllIds(dicts)
    ensures nextId !in Ids(dicts.Get(e))
    ensures var after := dicts.Set(e, Insert(dicts.Get(e), nextId, cb));
      && Consistent(after, nextId + 1)
      && AllIds(after) == AllIds(dicts) + {nextId}
  {
    var after := Stored(dicts, e, nextId, cb);
    assert nextId !in Ids(dicts.Get(e));
    assert after == dicts.Set(e, Insert(dicts.Get(e), nextId, cb));
    StoredWellFormed(dicts, e, nextId, cb);
    StoredDisjoint(dicts, nextId, e, cb);
    StoredBelow(dicts, nextId, e, cb);
    StoredAllIds(dicts, e, nextId, cb);
  }

  lemma StoredWellFormed(dicts: PerEvent<Dict>, e: Event, id: ListenerId, cb: Callback)
    requires AllWellFormed(dicts) && id !in Ids(dicts.Get(e))
    ensures AllWellFormed(Stored(dicts, e, id, cb))
  {
    var after := Stored(dicts, e, id, cb);
    forall e' ensures WellFormed(after.Get(e')) {
      if e' == e {
        assert after.Get(e') == Insert(dicts.Get(e), id, cb);
      }
    }
  }

  lemma StoredDisjoint(dicts: PerEvent<Dict>, nextId: nat, e: Event, cb: Callback)
    requires Disjoint(dicts) && Below(dicts, nextId)
    ensures Disjoint(Stored(dicts, e, nextId, cb))
  {
    var after := Stored(dicts, e, nextId, cb);
    StoredIds(dicts, e, nextId, cb);
    forall e1, e2, k | e1 != e2 && k in Ids(after.Get(e1)) ensures k !in Ids(after.Get(e2)) {
      assert k in Ids(dicts.Get(e1)) || (e1 == e && k == nextId);
    }
  }

  lemma StoredBelow(dicts: PerEvent<Dict>, nextId: nat, e: Event, cb: Callback)
    requires Below(dicts, nextId)
    ensures Below(Stored(dicts, e, nextId, cb), nextId + 1)
  {
    var after := Stored(dicts, e, nextId, cb);
    StoredIds(dicts, e, nextId, cb);
    forall e', k | k in Ids(after.Get(e')) ensures k < nextId + 1 {
      assert k in Ids(dicts.Get(e')) || k == nextId;
    }
  }

  lemma StoredAllIds(dicts: PerEvent<Dict>, e: Event, id: ListenerId, cb: Callback)
    ensures AllIds(Stored(dicts, e, id, cb)) == AllIds(dicts) + {id}
  {
    var after := Stored(dicts, e, id, cb);
    StoredIds(dicts, e, id, cb);
    forall k ensures k in AllIds(after) <==> k in AllIds(dicts) || k == id {
      if k == id {
        assert k in Ids(after.Get(e));
      }
    }
  }

  /** Removing a live id from the dictionary that holds it keeps the registry
      consistent and drops exactly that id. */
  lemma RemoveConsistent(dicts: PerEvent<Dict>, nextId: nat, id: ListenerId)
    requires Consistent(dicts, nextId)
    requires OwnerOf(dicts, id).Some?
    ensures var e := OwnerOf(dicts, id).value;
      var after := dicts.Set(e, Remove(dicts.Get(e), id));
      && Consistent(after, nextId)
      && AllIds(after) == AllIds(dicts) - {id}
      && |after.Get(e)| == |dicts.Get(e)| - 1
  {
    var e := OwnerOf(dicts, id).value;
    RemoveWellFormed(dicts.Get(e), id);
    RemoveIds(dicts.Get(e), id);
    var after := dicts.Set(e, Remove(dicts.Get(e), id));
    forall e', k ensures k in Ids(after.Get(e')) <==> k in Ids(dicts.Get(e')) && (e' != e || k != id) {
    }
    forall e' | e' != e ensures id !in Ids(dicts.Get(e')) {
    }
    forall e' ensures WellFormed(after.Get(e')) {
    }
    forall e1, e2, k | e1 != e2 && k in Ids(after.Get(e1)) ensures k !in Ids(after.Get(e2)) {
      assert k in Ids(dicts.Get(e1));
    }
    forall e', k | k in Ids(after.Get(e')) ensures k < nextId {
      assert k in Ids(dicts.Get(e'));
    }
    assert Consistent(after, nextId);
    assert AllIds(after) == AllIds(dicts) - {id} by {
      forall k ensures k in AllIds(after) <==> k in AllIds(dicts) && k != id {
      }
    }
  }
}
