/** The dashboard's station index as a value: what `st.session_state["stations"]` holds after a
    run of the drain loop, the update one message makes to it (dashboard.py, lines 147-179), and
    the selection the marker loop makes from it (lines 194-202). The classes in `Dashboard` are
    proved to follow these functions. */
module StationIndex {
  import opened Wrappers
  import Seqs

  /** A decoded MQTT message: a JSON object, `None` standing for a key that is absent or null. */
  datatype Payload = Payload(
    name: Option<string>,
    address: Option<string>,
    brand: Option<string>,
    latitude: Option<real>,
    longitude: Option<real>,
    fuelCode: Option<string>,
    price: Option<real>,
    priceUpdatedDate: Option<string>)

  /** `MAX_MESSAGES_PER_RUN`. */
  const MaxMessagesPerRun: nat := 200

  /** Python truthiness of an optional string: present and not empty. */
  predicate Truthy(s: Option<string>)
  {
    s.Some? && s.value != ""
  }

  /** The guard of the drain loop: a name, an address and both coordinates. */
  predicate IsValidStation(p: Payload)
  {
    Truthy(p.name) && Truthy(p.address) && p.latitude.Some? && p.longitude.Some?
  }

  /** `station_key = station_name + address`. */
  function StationKey(p: Payload): string
    requires IsValidStation(p)
  {
    p.name.value + p.address.value
  }

  /** The guard of the upsert: a truthy fuel code and a price that is not `None`. */
  predicate HasFuelUpdate(p: Payload)
  {
    Truthy(p.fuelCode) && p.price.Some?
  }

  /** A `Fuelprice` object's two mutable fields. */
  datatype PriceRec = PriceRec(price: Option<real>, updated: Option<string>)

  /** A `Station` object: its constructor arguments and its `fuelprice` dictionary. */
  datatype StationRec = StationRec(
    name: string,
    address: string,
    brand: Option<string>,
    latitude: Option<real>,
    longitude: Option<real>,
    prices: map<string, PriceRec>)

  /** The `stations` dictionary: its keys in insertion order, and its values. */
  datatype Index = Index(order: seq<string>, stations: map<string, StationRec>)

  /** The index a session starts with. */
  const Empty: Index := Index([], map[])

  /** What every reachable index satisfies: the insertion order lists each key once, and every
      stored price is present. */
  ghost predicate WellFormed(ix: Index)
  {
    && (forall i, j :: 0 <= i < j < |ix.order| ==> ix.order[i] != ix.order[j])
    && (forall k :: k in ix.stations <==> k in ix.order)
    && (forall k, c :: k in ix.stations && c in ix.stations[k].prices ==> ix.stations[k].prices[c].price.Some?)
  }

  /** Every key is its station's name followed by its address. */
  ghost predicate KeyedByName(ix: Index)
  {
    forall k :: k in ix.stations ==> ix.stations[k].name + ix.stations[k].address == k
  }

  /** The `Station` built for a payload's station key when that key is new. */
  function NewStation(p: Payload): StationRec
    requires IsValidStation(p)
  {
    StationRec(p.name.value, p.address.value, p.brand, p.latitude, p.longitude, map[])
  }

  /** The index with a new station filed under the payload's key, at the end of the order. */
  function WithStation(ix: Index, p: Payload): Index
    requires IsValidStation(p)
  {
    Index(ix.order + [StationKey(p)], ix.stations[StationKey(p) := NewStation(p)])
  }

  /** The index with fuel `code` of station `key` set to `rec`, whether or not it was there. */
  function WithPrice(ix: Index, key: string, code: string, rec: PriceRec): Index
    requires key in ix.stations
  {
    var st := ix.stations[key];
    ix.(stations := ix.stations[key := st.(prices := st.prices[code := rec])])
  }

  /** One iteration of the drain loop: skip an invalid payload; otherwise create the station if
      its key is new, and then, when the payload carries a fuel update, insert or overwrite that
      fuel's price and date. */
  function Apply(ix: Index, p: Payload): (r: Index)
    ensures ix.order <= r.order && |r.order| <= |ix.order| + 1
    ensures r.stations.Keys == ix.stations.Keys + (if IsValidStation(p) then {StationKey(p)} else {})
  {
    if !IsValidStation(p) then ix
    else
      var key := StationKey(p);
      var created := if key in ix.stations then ix else WithStation(ix, p);
      if HasFuelUpdate(p) then WithPrice(created, key, p.fuelCode.value, PriceRec(p.price, p.priceUpdatedDate))
      else created
  }

  /** The payloads applied one after another, in arrival order. */
  function ApplyAll(ix: Index, ps: seq<Payload>): (r: Index)
    ensures ix.order <= r.order && |r.order| <= |ix.order| + |ps|
    ensures ix.stations.Keys <= r.stations.Keys
    decreases |ps|
  {
    if ps == [] then ix else Apply(ApplyAll(ix, ps[..|ps| - 1]), ps[|ps| - 1])
  }

  // ---------------------------------------------------------------- one payload

  /** A payload without name, address or coordinates changes nothing. */
  lemma ApplyInvalid(ix: Index, p: Payload)
    requires !IsValidStation(p)
    ensures Apply(ix, p) == ix
  {
  }

  /** Filing a new station keeps the index well formed. */
  lemma WithStationWellFormed(ix: Index, p: Payload)
    requires WellFormed(ix) && IsValidStation(p) && StationKey(p) !in ix.stations
    ensures WellFormed(WithStation(ix, p))
  {
    var key := StationKey(p);
    var order := ix.order + [key];
    assert forall i :: 0 <= i < |ix.order| ==> order[i] == ix.order[i];
    assert forall k :: k in order <==> k in ix.order || k == key;
  }

  /** Storing a present price keeps the index well formed. */
  lemma WithPriceWellFormed(ix: Index, key: string, code: string, rec: PriceRec)
    requires WellFormed(ix) && key in ix.stations && rec.price.Some?
    ensures WellFormed(WithPrice(ix, key, code, rec))
  {
  }

  /** Applying a payload keeps the index well formed. */
  lemma ApplyWellFormed(ix: Index, p: Payload)
    requires WellFormed(ix)
    ensures WellFormed(Apply(ix, p))
  {
    if IsValidStation(p) {
      var key := StationKey(p);
      var created := if key in ix.stations then ix else WithStation(ix, p);
      if key !in ix.stations { WithStationWellFormed(ix, p); }
      if HasFuelUpdate(p) {
        WithPriceWellFormed(created, key, p.fuelCode.value, PriceRec(p.price, p.priceUpdatedDate));
      }
    }
  }

  /** A valid payload makes its key a station of the index. A station that existed keeps its
      name, address, brand and coordinates; a new one takes them from the payload, and is added
      at the end of the insertion order. */
  lemma ApplyStation(ix: Index, p: Payload)
    requires IsValidStation(p)
    ensures StationKey(p) in Apply(ix, p).stations
    ensures var st := Apply(ix, p).stations[StationKey(p)];
      if StationKey(p) in ix.stations then
        var old_st := ix.stations[StationKey(p)];
        && st.name == old_st.name && st.address == old_st.address && st.brand == old_st.brand
        && st.latitude == old_st.latitude && st.longitude == old_st.longitude
        && Apply(ix, p).order == ix.order
      else
        && st.name == p.name.value && st.address == p.address.value && st.brand == p.brand
        && st.latitude == p.latitude && st.longitude == p.longitude
        && Apply(ix, p).order == ix.order + [StationKey(p)]
  {
  }

  /** The fuel entries of the payload's station afterwards: with a fuel update, that fuel now holds
      the payload's price and date whatever it held before (no date is compared), and every other
      fuel is as it was; without one, nothing is added. */
  lemma ApplyPrices(ix: Index, p: Payload)
    requires IsValidStation(p)
    ensures var before := if StationKey(p) in ix.stations then ix.stations[StationKey(p)].prices else map[];
      var after := Apply(ix, p).stations[StationKey(p)].prices;
      if HasFuelUpdate(p) then after == before[p.fuelCode.value := PriceRec(p.price, p.priceUpdatedDate)]
      else after == before
  {
  }

  /** Nothing else changes: every other station is as it was, and no station or fuel entry is
      ever removed. */
  lemma ApplyFrame(ix: Index, p: Payload)
    ensures forall k :: k in ix.stations ==> k in Apply(ix, p).stations
    ensures forall k :: k in ix.stations ==> ix.stations[k].prices.Keys <= Apply(ix, p).stations[k].prices.Keys
    ensures forall k :: k in Apply(ix, p).stations && (!IsValidStation(p) || k != StationKey(p)) ==>
      k in ix.stations && Apply(ix, p).stations[k] == ix.stations[k]
  {
  }

  /** Applying the same payload a second time changes nothing more. */
  lemma ApplyIdempotent(ix: Index, p: Payload)
    ensures Apply(Apply(ix, p), p) == Apply(ix, p)
  {
    if IsValidStation(p) {
      var key := StationKey(p);
      var once := Apply(ix, p);
      assert key in once.stations;
      if HasFuelUpdate(p) {
        var st := once.stations[key];
        assert st.prices[p.fuelCode.value := PriceRec(p.price, p.priceUpdatedDate)] == st.prices;
        assert once.stations[key := st] == once.stations;
      }
    }
  }

  // ---------------------------------------------------------------- many payloads

  lemma {:induction false} ApplyAllWellFormed(ix: Index, ps: seq<Payload>)
    requires WellFormed(ix)
    ensures WellFormed(ApplyAll(ix, ps))
    decreases |ps|
  {
    if ps != [] {
      ApplyAllWellFormed(ix, ps[..|ps| - 1]);
      ApplyWellFormed(ApplyAll(ix, ps[..|ps| - 1]), ps[|ps| - 1]);
    }
  }

  /** Applying a payload keeps every key equal to its station's name followed by its address. */
  lemma ApplyKeyedByName(ix: Index, p: Payload)
    requires KeyedByName(ix)
    ensures KeyedByName(Apply(ix, p))
  {
    ApplyFrame(ix, p);
    if IsValidStation(p) { ApplyStation(ix, p); }
  }

  /** Every index a session reaches is keyed by name and address, so the station filed under a
      key is the one whose name and address make that key. */
  lemma {:induction false} ApplyAllKeyedByName(ix: Index, ps: seq<Payload>)
    requires KeyedByName(ix)
    ensures KeyedByName(ApplyAll(ix, ps))
    decreases |ps|
  {
    if ps != [] {
      ApplyAllKeyedByName(ix, ps[..|ps| - 1]);
      ApplyKeyedByName(ApplyAll(ix, ps[..|ps| - 1]), ps[|ps| - 1]);
    }
  }

  lemma ApplyAllSnoc(ix: Index, ps: seq<Payload>, p: Payload)
    ensures ApplyAll(ix, ps + [p]) == Apply(ApplyAll(ix, ps), p)
  {
    assert (ps + [p])[..|ps|] == ps;
  }

  /** A run of payloads never removes a station or a fuel entry. */
  lemma {:induction false} ApplyAllMonotone(ix: Index, ps: seq<Payload>)
    ensures forall k :: k in ix.stations ==> k in ApplyAll(ix, ps).stations
    ensures forall k :: k in ix.stations ==> ix.stations[k].prices.Keys <= ApplyAll(ix, ps).stations[k].prices.Keys
    decreases |ps|
  {
    if ps != [] {
      var mid := ApplyAll(ix, ps[..|ps| - 1]);
      ApplyAllMonotone(ix, ps[..|ps| - 1]);
      ApplyFrame(mid, ps[|ps| - 1]);
    }
  }

  /** A payload that updates station `k`, fuel `c`. */
  predicate Updates(p: Payload, k: string, c: string)
  {
    IsValidStation(p) && StationKey(p) == k && HasFuelUpdate(p) && p.fuelCode.value == c
  }

  /** A payload that does not update station `k`, fuel `c` leaves that entry as it was. */
  lemma ApplyKeepsEntry(ix: Index, p: Payload, k: string, c: string)
    requires !Updates(p, k, c) && k in ix.stations && c in ix.stations[k].prices
    ensures k in Apply(ix, p).stations && c in Apply(ix, p).stations[k].prices
    ensures Apply(ix, p).stations[k].prices[c] == ix.stations[k].prices[c]
  {
    ApplyFrame(ix, p);
    if IsValidStation(p) && StationKey(p) == k { ApplyPrices(ix, p); }
  }

  /** Last write wins by arrival order: after a run, the entry for a station and a fuel holds the
      price and date of the last payload of the run that updated it. */
  lemma {:induction false} ApplyAllLastWrite(ix: Index, ps: seq<Payload>, i: int, k: string, c: string)
    requires 0 <= i < |ps| && Updates(ps[i], k, c)
    requires forall j :: i < j < |ps| ==> !Updates(ps[j], k, c)
    ensures k in ApplyAll(ix, ps).stations && c in ApplyAll(ix, ps).stations[k].prices
    ensures ApplyAll(ix, ps).stations[k].prices[c] == PriceRec(ps[i].price, ps[i].priceUpdatedDate)
    decreases |ps|
  {
    var n := |ps| - 1;
    var mid := ApplyAll(ix, ps[..n]);
    if i == n {
      ApplyPrices(mid, ps[n]);
    } else {
      ApplyAllLastWrite(ix, ps[..n], i, k, c);
      ApplyKeepsEntry(mid, ps[n], k, c);
    }
  }

  /** An entry that no payload of a run updates keeps its price and date. */
  lemma {:induction false} ApplyAllUntouched(ix: Index, ps: seq<Payload>, k: string, c: string)
    requires forall j :: 0 <= j < |ps| ==> !Updates(ps[j], k, c)
    requires k in ix.stations && c in ix.stations[k].prices
    ensures k in ApplyAll(ix, ps).stations && c in ApplyAll(ix, ps).stations[k].prices
    ensures ApplyAll(ix, ps).stations[k].prices[c] == ix.stations[k].prices[c]
    decreases |ps|
  {
    if ps != [] {
      var n := |ps| - 1;
      ApplyAllUntouched(ix, ps[..n], k, c);
      ApplyKeepsEntry(ApplyAll(ix, ps[..n]), ps[n], k, c);
    }
  }

  // ---------------------------------------------------------------- the marker loop

  /** What a marker shows: where it is and the selected fuel's price on its icon. */
  datatype Marker = Marker(key: string, name: string, address: string, latitude: real, longitude: real, price: real)

  /** The two `continue` filters of the marker loop, passed. */
  predicate Shows(ix: Index, k: string, fuel: string)
  {
    && k in ix.stations
    && fuel in ix.stations[k].prices && ix.stations[k].prices[fuel].price.Some?
    && ix.stations[k].latitude.Some? && ix.stations[k].longitude.Some?
  }

  function MarkerOf(ix: Index, k: string, fuel: string): Marker
    requires Shows(ix, k, fuel)
  {
    var st := ix.stations[k];
    Marker(k, st.name, st.address, st.latitude.value, st.longitude.value, st.prices[fuel].price.value)
  }

  /** The markers for the stations listed in `keys`, in that order. */
  function SnapshotOf(ix: Index, keys: seq<string>, fuel: string): (r: seq<Marker>)
    ensures |r| <= |keys|
    decreases |keys|
  {
    if keys == [] then []
    else
      var init := SnapshotOf(ix, keys[..|keys| - 1], fuel);
      var k := keys[|keys| - 1];
      if Shows(ix, k, fuel) then init + [MarkerOf(ix, k, fuel)] else init
  }

  /** The markers the loop over `stations.items()` adds for the selected fuel. */
  function Snapshot(ix: Index, fuel: string): (r: seq<Marker>)
    ensures |r| <= |ix.order|
    ensures forall i :: 0 <= i < |r| ==> Shows(ix, r[i].key, fuel) && r[i] == MarkerOf(ix, r[i].key, fuel)
  {
    SnapshotOfShows(ix, ix.order, fuel);
    SnapshotOf(ix, ix.order, fuel)
  }

  lemma SnapshotOfSnoc(ix: Index, keys: seq<string>, k: string, fuel: string)
    ensures SnapshotOf(ix, keys + [k], fuel) ==
      SnapshotOf(ix, keys, fuel) + (if Shows(ix, k, fuel) then [MarkerOf(ix, k, fuel)] else [])
  {
    assert (keys + [k])[..|keys|] == keys;
  }

  /** One step of the marker loop over `keys`: the station at position `i` adds its marker when it
      passes both filters. */
  lemma SnapshotOfStep(ix: Index, keys: seq<string>, i: int, fuel: string)
    requires 0 <= i < |keys|
    ensures SnapshotOf(ix, keys[..i + 1], fuel) ==
      SnapshotOf(ix, keys[..i], fuel) + (if Shows(ix, keys[i], fuel) then [MarkerOf(ix, keys[i], fuel)] else [])
  {
    assert keys[..i + 1] == keys[..i] + [keys[i]];
    SnapshotOfSnoc(ix, keys[..i], keys[i], fuel);
  }

  /** The markers are, in order, those of exactly the listed stations that have the selected fuel
      with a price and both coordinates. */
  lemma {:induction false} SnapshotOfSelects(ix: Index, keys: seq<string>, fuel: string) returns (idx: seq<nat>)
    ensures Seqs.IsSelection(idx, |keys|) && |idx| == |SnapshotOf(ix, keys, fuel)|
    ensures forall j :: 0 <= j < |keys| ==> (j in idx <==> Shows(ix, keys[j], fuel))
    ensures forall i :: 0 <= i < |idx| ==>
      Shows(ix, keys[idx[i]], fuel) && SnapshotOf(ix, keys, fuel)[i] == MarkerOf(ix, keys[idx[i]], fuel)
    decreases |keys|
  {
    if keys == [] {
      idx := [];
    } else {
      var n := |keys| - 1;
      var init, k := keys[..n], keys[n];
      var prev := SnapshotOfSelects(ix, init, fuel);
      SnapshotOfStep(ix, keys, n, fuel);
      assert keys[..n + 1] == keys;
      var take := Shows(ix, k, fuel);
      if take { idx := prev + [n]; } else { idx := prev; }
      Seqs.SelectsSnoc(prev, n, take, idx);
      var out, before := SnapshotOf(ix, keys, fuel), SnapshotOf(ix, init, fuel);
      Seqs.PrefixOf(out, before, if take then [MarkerOf(ix, k, fuel)] else []);
      assert forall j :: 0 <= j < n ==> keys[j] == init[j];
      forall i | 0 <= i < |idx|
        ensures Shows(ix, keys[idx[i]], fuel) && out[i] == MarkerOf(ix, keys[idx[i]], fuel)
      {
        if i < |prev| {
          assert out[i] == before[i] && keys[idx[i]] == init[prev[i]];
        }
      }
    }
  }

  /** Every marker is that of a station passing both filters. */
  lemma SnapshotOfShows(ix: Index, keys: seq<string>, fuel: string)
    ensures forall i :: 0 <= i < |SnapshotOf(ix, keys, fuel)| ==>
      Shows(ix, SnapshotOf(ix, keys, fuel)[i].key, fuel) && SnapshotOf(ix, keys, fuel)[i] == MarkerOf(ix, SnapshotOf(ix, keys, fuel)[i].key, fuel)
  {
    var idx := SnapshotOfSelects(ix, keys, fuel);
  }

  /** For a well-formed index, a station has a marker exactly when it has the selected fuel with a
      price and both coordinates; markers follow insertion order and no station has two. */
  lemma SnapshotExact(ix: Index, fuel: string)
    requires WellFormed(ix)
    ensures forall k :: (exists i :: 0 <= i < |Snapshot(ix, fuel)| && Snapshot(ix, fuel)[i].key == k) <==> Shows(ix, k, fuel)
    ensures forall i :: 0 <= i < |Snapshot(ix, fuel)| ==>
      Shows(ix, Snapshot(ix, fuel)[i].key, fuel) && Snapshot(ix, fuel)[i] == MarkerOf(ix, Snapshot(ix, fuel)[i].key, fuel)
    ensures forall i, j :: 0 <= i < j < |Snapshot(ix, fuel)| ==> Snapshot(ix, fuel)[i].key != Snapshot(ix, fuel)[j].key
  {
    var snap := Snapshot(ix, fuel);
    var idx := SnapshotOfSelects(ix, ix.order, fuel);
    forall k ensures (exists i :: 0 <= i < |snap| && snap[i].key == k) <==> Shows(ix, k, fuel) {
      if Shows(ix, k, fuel) {
        var j :| 0 <= j < |ix.order| && ix.order[j] == k;
        assert j in idx;
        var i :| 0 <= i < |idx| && idx[i] == j;
        assert snap[i].key == k;
      }
    }
  }

  /** In a reachable index every stored price is present, so the marker loop's `price is None`
      test never skips a station whose fuel entry exists. */
  lemma ReachedPricesPresent(ps: seq<Payload>, k: string, fuel: string)
    ensures var ix := ApplyAll(Empty, ps);
      k in ix.stations && fuel in ix.stations[k].prices ==> ix.stations[k].prices[fuel].price.Some?
  {
    ApplyAllWellFormed(Empty, ps);
  }

  // ---------------------------------------------------------------- a worked example

  /** The payload published for station "Acme" at "1 Rd, Town 2000" with E10 at 1.55. */
  function AcmePayload(): Payload
  {
    Payload(Some("Acme"), Some("1 Rd, Town 2000"), Some("Acme"), Some(-33.8), Some(151.2),
            Some("E10"), Some(1.55), Some("2024-01-01"))
  }

  /** Applied to the empty index it files one station under "Acme1 Rd, Town 2000", holding one
      E10 entry with that price and date. */
  lemma AcmeApplied()
    ensures Apply(Empty, AcmePayload()) ==
      Index(["Acme1 Rd, Town 2000"],
            map["Acme1 Rd, Town 2000" :=
              StationRec("Acme", "1 Rd, Town 2000", Some("Acme"), Some(-33.8), Some(151.2),
                         map["E10" := PriceRec(Some(1.55), Some("2024-01-01"))])])
  {
    assert StationKey(AcmePayload()) == "Acme1 Rd, Town 2000";
  }
}
