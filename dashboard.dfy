/** The dashboard's mutable state (dashboard.py): the `Station` objects and the fuel price
    records they own, the queue the MQTT callback fills, the bounded drain loop that upserts
    stations and prices in place, and the marker loop that reads them back. Each method is
    proved to follow the value model in `StationIndex`. */
module Dashboard {
  import opened Wrappers
  import opened StationIndex

  /** A `Fuelprice` object: the fuel it is for, its price and the date of that price. */
  datatype FuelPrice = FuelPrice(fuelCode: string, price: Option<real>, priceUpdatedDate: Option<string>)

  /** `Station`: the constructor arguments, never reassigned, and the `fuelprice` dictionary,
      which the drain loop extends and whose entries it overwrites. */
  class Station {
    const name: string
    const address: string
    const brand: Option<string>
    const latitude: Option<real>
    const longitude: Option<real>
    var fuelPrices: map<string, FuelPrice>
    /** The key the station is filed under. */
    ghost const key: string

    /** Each entry is filed under its own fuel code. */
    ghost predicate Valid()
      reads this
    {
      forall c :: c in fuelPrices ==> fuelPrices[c].fuelCode == c
    }

    /** The price and date of each entry. */
    ghost function Prices(): map<string, PriceRec>
      reads this
    {
      map c | c in fuelPrices :: PriceRec(fuelPrices[c].price, fuelPrices[c].priceUpdatedDate)
    }

    /** The station as a value of the index model. */
    ghost function View(): StationRec
      reads this
    {
      StationRec(name, address, brand, latitude, longitude, Prices())
    }

    constructor (name: string, address: string, brand: Option<string>, latitude: Option<real>, longitude: Option<real>, ghost key: string)
      ensures Valid() && this.key == key
      ensures View() == StationRec(name, address, brand, latitude, longitude, map[])
    {
      this.name := name;
      this.address := address;
      this.brand := brand;
      this.latitude := latitude;
      this.longitude := longitude;
      this.key := key;
      fuelPrices := map[];
    }

    /** The upsert of one fuel: a fuel without an entry gets a new `Fuelprice`; an existing
        entry keeps its fuel code and has its price and date overwritten, whatever date it held. */
    method PutFuelPrice(code: string, price: Option<real>, date: Option<string>)
      requires Valid()
      modifies this
      ensures Valid()
      ensures View() == old(View()).(prices := old(Prices())[code := PriceRec(price, date)])
    {
      if code !in fuelPrices {
        fuelPrices := fuelPrices[code := FuelPrice(code, price, date)];
      } else {
        var fp := fuelPrices[code];
        fuelPrices := fuelPrices[code := fp.(price := price, priceUpdatedDate := date)];
      }
    }
  }

  /** `queue.Queue`: the FIFO the MQTT thread puts decoded payloads on. */
  class MessageQueue {
    var items: seq<Payload>

    constructor ()
      ensures items == []
    {
      items := [];
    }

    /** `put`: append at the back. */
    method Put(p: Payload)
      modifies this
      ensures items == old(items) + [p]
    {
      items := items + [p];
    }

    /** `get` on a queue that is not empty: take from the front. */
    method Get() returns (p: Payload)
      requires items != []
      modifies this
      ensures p == old(items)[0] && items == old(items)[1..]
    {
      p := items[0];
      items := items[1..];
    }
  }

  /** `on_message`: nothing happens without a queue in `userdata`; otherwise a payload that
      decoded as JSON is put on the queue, and one that did not is dropped. */
  method OnMessage(userdata: MessageQueue?, decoded: Option<Payload>)
    modifies userdata
    ensures userdata != null ==>
      userdata.items == old(userdata.items) + (if decoded.Some? then [decoded.value] else [])
  {
    if userdata == null {
      return;
    }
    if decoded.Some? {
      userdata.Put(decoded.value);
    }
  }

  /** One Streamlit session: `st.session_state.message_queue` and `st.session_state["stations"]`,
      the latter's keys kept in insertion order. */
  class Session {
    const messageQueue: MessageQueue
    var stations: map<string, Station>
    var order: seq<string>
    /** The stations dictionary as a value. */
    ghost var index: Index
    ghost var Repr: set<object>

    /** `index` is well formed and the dictionary holds, under each of its keys and in its
        insertion order, a valid station of the session filed under that key, with the recorded
        value. */
    ghost predicate Valid()
      reads this, Repr
    {
      && this in Repr && messageQueue !in Repr
      && WellFormed(index) && order == index.order
      && (forall k :: k in stations <==> k in index.stations)
      && (forall k :: k in stations ==>
        && stations[k] in Repr && stations[k].key == k
        && stations[k].Valid() && stations[k].View() == index.stations[k])
    }

    /** The `session_state` initialisation: a new empty queue and no stations. */
    constructor ()
      ensures Valid() && fresh(Repr) && fresh(messageQueue)
      ensures messageQueue.items == [] && index == Empty
    {
      messageQueue := new MessageQueue();
      stations := map[];
      order := [];
      index := Empty;
      Repr := {this};
    }

    /** The body of the drain loop for one dequeued payload: skip it unless it names a station
        with coordinates; otherwise create the station if its key is new, and then, given a
        fuel code and a price, insert or overwrite that fuel's entry. */
    method Receive(data: Payload)
      requires Valid()
      modifies Repr
      ensures Valid() && fresh(Repr - old(Repr))
      ensures index == Apply(old(index), data)
    {
      if !(Truthy(data.name) && Truthy(data.address) && data.latitude.Some? && data.longitude.Some?) {
        return;
      }
      var key := data.name.value + data.address.value;
      if key !in stations {
        CreateStation(data);
      }
      if key in stations && Truthy(data.fuelCode) && data.price.Some? {
        UpsertFuelPrice(key, data.fuelCode.value, data.price, data.priceUpdatedDate);
      }
    }

    /** A station key not seen before: a `Station` is built from the payload and filed. */
    method CreateStation(data: Payload)
      requires Valid() && IsValidStation(data) && StationKey(data) !in stations
      modifies this
      ensures Valid() && fresh(Repr - old(Repr))
      ensures index == WithStation(old(index), data)
      ensures StationKey(data) in stations && fresh(stations[StationKey(data)])
    {
      var key := data.name.value + data.address.value;
      var st := new Station(data.name.value, data.address.value, data.brand, data.latitude, data.longitude, key);
      WithStationWellFormed(index, data);
      stations := stations[key := st];
      order := order + [key];
      index := WithStation(index, data);
      Repr := Repr + {st};
    }

    /** The fuel entry of the station filed under `key` is inserted or overwritten. */
    method UpsertFuelPrice(key: string, code: string, price: Option<real>, date: Option<string>)
      requires Valid() && key in stations && price.Some?
      modifies Repr
      ensures Valid() && Repr == old(Repr)
      ensures index == WithPrice(old(index), key, code, PriceRec(price, date))
    {
      var st := stations[key];
      WithPriceWellFormed(index, key, code, PriceRec(price, date));
      st.PutFuelPrice(code, price, date);
      index := WithPrice(index, key, code, PriceRec(price, date));
      forall k | k in stations
        ensures stations[k].Valid() && stations[k].View() == index.stations[k]
      {
        // Stations are told apart by the key they are filed under, so no other station changed.
        if k != key { assert stations[k].key != st.key; }
      }
    }

    /** The drain loop: take payloads from the front of the queue until it is empty or
        `MAX_MESSAGES_PER_RUN` of them were taken, counting skipped ones too, and apply each in
        turn. The payloads not taken stay queued for the next run. */
    method DrainQueue() returns (processed: nat)
      requires Valid()
      modifies Repr, messageQueue
      ensures Valid() && fresh(Repr - old(Repr))
      ensures processed == if |old(messageQueue.items)| < MaxMessagesPerRun then |old(messageQueue.items)| else MaxMessagesPerRun
      ensures messageQueue.items == old(messageQueue.items)[processed..]
      ensures index == ApplyAll(old(index), old(messageQueue.items)[..processed])
    {
      processed := 0;
      while messageQueue.items != [] && processed < MaxMessagesPerRun
        invariant Valid() && fresh(Repr - old(Repr))
        invariant processed <= MaxMessagesPerRun && processed <= |old(messageQueue.items)|
        invariant messageQueue.items == old(messageQueue.items)[processed..]
        invariant index == ApplyAll(old(index), old(messageQueue.items)[..processed])
        decreases |messageQueue.items|
      {
        processed := processed + 1;
        var data := messageQueue.Get();
        ApplyAllSnoc(old(index), old(messageQueue.items)[..processed - 1], data);
        assert old(messageQueue.items)[..processed] == old(messageQueue.items)[..processed - 1] + [data];
        Receive(data);
      }
    }

    /** The marker loop for the selected fuel: go through the stations in insertion order and
        skip those without a price for that fuel or without coordinates. */
    method SnapshotFor(fuel: string) returns (markers: seq<Marker>)
      requires Valid()
      ensures markers == Snapshot(index, fuel)
    {
      markers := [];
      for i := 0 to |order|
        invariant markers == SnapshotOf(index, order[..i], fuel)
      {
        var key := order[i];
        assert key in index.stations;
        var st := stations[key];
        SnapshotOfStep(index, order, i, fuel);
        if fuel !in st.fuelPrices || st.fuelPrices[fuel].price.None? {
          continue;
        }
        if st.latitude.None? || st.longitude.None? {
          continue;
        }
        markers := markers + [Marker(key, st.name, st.address, st.latitude.value, st.longitude.value, st.fuelPrices[fuel].price.value)];
      }
      assert order[..|order|] == order;
    }
  }
}
