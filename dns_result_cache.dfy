/** `DnsResultCache` of lib/DnsResultCache.ts: the later version of the cache.
    Measurements arrive already split (date, numeric sensor id, raw MAC token,
    signal strength as a number), the capacity per sensor is a constructor
    argument, and each stored measurement also keeps the date of its DNS
    message. The clock is a parameter (epoch seconds), dates are epoch
    milliseconds, and each lookup `Update` would hand to the geolocation
    interface is returned instead. */
module ResultCache {
  import opened JsText
  import opened Tokens
  import opened MeasurementCache

  /** The two checks of `Add`, signal strength first; an accepted measurement
      yields its canonical MAC. */
  function CheckMeasurement(rssi: JsNumber, macaddress: string): Result<string>
  {
    var db :- CheckDbm(rssi);
    var mac :- MacCheck(macaddress);
    Ok(mac)
  }

  /** A measurement is accepted exactly when its signal strength passes (NaN
      does) and its MAC token is twelve hexadecimal digits; a bad signal
      strength is reported whatever the MAC. */
  lemma CheckMeasurementRule(rssi: JsNumber, macaddress: string)
    ensures CheckMeasurement(rssi, macaddress).Ok? <==>
              (rssi.NaN? || MIN_DBM <= rssi.n <= MAX_DBM) && IsMacToken(macaddress)
    ensures CheckDbm(rssi).Err? ==> CheckMeasurement(rssi, macaddress) == Err(InvalidDbm)
    ensures CheckMeasurement(rssi, macaddress).Ok? ==>
              CheckMeasurement(rssi, macaddress).value == CanonicalMac(macaddress)
  {
  }

  /** The tables after `Add(date, sensor, macaddress, rssi)` with the clock
      reading `now` for the timestamp and `limitNow` for `Limit`'s scan. */
  function Recorded(t: Tables<int, int>, cap: int, date: int, sensor: int, macaddress: string,
                    rssi: JsNumber, now: int, limitNow: int): Tables<int, int>
  {
    match CheckMeasurement(rssi, macaddress)
    case Err(_) => t
    case Ok(mac) => Store(t, sensor, Entry(now, date, rssi, mac), limitNow, cap)
  }

  class DnsResultCache {
    const dictionaryMaxSize: int
    var queries: map<int, seq<Entry<int>>>
    var needsFlush: map<int, bool>

    ghost predicate Valid()
      reads this
    {
      Consistent(State())
    }

    function State(): Tables<int, int>
      reads this
    {
      Tables(queries, needsFlush)
    }

    constructor (dictionaryMaxSize: int)
      ensures this.dictionaryMaxSize == dictionaryMaxSize
      ensures Valid() && queries == map[] && needsFlush == map[]
    {
      this.dictionaryMaxSize := dictionaryMaxSize;
      queries := map[];
      needsFlush := map[];
    }

    /** Check and add one measurement; a failed check is swallowed. */
    method Add(date: int, sensor: int, macaddress: string, rssi: JsNumber, now: int, limitNow: int)
      requires Valid()
      modifies this
      ensures Valid()
      ensures State() == Recorded(old(State()), dictionaryMaxSize, date, sensor, macaddress, rssi, now, limitNow)
    {
      var db := CheckDbm(rssi);
      if db.Err? {
        return;
      }
      var mac := CheckMac(macaddress);
      if mac.Err? {
        return;
      }
      Insert(sensor, Entry(now, date, db.value, mac.value), limitNow);
    }

    /** The storing half of `Add`: create the sensor if it is new, write the
        entry under its MAC, raise the flag and limit the bucket. */
    method Insert(sensor: int, entry: Entry<int>, limitNow: int)
      requires Valid() && IsCanonicalMac(entry.mac)
      modifies this
      ensures Valid()
      ensures State() == Store(old(State()), sensor, entry, limitNow, dictionaryMaxSize)
    {
      ghost var before := State();
      if sensor !in queries {
        queries := queries[sensor := []];
        needsFlush := needsFlush[sensor := false];
      }
      ghost var put := Put(BucketOf(before, sensor), entry);
      assert queries[sensor] == BucketOf(before, sensor);
      PutConsistent(before, sensor, entry);
      queries := queries[sensor := Put(queries[sensor], entry)];
      needsFlush := needsFlush[sensor := true];
      UpdateTwice(before.queries, sensor, [], put);
      UpdateTwice(before.needsFlush, sensor, false, true);
      Limit(sensor, limitNow);
      UpdateTwice(before.queries, sensor, put, Evict(put, limitNow, dictionaryMaxSize));
    }

    /** Above `dictionaryMaxSize` entries, drop the first entry with the
        smallest timestamp strictly before `now`; `delete` of the key `""` that
        the scan leaves when there is none removes nothing. */
    method Limit(sensor: int, now: int)
      requires Valid() && sensor in queries
      modifies this
      ensures Valid()
      ensures queries == old(queries)[sensor := Evict(old(queries)[sensor], now, dictionaryMaxSize)]
      ensures needsFlush == old(needsFlush)
    {
      var bucket := queries[sensor];
      if |bucket| > dictionaryMaxSize {
        var oldest := FindOldest(bucket, now);
        ghost var kept := RemoveMac(bucket, oldest);
        assert kept == Evict(bucket, now, dictionaryMaxSize) by {
          PruneRemoves(bucket, now, dictionaryMaxSize);
        }
        assert Consistent(Tables(queries[sensor := kept], needsFlush)) by {
          EvictWellFormed(bucket, now, dictionaryMaxSize);
          ReplaceBucketConsistent(State(), sensor, kept);
        }
        queries := queries[sensor := RemoveMac(bucket, oldest)];
      } else {
        UpdateSame(queries, sensor);
      }
    }

    /** One geolocation lookup per flagged sensor, with all of its
        measurements aged by the single clock reading `now`; every flag is
        lowered and the measurements stay. */
    method Update(now: int) returns (lookups: seq<Lookup<int, int>>)
      requires Valid()
      modifies this
      ensures Valid()
      ensures State() == Cleared(old(State()))
      ensures FlushedAs(old(State()), now, lookups)
    {
      lookups := [];
      var pending := queries.Keys;
      while pending != {}
        invariant pending <= queries.Keys
        invariant queries == old(queries)
        invariant needsFlush == Lowered(old(needsFlush), pending)
        invariant FlushedExcept(old(State()), now, lookups, pending)
        decreases pending
      {
        var sensorId := Pick(pending);
        LoweredStep(old(needsFlush), pending, sensorId);
        if needsFlush[sensorId] {
          needsFlush := needsFlush[sensorId := false];
          var wifiAccessPoints := BuildAccessPoints(queries[sensorId], now);
          assert FlushedExcept(old(State()), now, lookups + [Lookup(sensorId, wifiAccessPoints)], pending - {sensorId}) by {
            FlushSend(old(State()), now, lookups, pending, sensorId, wifiAccessPoints);
          }
          lookups := lookups + [Lookup(sensorId, wifiAccessPoints)];
        } else {
          assert FlushedExcept(old(State()), now, lookups, pending - {sensorId}) by {
            FlushSkip(old(State()), now, lookups, pending, sensorId);
          }
        }
        pending := pending - {sensorId};
      }
      FlushedExceptNone(old(State()), now, lookups);
      LoweredAll(old(State()));
    }
  }

  /** `Add` keeps the tables consistent. */
  lemma RecordedConsistent(t: Tables<int, int>, cap: int, date: int, sensor: int, macaddress: string,
                           rssi: JsNumber, now: int, limitNow: int)
    requires Consistent(t)
    ensures Consistent(Recorded(t, cap, date, sensor, macaddress, rssi, now, limitNow))
  {
    if CheckMeasurement(rssi, macaddress).Ok? {
      var mac := CheckMeasurement(rssi, macaddress).value;
      StoreConsistent(t, sensor, Entry(now, date, rssi, mac), limitNow, cap);
    }
  }

  /** A refused measurement changes nothing; an accepted one adds its sensor,
      raises its flag and keeps every other sensor as it was, whatever the two
      clock readings. */
  lemma RecordedRule(t: Tables<int, int>, cap: int, date: int, sensor: int, macaddress: string,
                     rssi: JsNumber, now: int, limitNow: int)
    ensures var r := Recorded(t, cap, date, sensor, macaddress, rssi, now, limitNow);
      (CheckMeasurement(rssi, macaddress).Err? ==> r == t) &&
      (CheckMeasurement(rssi, macaddress).Ok? ==>
         r.needsFlush == t.needsFlush[sensor := true] &&
         r.queries.Keys == t.queries.Keys + {sensor} &&
         (forall s :: s in t.queries && s != sensor ==> r.queries[s] == t.queries[s]))
  {
  }

  /** An accepted measurement is itself kept when `Limit` reads the clock no
      later than the timestamp did. */
  lemma RecordedKeepsMeasurement(t: Tables<int, int>, cap: int, date: int, sensor: int, macaddress: string,
                                 rssi: JsNumber, now: int, limitNow: int)
    requires Consistent(t) && CheckMeasurement(rssi, macaddress).Ok? && limitNow <= now
    ensures var r := Recorded(t, cap, date, sensor, macaddress, rssi, now, limitNow);
      sensor in r.queries && Entry(now, date, rssi, CanonicalMac(macaddress)) in r.queries[sensor] &&
      r.needsFlush[sensor]
  {
    var mac := CheckMeasurement(rssi, macaddress).value;
    StoreKeepsNewEntry(t, sensor, Entry(now, date, rssi, mac), limitNow, cap);
  }

  /** The same measurement seen twice within one clock reading is stored once,
      as long as its sensor held at most `cap` measurements before. */
  lemma RecordedTwice(t: Tables<int, int>, cap: int, date: int, sensor: int, macaddress: string,
                      rssi: JsNumber, now: int)
    requires Consistent(t) && |BucketOf(t, sensor)| <= cap
    ensures var once := Recorded(t, cap, date, sensor, macaddress, rssi, now, now);
            Recorded(once, cap, date, sensor, macaddress, rssi, now, now) == once
  {
    if CheckMeasurement(rssi, macaddress).Ok? {
      var mac := CheckMeasurement(rssi, macaddress).value;
      StoreTwice(t, sensor, Entry(now, date, rssi, mac), now, cap);
    }
  }
}
