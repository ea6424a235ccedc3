/** `TempStore` of leus-dns.ts: the cache fed with whole DNS names
    `s<dbm>.<mac>.<ticks>.<sensor>[.<anything>]`, with a fixed capacity of ten
    access points per sensor, flushed into one geolocation lookup per sensor
    whose flag is raised. The clock is a parameter (epoch seconds); each lookup
    the flush would send to the geolocation service is returned instead. */
module LeusDns {
  import opened JsText
  import opened Tokens
  import opened MeasurementCache

  const DICTIONARY_MAX_SIZE := 10

  /** The three tokens `add` keeps: signal strength, canonical MAC, sensor id. */
  datatype Observation = Observation(dbm: JsNumber, mac: string, sensor: string)

  /** `dnsName.split(".").slice(0, 4)`. */
  function FirstFourTokens(dnsName: string): (tokens: seq<string>)
  {
    var all := Split(dnsName, '.');
    if |all| > 4 then all[..4] else all
  }

  /** The checks of `add`, in the order it runs them: too few tokens, then the
      signal strength, the MAC, the tick counter and the sensor id. */
  function ParseName(dnsName: string): Result<Observation>
  {
    var tokens := FirstFourTokens(dnsName);
    if |tokens| != 4 then Err(TooFewTokens)
    else
      var dbm :- CheckDbmToken(tokens[0]);
      var mac :- MacCheck(tokens[1]);
      var ticks :- DecimalCheck(tokens[2]);
      var sensor :- DecimalCheck(tokens[3]);
      Ok(Observation(dbm, mac, sensor))
  }

  /** The tables after `add(dnsName)` with the clock reading `now` for the
      timestamp and `pruneNow` for the eviction scan: a name that fails a check
      changes nothing, a valid one is stored under its sensor. */
  function Added(t: Tables<string, ()>, dnsName: string, now: int, pruneNow: int): Tables<string, ()>
  {
    match ParseName(dnsName)
    case Err(_) => t
    case Ok(obs) => Store(t, obs.sensor, Entry(now, (), obs.dbm, obs.mac), pruneNow, DICTIONARY_MAX_SIZE)
  }

  class TempStore {
    var queries: map<string, seq<Entry<()>>>
    var needsFlush: map<string, bool>

    ghost predicate Valid()
      reads this
    {
      Consistent(State())
    }

    function State(): Tables<string, ()>
      reads this
    {
      Tables(queries, needsFlush)
    }

    constructor ()
      ensures Valid() && queries == map[] && needsFlush == map[]
    {
      queries := map[];
      needsFlush := map[];
    }

    /** Parse and add one DNS name; a failed check is swallowed. */
    method Add(dnsName: string, now: int, pruneNow: int)
      requires Valid()
      modifies this
      ensures Valid()
      ensures State() == Added(old(State()), dnsName, now, pruneNow)
    {
      var parsed := Validate(dnsName);
      if parsed.Err? {
        return;
      }
      Insert(parsed.value, now, pruneNow);
    }

    /** The storing half of `add`, once every check has passed: create the
        sensor if it is new, write the entry under its MAC, raise the flag and
        prune. */
    method Insert(obs: Observation, now: int, pruneNow: int)
      requires Valid() && IsCanonicalMac(obs.mac)
      modifies this
      ensures Valid()
      ensures State() == Store(old(State()), obs.sensor, Entry(now, (), obs.dbm, obs.mac), pruneNow, DICTIONARY_MAX_SIZE)
    {
      ghost var before := State();
      var sensor := obs.sensor;
      if sensor !in queries {
        queries := queries[sensor := []];
        needsFlush := needsFlush[sensor := false];
      }
      var entry := Entry(now, (), obs.dbm, obs.mac);
      ghost var put := Put(BucketOf(before, sensor), entry);
      assert queries[sensor] == BucketOf(before, sensor);
      PutConsistent(before, sensor, entry);
      queries := queries[sensor := Put(queries[sensor], entry)];
      needsFlush := needsFlush[sensor := true];
      UpdateTwice(before.queries, sensor, [], put);
      UpdateTwice(before.needsFlush, sensor, false, true);
      Prune(sensor, pruneNow);
      UpdateTwice(before.queries, sensor, put, Evict(put, pruneNow, DICTIONARY_MAX_SIZE));
    }

    /** Above ten entries, drop the first entry with the smallest timestamp
        strictly before `now`; `delete` of the key `""` that the scan leaves
        when there is none removes nothing. */
    method Prune(sensor: string, now: int)
      requires Valid() && sensor in queries
      modifies this
      ensures Valid()
      ensures queries == old(queries)[sensor := Evict(old(queries)[sensor], now, DICTIONARY_MAX_SIZE)]
      ensures needsFlush == old(needsFlush)
    {
      var bucket := queries[sensor];
      if |bucket| > DICTIONARY_MAX_SIZE {
        var oldest := FindOldest(bucket, now);
        ghost var kept := RemoveMac(bucket, oldest);
        assert kept == Evict(bucket, now, DICTIONARY_MAX_SIZE) by {
          PruneRemoves(bucket, now, DICTIONARY_MAX_SIZE);
        }
        assert Consistent(Tables(queries[sensor := kept], needsFlush)) by {
          EvictWellFormed(bucket, now, DICTIONARY_MAX_SIZE);
          ReplaceBucketConsistent(State(), sensor, kept);
        }
        queries := queries[sensor := RemoveMac(bucket, oldest)];
      } else {
        UpdateSame(queries, sensor);
      }
    }

    /** Send one lookup per flagged sensor with all of its measurements, and
        lower every flag; the measurements stay. */
    method Flush(now: int) returns (lookups: seq<Lookup<string, ()>>)
      requires Valid()
      modifies this
      ensures Valid()
      ensures State() == Cleared(old(State()))
      ensures FlushedAs(old(State()), now, lookups)
    {
      lookups := [];
      var pending := queries.Keys;
      while pending != {}
        invariant pending <= queries.Keys
        invariant queries == old(queries)
        invariant needsFlush == Lowered(old(needsFlush), pending)
        invariant FlushedExcept(old(State()), now, lookups, pending)
        decreases pending
      {
        var sensor := Pick(pending);
        LoweredStep(old(needsFlush), pending, sensor);
        if needsFlush[sensor] {
          needsFlush := needsFlush[sensor := false];
          var wifiAccessPoints := BuildAccessPoints(queries[sensor], now);
          assert FlushedExcept(old(State()), now, lookups + [Lookup(sensor, wifiAccessPoints)], pending - {sensor}) by {
            FlushSend(old(State()), now, lookups, pending, sensor, wifiAccessPoints);
          }
          lookups := lookups + [Lookup(sensor, wifiAccessPoints)];
        } else {
          assert FlushedExcept(old(State()), now, lookups, pending - {sensor}) by {
            FlushSkip(old(State()), now, lookups, pending, sensor);
          }
        }
        pending := pending - {sensor};
      }
      FlushedExceptNone(old(State()), now, lookups);
      LoweredAll(old(State()));
    }
  }

  /** The checks of `add`'s `try` block, in order. */
  method Validate(dnsName: string) returns (r: Result<Observation>)
    ensures r == ParseName(dnsName)
  {
    var tokens := FirstFourTokens(dnsName);
    if |tokens| != 4 {
      return Err(TooFewTokens);
    }
    var db := CheckDbmToken(tokens[0]);
    if db.Err? {
      return Err(db.error);
    }
    var mac := CheckMac(tokens[1]);
    if mac.Err? {
      return Err(mac.error);
    }
    var ticks := CheckBigInt(tokens[2]);
    if ticks.Err? {
      return Err(ticks.error);
    }
    var sensor := CheckBigInt(tokens[3]);
    if sensor.Err? {
      return Err(sensor.error);
    }
    return Ok(Observation(db.value, mac.value, sensor.value));
  }

  /** A name is accepted exactly when it has four dot-separated tokens that
      pass the four checks; the observation keeps the signal strength, the
      canonical MAC and the sensor id, and drops the tick counter. */
  lemma ParseNameRule(dnsName: string)
    ensures var tokens := Split(dnsName, '.');
      var r := ParseName(dnsName);
      (r.Ok? <==> |tokens| >= 4 && CheckDbmToken(tokens[0]).Ok? && IsMacToken(tokens[1]) &&
                  IsDecimalToken(tokens[2]) && IsDecimalToken(tokens[3])) &&
      (|tokens| < 4 ==> r == Err(TooFewTokens)) &&
      (r.Ok? ==> r.value == Observation(CheckDbmToken(tokens[0]).value, CanonicalMac(tokens[1]), tokens[3]))
  {
  }

  /** What `add` does to the tables: a refused name changes nothing; an
      accepted one touches its own sensor only, creating it if needed and
      raising its flag. */
  lemma AddedRule(t: Tables<string, ()>, dnsName: string, now: int, pruneNow: int)
    ensures ParseName(dnsName).Err? ==> Added(t, dnsName, now, pruneNow) == t
    ensures ParseName(dnsName).Ok? ==>
              var obs := ParseName(dnsName).value;
              var r := Added(t, dnsName, now, pruneNow);
              r.queries.Keys == t.queries.Keys + {obs.sensor} &&
              r.needsFlush == t.needsFlush[obs.sensor := true] &&
              (forall s :: s in t.queries && s != obs.sensor ==> r.queries[s] == t.queries[s])
  {
  }

  /** A name made of four valid tokens, optionally followed by more labels
      (the hostname the sensors append), is accepted and yields its signal
      strength, canonical MAC and sensor id. */
  lemma ParseNameOf(dbm: string, mac: string, ticks: string, sensor: string, suffix: string)
    requires '.' !in dbm && '.' !in mac && '.' !in ticks && '.' !in sensor
    requires suffix == [] || suffix[0] == '.'
    requires CheckDbmToken(dbm).Ok? && IsMacToken(mac) && IsDecimalToken(ticks) && IsDecimalToken(sensor)
    ensures ParseName(dbm + "." + mac + "." + ticks + "." + sensor + suffix) ==
            Ok(Observation(CheckDbmToken(dbm).value, CanonicalMac(mac), sensor))
  {
    FirstFourOf(dbm, mac, ticks, sensor, suffix);
  }

  lemma FirstFourOf(dbm: string, mac: string, ticks: string, sensor: string, suffix: string)
    requires '.' !in dbm && '.' !in mac && '.' !in ticks && '.' !in sensor
    requires suffix == [] || suffix[0] == '.'
    ensures FirstFourTokens(dbm + "." + mac + "." + ticks + "." + sensor + suffix) == [dbm, mac, ticks, sensor]
  {
    var r3 := sensor + suffix;
    var r2 := ticks + "." + r3;
    var r1 := mac + "." + r2;
    assert dbm + "." + mac + "." + ticks + "." + sensor + suffix == dbm + "." + r1;
    FirstTokenOf(sensor, suffix);
    SplitAt(ticks, r3, '.');
    SplitAt(mac, r2, '.');
    SplitAt(dbm, r1, '.');
    var all := Split(dbm + "." + r1, '.');
    assert all == [dbm] + ([mac] + ([ticks] + Split(r3, '.')));
    assert all[..4] == [dbm, mac, ticks, sensor];
  }

  /** The last of the four tokens ends at the first dot of the suffix. */
  lemma FirstTokenOf(sensor: string, suffix: string)
    requires '.' !in sensor
    requires suffix == [] || suffix[0] == '.'
    ensures Split(sensor + suffix, '.')[0] == sensor
  {
    if suffix == [] {
      assert sensor + suffix == sensor;
      SplitNoSep(sensor, '.');
    } else {
      assert sensor + suffix == sensor + [suffix[0]] + suffix[1..];
      SplitAt(sensor, suffix[1..], '.');
    }
  }

  /** An accepted name carries a MAC in canonical form. */
  lemma ParsedMacCanonical(dnsName: string)
    requires ParseName(dnsName).Ok?
    ensures IsCanonicalMac(ParseName(dnsName).value.mac)
  {
    var tokens := FirstFourTokens(dnsName);
    assert MacCheck(tokens[1]).Ok?;
  }

  /** `add` keeps the tables consistent: one bucket and one flag per sensor,
      every bucket keyed by distinct canonical MACs. */
  lemma AddedConsistent(t: Tables<string, ()>, dnsName: string, now: int, pruneNow: int)
    requires Consistent(t)
    ensures Consistent(Added(t, dnsName, now, pruneNow))
  {
    if ParseName(dnsName).Ok? {
      var obs := ParseName(dnsName).value;
      ParsedMacCanonical(dnsName);
      StoreConsistent(t, obs.sensor, Entry(now, (), obs.dbm, obs.mac), pruneNow, DICTIONARY_MAX_SIZE);
    }
  }

  /** The measurement just added is never the one pruned when the prune reads
      the clock no later than the timestamp did. */
  lemma AddedKeepsMeasurement(t: Tables<string, ()>, dnsName: string, now: int, pruneNow: int)
    requires Consistent(t) && ParseName(dnsName).Ok? && pruneNow <= now
    ensures var obs := ParseName(dnsName).value;
            var r := Added(t, dnsName, now, pruneNow);
            obs.sensor in r.queries && Entry(now, (), obs.dbm, obs.mac) in r.queries[obs.sensor] &&
            r.needsFlush[obs.sensor]
  {
    var obs := ParseName(dnsName).value;
    ParsedMacCanonical(dnsName);
    StoreKeepsNewEntry(t, obs.sensor, Entry(now, (), obs.dbm, obs.mac), pruneNow, DICTIONARY_MAX_SIZE);
  }

  /** The same name seen twice within one clock reading is stored once, as
      long as its sensor held at most ten measurements before. */
  lemma AddedTwice(t: Tables<string, ()>, dnsName: string, now: int)
    requires Consistent(t)
    requires ParseName(dnsName).Ok? ==> |BucketOf(t, ParseName(dnsName).value.sensor)| <= DICTIONARY_MAX_SIZE
    ensures Added(Added(t, dnsName, now, now), dnsName, now, now) == Added(t, dnsName, now, now)
  {
    if ParseName(dnsName).Ok? {
      var obs := ParseName(dnsName).value;
      ParsedMacCanonical(dnsName);
      StoreTwice(t, obs.sensor, Entry(now, (), obs.dbm, obs.mac), now, DICTIONARY_MAX_SIZE);
    }
  }
}
