/** The per-sensor measurement cache that both `TempStore` and `DnsResultCache`
    keep: for every sensor, an insertion-ordered list of the latest measurement
    per access point (a JavaScript object keyed by the canonical MAC, whose keys
    iterate in insertion order), and a per-sensor "needs flush" flag.

    `D` is what an entry carries besides the measurement itself: nothing (`()`)
    in `TempStore`, the caller's `Date` in `DnsResultCache`. `K` is the type of
    sensor ids. */
module MeasurementCache {
  import opened JsText
  import opened Tokens

  datatype Option<T> = None | Some(value: T)

  /** `{timestamp, date, dbm, mac}`: one stored measurement, keyed by `mac`. */
  datatype Entry<D> = Entry(timestamp: int, date: D, dbm: JsNumber, mac: string)

  /** `{macAddress, age, date, signalStrength}`: one element of a lookup request. */
  datatype AccessPoint<D> = AccessPoint(macAddress: string, age: int, date: D, signalStrength: JsNumber)

  /** One call of the geolocation lookup: the sensor and its access points. */
  datatype Lookup<K, D> = Lookup(sensor: K, accessPoints: seq<AccessPoint<D>>)

  /** The two per-sensor tables, `queries` and `needsFlush`, as a value. */
  datatype Tables<K(==), D> = Tables(queries: map<K, seq<Entry<D>>>, needsFlush: map<K, bool>)

  // ---------------------------------------------------------------- one sensor's bucket

  /** No MAC occurs twice, and every MAC is in canonical form. */
  ghost predicate WellFormed<D>(b: seq<Entry<D>>)
  {
    (forall i, j :: 0 <= i < j < |b| ==> b[i].mac != b[j].mac) &&
    (forall i :: 0 <= i < |b| ==> IsCanonicalMac(b[i].mac))
  }

  /** The position of the entry stored under `mac`. */
  function IndexOf<D>(b: seq<Entry<D>>, mac: string): (r: Option<nat>)
    ensures r.Some? ==> r.value < |b| && b[r.value].mac == mac && forall j :: 0 <= j < r.value ==> b[j].mac != mac
    ensures r.None? ==> forall j :: 0 <= j < |b| ==> b[j].mac != mac
    decreases |b|
  {
    if b == [] then None
    else if b[0].mac == mac then Some(0)
    else match IndexOf(b[1..], mac)
      case None => None
      case Some(i) => Some(i + 1)
  }

  /** `bucket[e.mac] = e`: an existing key is overwritten where it stands, a
      new key goes to the end. */
  function Put<D>(b: seq<Entry<D>>, e: Entry<D>): (r: seq<Entry<D>>)
  {
    match IndexOf(b, e.mac)
    case Some(i) => b[i := e]
    case None => b + [e]
  }

  /** Last write wins: the new entry is stored, every entry under another MAC
      stays where it was, nothing else appears, and the bucket grows by one
      exactly when the MAC was new. */
  lemma PutStores<D>(b: seq<Entry<D>>, e: Entry<D>)
    requires WellFormed(b) && IsCanonicalMac(e.mac)
    ensures var r := Put(b, e);
      WellFormed(r) && e in r &&
      (forall x :: x in b && x.mac != e.mac ==> x in r) &&
      (forall x :: x in r ==> x == e || (x in b && x.mac != e.mac)) &&
      |r| == if exists i :: 0 <= i < |b| && b[i].mac == e.mac then |b| else |b| + 1
  {
    var r := Put(b, e);
    match IndexOf(b, e.mac)
    case Some(i) =>
      assert r[i] == e;
      forall x | x in b && x.mac != e.mac ensures x in r {
        var k :| 0 <= k < |b| && b[k] == x;
        assert r[k] == x;
      }
      forall x | x in r ensures x == e || (x in b && x.mac != e.mac) {
        var k :| 0 <= k < |r| && r[k] == x;
        if k != i {
          assert b[k].mac != b[i].mac;
        }
      }
    case None =>
      forall x | x in b && x.mac != e.mac ensures x in r {
        var k :| 0 <= k < |b| && b[k] == x;
        assert r[k] == x;
      }
  }

  /** Where the write lands: a stored MAC is overwritten at its own position,
      a new MAC goes last. The eviction tie-break relies on this order. */
  lemma PutPosition<D>(b: seq<Entry<D>>, e: Entry<D>)
    requires WellFormed(b)
    ensures forall i :: 0 <= i < |b| && b[i].mac == e.mac ==> Put(b, e) == b[i := e]
    ensures (forall i :: 0 <= i < |b| ==> b[i].mac != e.mac) ==> Put(b, e) == b + [e]
  {
    match IndexOf(b, e.mac)
    case Some(k) =>
      forall i | 0 <= i < |b| && b[i].mac == e.mac ensures Put(b, e) == b[i := e] {
        assert i == k;
      }
    case None =>
  }

  /** Writing the same entry twice is writing it once. */
  lemma PutTwice<D>(b: seq<Entry<D>>, e: Entry<D>)
    ensures Put(Put(b, e), e) == Put(b, e)
  {
    var r := Put(b, e);
    match IndexOf(b, e.mac)
    case Some(i) =>
      assert IndexOf(r, e.mac) == Some(i) by {
        IndexOfUnique(r, e.mac, i);
      }
    case None =>
      assert IndexOf(r, e.mac) == Some(|b|) by {
        IndexOfUnique(r, e.mac, |b|);
      }
  }

  lemma IndexOfUnique<D>(b: seq<Entry<D>>, mac: string, i: nat)
    requires i < |b| && b[i].mac == mac && forall j :: 0 <= j < i ==> b[j].mac != mac
    ensures IndexOf(b, mac) == Some(i)
  {
  }

  /** Writing an entry that is already stored changes nothing. */
  lemma PutPresent<D>(b: seq<Entry<D>>, e: Entry<D>)
    requires WellFormed(b) && e in b
    ensures Put(b, e) == b
  {
    var k :| 0 <= k < |b| && b[k] == e;
    IndexOfUnique(b, e.mac, k);
  }

  /** `delete bucket[mac]`. */
  function RemoveMac<D>(b: seq<Entry<D>>, mac: string): seq<Entry<D>>
    decreases |b|
  {
    if b == [] then [] else (if b[0].mac == mac then [] else [b[0]]) + RemoveMac(b[1..], mac)
  }

  lemma {:induction false} RemoveAbsent<D>(b: seq<Entry<D>>, mac: string)
    requires forall j :: 0 <= j < |b| ==> b[j].mac != mac
    ensures RemoveMac(b, mac) == b
    decreases |b|
  {
    if b != [] {
      RemoveAbsent(b[1..], mac);
      assert [b[0]] + b[1..] == b;
    }
  }

  lemma {:induction false} RemoveAt<D>(b: seq<Entry<D>>, k: nat)
    requires k < |b| && forall j :: 0 <= j < |b| && j != k ==> b[j].mac != b[k].mac
    ensures RemoveMac(b, b[k].mac) == b[..k] + b[k + 1..]
    decreases |b|
  {
    if k == 0 {
      RemoveAbsent(b[1..], b[0].mac);
    } else {
      RemoveAt(b[1..], k - 1);
      assert b[1..][..k - 1] == b[1..k];
      assert b[1..][k..] == b[k + 1..];
      assert [b[0]] + b[1..k] == b[..k];
    }
  }

  /** The entry at `k` is the oldest one strictly before `now`, and the first
      such in iteration order. */
  ghost predicate IsFirstOldest<D>(b: seq<Entry<D>>, now: int, k: int)
  {
    0 <= k < |b| && b[k].timestamp < now &&
    (forall j :: 0 <= j < |b| ==> b[k].timestamp <= b[j].timestamp) &&
    (forall j :: 0 <= j < k ==> b[k].timestamp < b[j].timestamp)
  }

  /** The scan of `prune` / `Limit` over the bucket: the running minimum starts
      at `now` and only moves on a strictly smaller timestamp. */
  function OldestBefore<D>(b: seq<Entry<D>>, now: int): (r: Option<nat>)
    ensures r.Some? ==> IsFirstOldest(b, now, r.value)
    ensures r.None? ==> forall j :: 0 <= j < |b| ==> now <= b[j].timestamp
    decreases |b|
  {
    if b == [] then None
    else
      var last := |b| - 1;
      var r := OldestBefore(b[..last], now);
      var bound := if r.Some? then b[r.value].timestamp else now;
      if b[last].timestamp < bound then Some(last) else r
  }

  /** At most one position is the first oldest. */
  lemma FirstOldestUnique<D>(b: seq<Entry<D>>, now: int, k: int, k': int)
    requires IsFirstOldest(b, now, k) && IsFirstOldest(b, now, k')
    ensures k == k'
  {
  }

  /** The key `prune` / `Limit` delete: the MAC of the first oldest entry, or
      `""`, the scan's starting value, when no entry is older than `now`. */
  function OldestKey<D>(b: seq<Entry<D>>, now: int): string
  {
    match OldestBefore(b, now)
    case None => ""
    case Some(k) => b[k].mac
  }

  /** The scan as `prune` / `Limit` run it, with the running minimum
      `oldestTime` starting at `now`. */
  method FindOldest<D>(b: seq<Entry<D>>, now: int) returns (oldest: string)
    ensures oldest == OldestKey(b, now)
  {
    var oldestTime := now;
    oldest := "";
    var i := 0;
    while i < |b|
      invariant 0 <= i <= |b|
      invariant OldestBefore(b[..i], now).None? ==> oldestTime == now && oldest == ""
      invariant OldestBefore(b[..i], now).Some? ==>
                  var k := OldestBefore(b[..i], now).value;
                  k < i && oldestTime == b[k].timestamp && oldest == b[k].mac
    {
      assert b[..i + 1][..i] == b[..i];
      if b[i].timestamp < oldestTime {
        oldestTime := b[i].timestamp;
        oldest := b[i].mac;
      }
      i := i + 1;
    }
    assert b[..i] == b;
  }

  /** The eviction of `prune` / `Limit`: above `cap` entries, the entry found
      by the scan is removed, if the scan found one. */
  function Evict<D>(b: seq<Entry<D>>, now: int, cap: int): seq<Entry<D>>
  {
    if |b| > cap then
      match OldestBefore(b, now)
      case None => b
      case Some(k) => b[..k] + b[k + 1..]
    else b
  }

  /** The eviction rule: nothing happens at or below `cap`, nothing happens
      when no entry is strictly older than `now`, and otherwise exactly the
      first entry with the smallest timestamp goes. */
  lemma EvictRule<D>(b: seq<Entry<D>>, now: int, cap: int)
    ensures |b| <= cap ==> Evict(b, now, cap) == b
    ensures (forall j :: 0 <= j < |b| ==> now <= b[j].timestamp) ==> Evict(b, now, cap) == b
    ensures |b| > cap && (exists j :: 0 <= j < |b| && b[j].timestamp < now) ==>
              exists k :: IsFirstOldest(b, now, k) && Evict(b, now, cap) == b[..k] + b[k + 1..]
  {
    if |b| > cap && OldestBefore(b, now).Some? {
      var k := OldestBefore(b, now).value;
      assert IsFirstOldest(b, now, k);
    }
  }

  lemma EvictWellFormed<D>(b: seq<Entry<D>>, now: int, cap: int)
    requires WellFormed(b)
    ensures WellFormed(Evict(b, now, cap))
  {
    if |b| > cap && OldestBefore(b, now).Some? {
      WellFormedDelete(b, OldestBefore(b, now).value);
    }
  }

  lemma WellFormedDelete<D>(b: seq<Entry<D>>, k: nat)
    requires WellFormed(b) && k < |b|
    ensures WellFormed(b[..k] + b[k + 1..])
  {
    var r := b[..k] + b[k + 1..];
    forall i | 0 <= i < |r| ensures r[i] == b[if i < k then i else i + 1] {
    }
    forall i, j | 0 <= i < j < |r| ensures r[i].mac != r[j].mac {
      var i', j' := if i < k then i else i + 1, if j < k then j else j + 1;
      assert r[i] == b[i'] && r[j] == b[j'] && i' < j';
    }
  }

  /** `FindOldest` followed by `delete` is the eviction rule: the key `""`
      left by a scan that found nothing is no stored MAC. */
  lemma PruneRemoves<D>(b: seq<Entry<D>>, now: int, cap: int)
    requires WellFormed(b) && |b| > cap
    ensures RemoveMac(b, OldestKey(b, now)) == Evict(b, now, cap)
  {
    match OldestBefore(b, now)
    case None =>
      assert OldestKey(b, now) == "" && Evict(b, now, cap) == b;
      assert forall j :: 0 <= j < |b| ==> b[j].mac != "" by {
        forall j | 0 <= j < |b| ensures b[j].mac != "" {
          assert |b[j].mac| == 17;
        }
      }
      RemoveAbsent(b, "");
    case Some(k) =>
      assert OldestKey(b, now) == b[k].mac && Evict(b, now, cap) == b[..k] + b[k + 1..];
      assert forall j :: 0 <= j < |b| && j != k ==> b[j].mac != b[k].mac;
      RemoveAt(b, k);
  }

  /** Eviction never removes an entry that is not strictly older than `now`. */
  lemma EvictKeeps<D>(b: seq<Entry<D>>, now: int, cap: int, e: Entry<D>)
    requires e in b && now <= e.timestamp
    ensures e in Evict(b, now, cap)
  {
    if |b| > cap && OldestBefore(b, now).Some? {
      var k := OldestBefore(b, now).value;
      var r := Evict(b, now, cap);
      var i :| 0 <= i < |b| && b[i] == e;
      assert i != k;
      if i < k {
        assert r[i] == e;
      } else {
        assert r[i - 1] == e;
      }
    }
  }

  /** On a bucket at most one over capacity, evicting a second time removes
      nothing more. */
  lemma EvictSettles<D>(b: seq<Entry<D>>, now: int, cap: int)
    requires |b| <= cap + 1
    ensures Evict(Evict(b, now, cap), now, cap) == Evict(b, now, cap)
  {
  }

  // ---------------------------------------------------------------- the tables

  /** Every sensor has both a bucket and a flag, and every bucket is well formed. */
  ghost predicate Consistent<K, D>(t: Tables<K, D>)
  {
    t.queries.Keys == t.needsFlush.Keys &&
    forall s :: s in t.queries ==> WellFormed(t.queries[s])
  }

  function BucketOf<K, D>(t: Tables<K, D>, s: K): seq<Entry<D>>
  {
    if s in t.queries then t.queries[s] else []
  }

  /** The effect of a validated `add`: create the sensor if it is new, write the
      entry under its MAC, raise the flag, and evict by the clock `pruneNow`. */
  function Store<K, D>(t: Tables<K, D>, s: K, e: Entry<D>, pruneNow: int, cap: int): Tables<K, D>
  {
    Tables(t.queries[s := Evict(Put(BucketOf(t, s), e), pruneNow, cap)], t.needsFlush[s := true])
  }

  /** The sensors with their flag raised. */
  function Dirty<K, D>(t: Tables<K, D>): set<K>
  {
    set s | s in t.needsFlush && t.needsFlush[s]
  }

  /** The tables after a flush: the same buckets, every flag lowered. */
  function Cleared<K, D>(t: Tables<K, D>): Tables<K, D>
  {
    Tables(t.queries, map s | s in t.needsFlush :: false)
  }

  lemma StoreConsistent<K, D>(t: Tables<K, D>, s: K, e: Entry<D>, pruneNow: int, cap: int)
    requires Consistent(t) && IsCanonicalMac(e.mac)
    ensures Consistent(Store(t, s, e, pruneNow, cap))
  {
    PutStores(BucketOf(t, s), e);
    EvictWellFormed(Put(BucketOf(t, s), e), pruneNow, cap);
  }

  /** The state `add` leaves just before its eviction scan is consistent. */
  lemma PutConsistent<K, D>(t: Tables<K, D>, s: K, e: Entry<D>)
    requires Consistent(t) && IsCanonicalMac(e.mac)
    ensures Consistent(Tables(t.queries[s := Put(BucketOf(t, s), e)], t.needsFlush[s := true]))
  {
    PutStores(BucketOf(t, s), e);
  }

  /** Replacing one bucket by a well-formed one keeps the tables consistent. */
  lemma ReplaceBucketConsistent<K, D>(t: Tables<K, D>, s: K, b: seq<Entry<D>>)
    requires Consistent(t) && s in t.queries && WellFormed(b)
    ensures Consistent(Tables(t.queries[s := b], t.needsFlush))
  {
  }

  /** Map facts the methods below use to line their state up with `Store`. */
  lemma UpdateTwice<K, V>(m: map<K, V>, k: K, v: V, v': V)
    ensures m[k := v][k := v'] == m[k := v']
  {
  }

  lemma UpdateSame<K, V>(m: map<K, V>, k: K)
    requires k in m
    ensures m[k := m[k]] == m
  {
  }

  /** Under one clock reading the entry just written is never the one evicted:
      its timestamp is the scan's starting bound and the comparison is strict. */
  lemma StoreKeepsNewEntry<K, D>(t: Tables<K, D>, s: K, e: Entry<D>, pruneNow: int, cap: int)
    requires Consistent(t) && IsCanonicalMac(e.mac) && pruneNow <= e.timestamp
    ensures s in Store(t, s, e, pruneNow, cap).queries
    ensures e in Store(t, s, e, pruneNow, cap).queries[s]
  {
    PutStores(BucketOf(t, s), e);
    EvictKeeps(Put(BucketOf(t, s), e), pruneNow, cap, e);
  }

  /** The bucket grows by at most one per `add`; and when it was within
      capacity and holds an entry older than the eviction clock, it stays
      within capacity. */
  lemma StoreSize<K, D>(t: Tables<K, D>, s: K, e: Entry<D>, pruneNow: int, cap: int)
    requires Consistent(t) && IsCanonicalMac(e.mac)
    ensures var before, after := BucketOf(t, s), Store(t, s, e, pruneNow, cap).queries[s];
      |before| - 1 <= |after| <= |before| + 1 &&
      ((|before| <= cap && exists i :: 0 <= i < |before| && before[i].timestamp < pruneNow)
        ==> |after| <= cap)
  {
    var before := BucketOf(t, s);
    PutStores(before, e);
    var put := Put(before, e);
    if |before| <= cap && exists i :: 0 <= i < |before| && before[i].timestamp < pruneNow {
      var i :| 0 <= i < |before| && before[i].timestamp < pruneNow;
      if before[i].mac != e.mac {
        assert before[i] in put;
      } else {
        // the write overwrites the older entry in place: the bucket does not grow
        assert |put| == |before|;
      }
    }
  }

  /** The capacity is not a bound within one second: when no entry is older
      than the eviction clock, nothing is evicted however full the bucket is. */
  lemma StoreNeverEvictsWithinOneSecond<K, D>(t: Tables<K, D>, s: K, e: Entry<D>, pruneNow: int, cap: int)
    requires Consistent(t) && IsCanonicalMac(e.mac) && pruneNow <= e.timestamp
    requires forall i :: 0 <= i < |BucketOf(t, s)| ==> pruneNow <= BucketOf(t, s)[i].timestamp
    ensures Store(t, s, e, pruneNow, cap).queries[s] == Put(BucketOf(t, s), e)
  {
    var before := BucketOf(t, s);
    var put := Put(before, e);
    assert forall j :: 0 <= j < |put| ==> pruneNow <= put[j].timestamp by {
      match IndexOf(before, e.mac)
      case Some(i) =>
        assert put == before[i := e];
      case None =>
        assert put == before + [e];
    }
    EvictRule(put, pruneNow, cap);
  }

  /** Adding the same measurement twice under one clock reading is adding it
      once, provided the bucket was within capacity. */
  lemma StoreTwice<K, D>(t: Tables<K, D>, s: K, e: Entry<D>, now: int, cap: int)
    requires Consistent(t) && IsCanonicalMac(e.mac) && now <= e.timestamp
    requires |BucketOf(t, s)| <= cap
    ensures Store(Store(t, s, e, now, cap), s, e, now, cap) == Store(t, s, e, now, cap)
  {
    var once := Store(t, s, e, now, cap);
    assert BucketOf(once, s) == Evict(Put(BucketOf(t, s), e), now, cap);
    PutEvictTwice(BucketOf(t, s), e, now, cap);
  }

  lemma PutEvictTwice<D>(b: seq<Entry<D>>, e: Entry<D>, now: int, cap: int)
    requires WellFormed(b) && IsCanonicalMac(e.mac) && now <= e.timestamp && |b| <= cap
    ensures var once := Evict(Put(b, e), now, cap); Evict(Put(once, e), now, cap) == once
  {
    PutStores(b, e);
    var put := Put(b, e);
    var once := Evict(put, now, cap);
    assert e in once by {
      EvictKeeps(put, now, cap, e);
    }
    assert WellFormed(once) by {
      EvictWellFormed(put, now, cap);
    }
    assert Put(once, e) == once by {
      PutPresent(once, e);
    }
    EvictSettles(put, now, cap);
  }

  /** Without the capacity precondition the repeat is not idempotent: with
      capacity 1, two entries written in second 5 both stay, and each repeat of
      a write in second 9 evicts one more of them. */
  lemma PutEvictTwiceOverCapacity()
    ensures var a := Entry(5, (), Int(-70), "00:00:00:00:00:0a");
            var b := Entry(5, (), Int(-70), "00:00:00:00:00:0b");
            var c := Entry(9, (), Int(-70), "00:00:00:00:00:0c");
            var full := Evict(Put(Evict(Put([], a), 5, 1), b), 5, 1);
            var once := Evict(Put(full, c), 9, 1);
            full == [a, b] && once == [b, c] && Evict(Put(once, c), 9, 1) == [c]
  {
    var a := Entry(5, (), Int(-70), "00:00:00:00:00:0a");
    var b := Entry(5, (), Int(-70), "00:00:00:00:00:0b");
    var c := Entry(9, (), Int(-70), "00:00:00:00:00:0c");
    assert a.mac != b.mac && b.mac != c.mac && a.mac != c.mac;
    FillWithinOneSecond(a, b);
    EvictFirstOfThree(a, b, c);
    EvictFirstOfTwo(b, c);
  }

  lemma FillWithinOneSecond<D>(a: Entry<D>, b: Entry<D>)
    requires a.mac != b.mac && a.timestamp == b.timestamp
    ensures Evict(Put(Evict(Put([], a), a.timestamp, 1), b), a.timestamp, 1) == [a, b]
  {
    assert Put([], a) == [a];
    assert Evict([a], a.timestamp, 1) == [a];
    assert IndexOf([a], b.mac) == None;
    assert Put([a], b) == [a, b];
  }

  lemma EvictFirstOfThree<D>(a: Entry<D>, b: Entry<D>, c: Entry<D>)
    requires a.mac != c.mac && b.mac != c.mac
    requires a.timestamp == b.timestamp < c.timestamp
    ensures Evict(Put([a, b], c), c.timestamp, 1) == [b, c]
  {
    assert IndexOf([a, b], c.mac) == None;
    assert Put([a, b], c) == [a, b, c];
    assert IsFirstOldest([a, b, c], c.timestamp, 0);
    FirstOldestUnique([a, b, c], c.timestamp, 0, OldestBefore([a, b, c], c.timestamp).value);
  }

  lemma EvictFirstOfTwo<D>(b: Entry<D>, c: Entry<D>)
    requires b.mac != c.mac && b.timestamp < c.timestamp
    ensures Evict(Put([b, c], c), c.timestamp, 1) == [c]
  {
    IndexOfUnique([b, c], c.mac, 1);
    assert Put([b, c], c) == [b, c];
    assert IsFirstOldest([b, c], c.timestamp, 0);
    FirstOldestUnique([b, c], c.timestamp, 0, OldestBefore([b, c], c.timestamp).value);
  }

  /** Once the clock has ticked between the timestamp and the eviction scan,
      the entry just written can be the one evicted: when it overwrote the
      first entry of a bucket over capacity, in place, and no other entry is
      older than it, it is the first of the oldest. */
  lemma EvictJustWritten<D>(b: seq<Entry<D>>, w: Entry<D>, pruneNow: int, cap: int)
    requires |b| > cap && |b| > 0 && b[0].mac == w.mac && w.timestamp < pruneNow
    requires forall j :: 1 <= j < |b| ==> w.timestamp <= b[j].timestamp
    ensures Evict(Put(b, w), pruneNow, cap) == b[1..]
  {
    IndexOfUnique(b, w.mac, 0);
    var put := Put(b, w);
    assert put == b[0 := w];
    assert IsFirstOldest(put, pruneNow, 0);
    FirstOldestUnique(put, pruneNow, 0, OldestBefore(put, pruneNow).value);
    assert put[1..] == b[1..];
  }

  // ---------------------------------------------------------------- flush

  function AccessPointOf<D>(e: Entry<D>, now: int): AccessPoint<D>
  {
    AccessPoint(e.mac, now - e.timestamp, e.date, e.dbm)
  }

  /** The inner loop of a flush: one access point per stored entry, in
      iteration order, aged against `now`. */
  method BuildAccessPoints<D>(b: seq<Entry<D>>, now: int) returns (points: seq<AccessPoint<D>>)
    ensures |points| == |b|
    ensures forall k :: 0 <= k < |b| ==>
              points[k].macAddress == b[k].mac && points[k].age == now - b[k].timestamp &&
              points[k].date == b[k].date && points[k].signalStrength == b[k].dbm
  {
    points := [];
    var i := 0;
    while i < |b|
      invariant 0 <= i <= |b|
      invariant |points| == i
      invariant forall k :: 0 <= k < i ==> points[k] == AccessPointOf(b[k], now)
    {
      var measurement := b[i];
      points := points + [AccessPoint(measurement.mac, now - measurement.timestamp, measurement.date, measurement.dbm)];
      i := i + 1;
    }
  }

  function SensorsOf<K, D>(lookups: seq<Lookup<K, D>>): set<K>
  {
    set i | 0 <= i < |lookups| :: lookups[i].sensor
  }

  /** `lookups` is what one flush of `t` at time `now` sends: exactly one call
      per flagged sensor and none for the others, each carrying that sensor's
      whole bucket as access points. */
  ghost predicate FlushedAs<K, D>(t: Tables<K, D>, now: int, lookups: seq<Lookup<K, D>>)
  {
    (forall i, j :: 0 <= i < j < |lookups| ==> lookups[i].sensor != lookups[j].sensor) &&
    SensorsOf(lookups) == Dirty(t) &&
    forall i :: 0 <= i < |lookups| ==>
      lookups[i].sensor in t.queries &&
      |lookups[i].accessPoints| == |t.queries[lookups[i].sensor]| &&
      forall k :: 0 <= k < |lookups[i].accessPoints| ==>
        lookups[i].accessPoints[k] == AccessPointOf(t.queries[lookups[i].sensor][k], now)
  }

  /** The loop invariant of a flush: the lookups sent so far are exactly
      those of the flagged sensors that are no longer `pending`. */
  ghost predicate FlushedExcept<K, D>(t: Tables<K, D>, now: int, lookups: seq<Lookup<K, D>>, pending: set<K>)
  {
    (forall i, j :: 0 <= i < j < |lookups| ==> lookups[i].sensor != lookups[j].sensor) &&
    (forall s :: s in t.needsFlush && t.needsFlush[s] && s !in pending ==> s in SensorsOf(lookups)) &&
    forall i :: 0 <= i < |lookups| ==>
      lookups[i].sensor in t.needsFlush && t.needsFlush[lookups[i].sensor] && lookups[i].sensor !in pending &&
      lookups[i].sensor in t.queries &&
      |lookups[i].accessPoints| == |t.queries[lookups[i].sensor]| &&
      forall k :: 0 <= k < |lookups[i].accessPoints| ==>
        lookups[i].accessPoints[k] == AccessPointOf(t.queries[lookups[i].sensor][k], now)
  }

  /** The next sensor a flush visits; the order is left open. */
  method Pick<K>(pending: set<K>) returns (s: K)
    requires pending != {}
    ensures s in pending
  {
    s :| s in pending;
  }

  /** The flags part-way through a flush: raised only where they were raised
      before and the sensor is still pending. */
  function Lowered<K>(flags: map<K, bool>, pending: set<K>): map<K, bool>
  {
    map s | s in flags :: flags[s] && s in pending
  }

  lemma LoweredStep<K>(flags: map<K, bool>, pending: set<K>, s: K)
    requires s in flags && s in pending
    ensures Lowered(flags, pending)[s] ==> Lowered(flags, pending)[s := false] == Lowered(flags, pending - {s})
    ensures !Lowered(flags, pending)[s] ==> Lowered(flags, pending) == Lowered(flags, pending - {s})
  {
  }

  lemma LoweredAll<K, D>(t: Tables<K, D>)
    ensures Tables(t.queries, Lowered(t.needsFlush, {})) == Cleared(t)
  {
  }

  /** One step of the flush loop for a flagged sensor: its lookup is sent and
      it leaves `pending`. */
  lemma FlushSend<K, D>(t: Tables<K, D>, now: int, lookups: seq<Lookup<K, D>>, pending: set<K>,
                        s: K, points: seq<AccessPoint<D>>)
    requires FlushedExcept(t, now, lookups, pending) && s in pending
    requires s in t.needsFlush && t.needsFlush[s] && s in t.queries
    requires |points| == |t.queries[s]| && forall k :: 0 <= k < |points| ==> points[k] == AccessPointOf(t.queries[s][k], now)
    ensures FlushedExcept(t, now, lookups + [Lookup(s, points)], pending - {s})
  {
    var sent := lookups + [Lookup(s, points)];
    forall x | x in SensorsOf(sent) ensures x in SensorsOf(lookups) + {s} {
      var i :| 0 <= i < |sent| && sent[i].sensor == x;
      if i < |lookups| {
        assert sent[i] == lookups[i];
      }
    }
    forall x | x in SensorsOf(lookups) + {s} ensures x in SensorsOf(sent) {
      if x == s {
        assert sent[|lookups|].sensor == s;
      } else {
        var i :| 0 <= i < |lookups| && lookups[i].sensor == x;
        assert sent[i].sensor == x;
      }
    }
  }

  /** One step of the flush loop for a sensor whose flag is lowered: nothing
      is sent and it leaves `pending`. */
  lemma FlushSkip<K, D>(t: Tables<K, D>, now: int, lookups: seq<Lookup<K, D>>, pending: set<K>, s: K)
    requires FlushedExcept(t, now, lookups, pending) && s in t.needsFlush && !t.needsFlush[s]
    ensures FlushedExcept(t, now, lookups, pending - {s})
  {
  }

  /** With nothing pending the invariant is the flush's postcondition. */
  lemma FlushedExceptNone<K, D>(t: Tables<K, D>, now: int, lookups: seq<Lookup<K, D>>)
    requires FlushedExcept(t, now, lookups, {})
    ensures FlushedAs(t, now, lookups)
  {
  }

  lemma {:induction false} DistinctSensorsCount<K, D>(lookups: seq<Lookup<K, D>>)
    requires forall i, j :: 0 <= i < j < |lookups| ==> lookups[i].sensor != lookups[j].sensor
    ensures |SensorsOf(lookups)| == |lookups|
    decreases |lookups|
  {
    if lookups != [] {
      var last := |lookups| - 1;
      var front := lookups[..last];
      DistinctSensorsCount(front);
      assert SensorsOf(lookups) == SensorsOf(front) + {lookups[last].sensor};
      assert lookups[last].sensor !in SensorsOf(front);
    }
  }

  /** A flush calls the lookup as many times as there are flagged sensors. */
  lemma FlushCallsPerDirtySensor<K, D>(t: Tables<K, D>, now: int, lookups: seq<Lookup<K, D>>)
    requires FlushedAs(t, now, lookups)
    ensures |lookups| == |Dirty(t)|
  {
    DistinctSensorsCount(lookups);
  }

  /** The flag lifecycle: a flush lowers every flag, so a second flush sends
      nothing, and the next `add` raises exactly its own sensor's flag. */
  lemma FlushLifecycle<K, D>(t: Tables<K, D>, now: int, lookups: seq<Lookup<K, D>>,
                             s: K, e: Entry<D>, pruneNow: int, cap: int)
    requires FlushedAs(Cleared(t), now, lookups)
    ensures lookups == []
    ensures Dirty(Store(Cleared(t), s, e, pruneNow, cap)) == {s}
  {
    assert Dirty(Cleared(t)) == {};
    DistinctSensorsCount(lookups);
  }
}
