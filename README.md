# DNS-to-geolocation measurement cache, in Dafny

The service turns DNS queries sent by WiFi sensors into geolocation lookups.
Each query name carries one measurement:

    s<dbm>.<mac>.<ticks>.<sensor>[.<anything>]

The name holds the signal strength in dBm, the BSSID of an access point as
twelve hex digits, a tick counter and the sensor id. The cache keeps the latest
measurement per access point for each sensor, and raises a "needs flush" flag
when a sensor gets new data. A periodic flush then sends one geolocation lookup
per flagged sensor and lowers the flags.

The repository has two versions of this cache, and this project models both:

- `TempStore` in `leus-dns.ts` parses whole DNS names. Its capacity is ten
  access points per sensor.
- `DnsResultCache` in `lib/DnsResultCache.ts` receives the fields already split.
  It also stores the date of the DNS message, and its capacity is a constructor
  argument.

The project has five modules:

- `JsText`: the JavaScript built-ins the cache relies on. These are
  `parseInt(s, 10)`, including its NaN result, `split` on one character, and
  `toLowerCase`.
- `Tokens`: the validators. These are the signal-strength range check (on a
  number, and on the `s-70` style token), the MAC check with its canonical
  `aa:bb:cc:dd:ee:ff` form, and the 1-to-20-digit decimal check.
- `MeasurementCache`: the state both classes share, as values.
  - A sensor's bucket is an insertion-ordered list of entries, keyed by
    canonical MAC. Writing a MAC again overwrites its entry in place.
  - The eviction scan removes the first entry with the smallest timestamp
    strictly before the clock.
  - `Store` describes a whole validated `add`.
  - `FlushedAs` states what one flush sends.
- `LeusDns`: class `TempStore`, with `Add`, `Prune` and `Flush`.
- `ResultCache`: class `DnsResultCache`, with `Add`, `Limit` and `Update`.

## How the model maps the source

- **Clock.** `Math.floor(Date.now() / 1000)` becomes a parameter. `add` reads
  the clock twice: once for the timestamp, and once more when it prunes. So
  `Add` takes two readings: `now` and `pruneNow` (`limitNow` in
  `DnsResultCache`).
- **Lookups.** A flush does not call the geolocation service. It returns the
  list of lookups it would have made.

## Behaviour the proofs bring out

- **NaN passes the signal-strength check.** Both range comparisons are false
  for NaN. So a token such as `sabc` is accepted as a measurement with
  strength NaN (`Tokens.CheckDbmTokenNaN`). So is every token whose tail
  holds no digit at all, the empty tail included: the one-character token `s`,
  an empty first label, or `s-x` (`Tokens.CheckDbmTokenNoDigits`).
- **The capacity is not a hard bound.**
  - Eviction only removes an entry strictly older than the current clock.
    Within one second nothing is evicted, however full the bucket is
    (`MeasurementCache.StoreNeverEvictsWithinOneSecond`).
  - Each call evicts at most one entry. So a bucket that has grown past its
    capacity does not shrink back at once. A write of a new MAC adds one entry
    and evicts one, so the size stays the same. A write when no entry is older
    than the clock removes nothing. Only a write that overwrites a stored MAC
    while some entry is older than the clock shrinks the bucket, by one.
  - Adding the same measurement twice is guaranteed to have the same effect
    as adding it once while the bucket was within capacity. `PutEvictTwice`
    proves this. Over capacity it can fail: `PutEvictTwiceOverCapacity` gives
    a concrete bucket where repeating the write evicts one more entry.
- **The entry just written is never evicted.** This holds when the eviction
  scan reads the clock no later than the timestamp did. The scan starts from
  that clock reading, and its comparison is strict.
- **Once the clock ticks, the entry just written can be evicted.** The
  timestamp and the eviction scan read the clock separately. If the second
  reading is later, the write overwrote the first entry of a bucket over
  capacity in place, and no other entry is older than the new timestamp, then
  that entry is the first of the oldest and is removed
  (`MeasurementCache.EvictJustWritten`).

## Model

| member | source | states |
|---|---|---|
| JsText.ParseInt | leus-dns.ts:116 | `parseInt(s, 10)`: leading whitespace skipped, an optional sign, the longest digit prefix, NaN when there is none; stated by `ParseShowInt` and `ParseIntNaN` |
| JsText.ParseShowInt | leus-dns.ts:116 | `parseInt` reads back every integer written in decimal, negative ones included |
| JsText.ParseIntNaN | leus-dns.ts:116 | a string whose first character is neither whitespace, a sign nor a digit parses to NaN |
| JsText.Split | leus-dns.ts:180 | `split` on one character: at least one piece, none containing the separator; the round trips are `JoinSplit` and `SplitJoin` |
| JsText.JoinSplit | leus-dns.ts:180 | joining the pieces of `split` with the separator gives back the name |
| JsText.SplitJoin | leus-dns.ts:180 | splitting a join of separator-free pieces gives back the pieces |
| JsText.Lower | leus-dns.ts:135 | `toLowerCase` on ASCII letters, every other character kept; stated by `LowerForgetsCase` |
| JsText.LowerForgetsCase | leus-dns.ts:135 | lower-casing is idempotent, undoes upper-casing, and leaves no upper-case letter |
| JsText.TrimStartSuffix | leus-dns.ts:116 | skipping leading whitespace only drops a prefix of the string |
| JsText.ParseIntNoDigits | leus-dns.ts:116 | a string with no decimal digit at all, empty or a lone sign included, parses to NaN |
| JsText.SplitAt | leus-dns.ts:180 | the text before the first dot is the first token, and the rest is split on |
| Tokens.CheckDbm | lib/DnsResultCache.ts:30-38 | a number is accepted iff it is NaN or in [-100, -30], and comes back unchanged; otherwise the error is "invalid dbm" |
| Tokens.DropTag | leus-dns.ts:116 | `dbm.substr(1, dbm.length - 1)`: the token without its first character |
| Tokens.CheckDbmToken | leus-dns.ts:114-125 | `checkDbm` on a token: `parseInt` of the tail, then the range check; stated by `CheckDbmTokenOfInt` and `CheckDbmTokenNaN` |
| Tokens.CheckDbmTokenOfInt | leus-dns.ts:114-125 | a tag character followed by a written integer is accepted exactly when the integer is in [-100, -30], and yields that integer |
| Tokens.CheckDbmTokenNaN | leus-dns.ts:114-125 | a token whose tail starts with a character that is neither whitespace, a sign nor a digit is accepted, with strength NaN |
| Tokens.CheckDbmTokenNoDigits | leus-dns.ts:114-125 | any token whose tail holds no digit, including the empty tail of `s` or of an empty label, is accepted with strength NaN |
| Tokens.MacCheck | leus-dns.ts:128-150 | what `checkMac` returns: the size error, then the not-hex error, otherwise the canonical MAC; stated by `MacCheckRule` |
| Tokens.MacCheckRule | leus-dns.ts:128-150 | accepted iff the token is 12 hex digits in either case; the result is the canonical colon form; the wrong-size error comes before the not-hex error |
| Tokens.CheckMac | leus-dns.ts:128-150 | the length test and the character scan return exactly what `MacCheck` says |
| Tokens.CanonicalMac | leus-dns.ts:144-149 | the result has six lower-case hex octets separated by colons |
| Tokens.Colonize | leus-dns.ts:144-149 | the six two-character `substr` pieces joined by colons; stated by `ColonizeCanonical` and `StripCanonicalMac` |
| Tokens.ColonizeCanonical | leus-dns.ts:144-149 | putting colons into twelve lower-case hex digits gives the canonical format |
| Tokens.StripCanonicalMac | leus-dns.ts:135-149 | dropping the colons from the canonical form gives back the lower-cased token |
| Tokens.CanonicalMacSameIffSameLower | leus-dns.ts:135-149 | two tokens get the same canonical MAC iff they differ only in letter case |
| Tokens.CanonicalMacIgnoresCase | leus-dns.ts:135-141 | the upper-case spelling of a valid token is valid and canonicalises to the same MAC |
| Tokens.DecimalCheck | leus-dns.ts:153-165 | what `checkBigInt` returns: the size error, then the not-decimal error, otherwise the token; stated by `DecimalCheckRule` |
| Tokens.DecimalCheckRule | leus-dns.ts:153-165 | accepted iff 1 to 20 decimal digits, returned unchanged; the wrong-size error comes before the not-decimal error |
| Tokens.CheckBigInt | leus-dns.ts:153-165 | the length test and the character scan return exactly what `DecimalCheck` says |
| MeasurementCache.IndexOf | leus-dns.ts:197 | finds the first position stored under a MAC, or reports that the MAC is absent |
| MeasurementCache.Put | leus-dns.ts:197-201 | `bucket[mac] = entry` on the insertion-ordered bucket; its properties are stated by `PutStores` and `PutPosition` |
| MeasurementCache.PutStores | leus-dns.ts:197-201 | writing keeps MACs distinct and canonical; stores the new entry; keeps every entry under another MAC; adds nothing else; grows the bucket exactly when the MAC is new |
| MeasurementCache.PutPosition | leus-dns.ts:197-201 | a stored MAC is overwritten at its own position, and a new MAC goes last |
| MeasurementCache.PutTwice | leus-dns.ts:197-201 | writing the same entry twice is writing it once |
| MeasurementCache.PutPresent | leus-dns.ts:197-201 | writing an entry already stored changes nothing |
| MeasurementCache.RemoveMac | leus-dns.ts:270 | `delete bucket[key]`; stated by `RemoveAbsent` and `RemoveAt` |
| MeasurementCache.RemoveAbsent | leus-dns.ts:270 | deleting a key that is not stored, such as `""`, changes nothing |
| MeasurementCache.RemoveAt | leus-dns.ts:270 | deleting a stored MAC removes exactly its entry and keeps the order of the rest |
| MeasurementCache.OldestBefore | leus-dns.ts:258-267 | the scan finds the first entry with the smallest timestamp strictly before the clock, or reports that there is none |
| MeasurementCache.OldestKey | leus-dns.ts:258-270 | the key the scan leaves for `delete`: the MAC of the first oldest entry, or `""` when none is older than the clock; stated by `FindOldest` and `PruneRemoves` |
| MeasurementCache.FindOldest | leus-dns.ts:258-267 | the scan loop returns that entry's MAC, or `""` when there is none |
| MeasurementCache.Evict | leus-dns.ts:256-271 | the bucket after the capacity test and the eviction of the oldest entry; stated by `EvictRule` and `PruneRemoves` |
| MeasurementCache.EvictRule | leus-dns.ts:256-271 | no eviction at or below capacity or when nothing is older than the clock; otherwise exactly the first oldest entry goes |
| MeasurementCache.EvictWellFormed | leus-dns.ts:256-271 | eviction keeps MACs distinct and canonical |
| MeasurementCache.PruneRemoves | leus-dns.ts:258-270 | `delete` of the scanned key is the eviction rule, including the key `""` that removes nothing |
| MeasurementCache.EvictKeeps | leus-dns.ts:262 | an entry not older than the clock is never evicted |
| MeasurementCache.EvictSettles | leus-dns.ts:256 | on a bucket at most one over capacity, a second eviction removes nothing more |
| MeasurementCache.Store | leus-dns.ts:189-208 | the tables after a validated add: sensor created if new, entry written, flag raised, bucket evicted; stated by the `Store…` lemmas below |
| MeasurementCache.StoreConsistent | leus-dns.ts:189-208 | a validated add keeps one bucket and one flag per sensor, with distinct canonical MACs |
| MeasurementCache.PutConsistent | leus-dns.ts:189-202 | creating the sensor, writing the entry and raising the flag keep the tables consistent |
| MeasurementCache.StoreKeepsNewEntry | leus-dns.ts:197-208 | when pruning reads the clock no later than the timestamp, the new entry survives the prune |
| MeasurementCache.StoreSize | leus-dns.ts:252-271 | a bucket changes by at most one entry per add; within capacity and holding an entry older than the eviction clock, it stays within capacity |
| MeasurementCache.StoreNeverEvictsWithinOneSecond | leus-dns.ts:256-262 | when no entry is older than the clock, nothing is evicted however full the bucket is |
| MeasurementCache.StoreTwice | leus-dns.ts:189-208 | adding the same entry twice under one clock reading is adding it once, when the bucket was within capacity |
| MeasurementCache.PutEvictTwice | leus-dns.ts:197-208 | the bucket-level form of the same idempotence |
| MeasurementCache.PutEvictTwiceOverCapacity | leus-dns.ts:256-270 | with capacity 1, two entries of one second both stay; a repeated later write evicts one more each time |
| MeasurementCache.FillWithinOneSecond | leus-dns.ts:256-262 | two entries written in the same second with capacity 1 are both kept |
| MeasurementCache.EvictJustWritten | leus-dns.ts:197-271 | when the scan reads a later clock than the timestamp, an entry that overwrote the first entry of an over-capacity bucket, with no other entry older than it, is the one evicted and the rest of the bucket stays |
| MeasurementCache.EvictFirstOfThree | leus-dns.ts:258-270 | among equal oldest timestamps, the first in insertion order is evicted |
| MeasurementCache.AccessPointOf | leus-dns.ts:231-242 | the pushed `{macAddress, age, signalStrength}` of one entry (plus `date` in `DnsResultCache`), with age `now - timestamp` |
| MeasurementCache.BuildAccessPoints | leus-dns.ts:230-244 | one access point per stored entry, in order, with the entry's MAC, the age `now - timestamp`, its date and its dbm |
| MeasurementCache.FlushedAs | leus-dns.ts:216-250 | what a flush sends: one lookup per flagged sensor and none for others, no sensor twice, each carrying its whole bucket as access points in order; `Flush` and `Update` ensure it |
| MeasurementCache.FlushSend | leus-dns.ts:226-247 | sending the lookup of a flagged sensor keeps the flush invariant |
| MeasurementCache.FlushCallsPerDirtySensor | leus-dns.ts:225-248 | a flush makes as many lookups as there are flagged sensors |
| MeasurementCache.FlushLifecycle | leus-dns.ts:202-228 | after a flush a second flush sends nothing, and the next add flags exactly its own sensor |
| LeusDns.TempStore.constructor | leus-dns.ts:104-111 | the cache starts with no sensors and no flags |
| LeusDns.TempStore.Add | leus-dns.ts:169-213 | the new state is `Added` of the old one: unchanged on a failed check, otherwise the measurement is stored under its sensor and pruned; the tables stay consistent |
| LeusDns.TempStore.Insert | leus-dns.ts:189-208 | creates the sensor if needed, writes the entry, raises the flag and prunes, exactly as `Store` says |
| LeusDns.TempStore.Prune | leus-dns.ts:252-272 | the sensor's bucket becomes `Evict` of the old one with capacity 10; flags and other sensors are unchanged |
| LeusDns.TempStore.Flush | leus-dns.ts:216-250 | one lookup per flagged sensor, carrying its whole bucket as access points; no lookup for others; every flag lowered; the buckets kept |
| LeusDns.FirstFourTokens | leus-dns.ts:180 | `split(".").slice(0, 4)`: at most the first four pieces of the name; stated by `FirstFourOf` |
| LeusDns.ParseName | leus-dns.ts:180-187 | the four checks in order on the first four tokens, the first failure reported; stated by `ParseNameRule` and `ParseNameOf` |
| LeusDns.Added | leus-dns.ts:169-213 | the tables after `add`: unchanged on a failed check, otherwise `Store` with capacity 10; stated by the `Added…` lemmas below |
| LeusDns.Validate | leus-dns.ts:178-187 | the checks run in source order and agree with `ParseName` |
| LeusDns.ParseNameRule | leus-dns.ts:180-187 | a name is accepted iff its first four dot-separated tokens pass the four checks; fewer than four tokens is "too few tokens"; the result keeps dbm, canonical MAC and sensor |
| LeusDns.ParseNameOf | leus-dns.ts:180-187 | four valid tokens, with or without trailing hostname labels, parse to their observation |
| LeusDns.FirstFourOf | leus-dns.ts:180 | `split(".").slice(0, 4)` of such a name gives its four tokens |
| LeusDns.ParsedMacCanonical | leus-dns.ts:185 | an accepted name carries a canonical MAC |
| LeusDns.AddedRule | leus-dns.ts:169-213 | a refused name changes nothing; an accepted one adds its sensor, raises its flag and leaves every other sensor as it was |
| LeusDns.AddedConsistent | leus-dns.ts:189-208 | `add` keeps the tables consistent |
| LeusDns.AddedKeepsMeasurement | leus-dns.ts:197-208 | an accepted measurement is stored under its sensor with its flag raised, when pruning reads the clock no later than the timestamp |
| LeusDns.AddedTwice | leus-dns.ts:169-213 | the same name added twice in one clock reading is stored once, when its sensor held at most ten measurements |
| ResultCache.CheckMeasurement | lib/DnsResultCache.ts:86-87 | the dbm check, then the MAC check; stated by `CheckMeasurementRule` |
| ResultCache.CheckMeasurementRule | lib/DnsResultCache.ts:84-88 | a measurement is accepted iff the strength is NaN or in range and the MAC token is valid; a bad strength is reported whatever the MAC |
| ResultCache.DnsResultCache.constructor | lib/DnsResultCache.ts:22-27 | the capacity is the argument, and the cache starts empty |
| ResultCache.DnsResultCache.Add | lib/DnsResultCache.ts:84-113 | the new state is `Recorded` of the old one: unchanged on a failed check, otherwise stored with its date and limited; the tables stay consistent |
| ResultCache.DnsResultCache.Insert | lib/DnsResultCache.ts:89-107 | creates the sensor if needed, writes the entry, raises the flag and limits, exactly as `Store` says |
| ResultCache.DnsResultCache.Limit | lib/DnsResultCache.ts:64-81 | the sensor's bucket becomes `Evict` of the old one with capacity `dictionaryMaxSize`; flags unchanged |
| ResultCache.DnsResultCache.Update | lib/DnsResultCache.ts:116-143 | one lookup per flagged sensor, every access point aged by the one clock reading; flags lowered, buckets kept |
| ResultCache.Recorded | lib/DnsResultCache.ts:84-113 | the tables after `Add`: unchanged on a failed check, otherwise `Store` with the date and capacity `dictionaryMaxSize`; stated by the `Recorded…` lemmas below |
| ResultCache.RecordedConsistent | lib/DnsResultCache.ts:84-107 | `Add` keeps the tables consistent |
| ResultCache.RecordedRule | lib/DnsResultCache.ts:84-107 | a refused measurement changes nothing; an accepted one adds its sensor, raises its flag and leaves other sensors alone, for any two clock readings |
| ResultCache.RecordedKeepsMeasurement | lib/DnsResultCache.ts:89-107 | an accepted measurement is stored under its sensor with its flag raised, when `Limit` reads the clock no later than the timestamp |
| ResultCache.RecordedTwice | lib/DnsResultCache.ts:84-107 | the same measurement added twice in one clock reading is stored once, when the sensor held at most `dictionaryMaxSize` entries |

## Left out

- The geolocation calls are not modelled. These are `googleApi.lookupMac` and
  `wifiToGeo.GetGeoLocation`, with the promise continuations that build and
  store the result. Each flush returns the list of lookups instead.
- The `dnsStore.store` calls are external I/O, so they are left out. The model
  assumes they do not throw. A throwing store would skip the prune or limit
  step.
- Logging and `console.log` are left out.
- The AMQP queue and exchange wiring, the flush timer and the configuration are
  left out. They live outside the two classes.
- LeusDns.TempStore.Flush ages every access point with one clock reading,
  `now`. The source reads the clock again for each entry.
- MeasurementCache.FlushedAs states which lookups a flush makes, but not their
  order. The source visits sensors in the key order of the `queries` array.
  Inside each lookup, the access points are in insertion order.
- JavaScript numbers are integers or NaN in this model. Fractional numbers,
  Infinity and values above 2^53 are not modelled.
  - `parseInt` results are exact integers. A rounded huge value would fall
    outside [-100, -30] all the same.
  - `DnsResultCache`'s `rssi` is a `JsNumber`. `sensor` and `date` are
    integers, and the date is in epoch milliseconds.
  - `dictionaryMaxSize` is an integer.
- `toLowerCase` is modelled on ASCII letters only. The length is checked before
  lower-casing. No other character lower-cases to a hexadecimal digit, so the
  verdict of the MAC check is the same.
- Strings are sequences of Unicode characters here, while JavaScript strings
  are UTF-16 code units. Names are taken to be ASCII, as DNS names are. For a
  token whose first character lies outside the Basic Multilingual Plane,
  `substr(1, ...)` would keep a lone surrogate and `parseInt` would give NaN,
  where `Tokens.DropTag` drops the whole character. The `length` tests of
  `checkMac` and `checkBigInt` would count such a character twice. The
  verdicts agree there, but the reported error kind can differ.
- The two classes have identical `CheckMac` code. It is modelled once, as
  `Tokens.CheckMac`. `CheckDbm` on a number is modelled once as
  `Tokens.CheckDbm`. `TempStore` uses it after `parseInt`.
- `Object.prototype` keys and other property-name collisions are not modelled.
  Sensor ids are strings of digits or numbers, and bucket keys are canonical
  MACs, so these collisions cannot arise.
