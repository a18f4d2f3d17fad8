/**
 * The remote-image cache of lib/convert-api/docx-to-pdf/document-helper.ts:
 * an insertion-ordered map used as an approximate LRU (`memCache`, with
 * `touchLRU` and `evictIfNeeded`), a disk cache keyed by URL, and the
 * `getTransformed` lookup that tries memory, then an in-flight promise,
 * then disk, then a fetch. Clock readings are parameters; the disk is a map
 * from URL to stored bytes and modification time.
 */
module ImageCache {
  import opened Wrappers
  import opened ImageTransform
  import opened FetchRetry

  const DefaultTtlMs := 10 * 60 * 1000
  const DefaultCacheMax := 2000

  /** A settled or in-flight download; promises are told apart by an identifier. */
  type PromiseId = nat

  /** `{ expiresAt, data?, promise? }`. */
  datatype Entry = Entry(expiresAt: int, data: Option<Bytes>, promise: Option<PromiseId>)

  /** A cache file: its bytes and its modification time. */
  datatype DiskRecord = DiskRecord(data: Bytes, mtime: int)

  // ---- The key order of an insertion-ordered map ----

  /** The order after `delete(k)`. */
  function Without(order: seq<string>, k: string): (r: seq<string>)
    ensures k !in r
    ensures forall x :: x != k ==> (x in r <==> x in order)
    ensures Distinct(order) ==> Distinct(r)
    ensures k !in order ==> r == order
    ensures |r| <= |order|
  {
    if order == [] then []
    else if order[0] == k then Without(order[1..], k)
    else
      var rest := Without(order[1..], k);
      assert Distinct(order) ==> Distinct([order[0]] + rest) by {
        if Distinct(order) {
          assert forall j :: 1 <= j < |order| ==> order[1..][j - 1] == order[j];
          DistinctCons(order[0], rest);
        }
      }
      [order[0]] + rest
  }

  /** Putting a new element in front keeps a sequence duplicate-free. */
  lemma DistinctCons(x: string, s: seq<string>)
    requires x !in s && Distinct(s)
    ensures Distinct([x] + s)
  {
    var r := [x] + s;
    forall i, j | 0 <= i < j < |r| ensures r[i] != r[j] {
      assert r[j] == s[j - 1];
      if i > 0 { assert r[i] == s[i - 1]; }
    }
  }

  /** The order after `set(k, v)`: a present key keeps its place, a new one goes last. */
  function SetOrder(order: seq<string>, k: string): (r: seq<string>)
    ensures Distinct(order) ==> Distinct(r)
    ensures forall x :: x in r <==> x in order || x == k
  {
    if k in order then order else order + [k]
  }

  /** Setting a key that is present leaves the order alone; a new key lands at the most recent end. */
  lemma SetOrderPlacement(order: seq<string>, k: string)
    ensures k in order ==> SetOrder(order, k) == order
    ensures k !in order ==> |SetOrder(order, k)| == |order| + 1 && SetOrder(order, k)[|order|] == k
                            && SetOrder(order, k)[..|order|] == order
  {
  }

  /** The order after `touchLRU(k)`: a present key moves to the most-recent end. */
  function Touched(order: seq<string>, k: string): (r: seq<string>)
    ensures Distinct(order) ==> Distinct(r)
    ensures forall x :: x in r <==> x in order
    ensures k in order ==> r != [] && r[|r| - 1] == k
    ensures k !in order ==> r == order
  {
    if k in order then Without(order, k) + [k] else order
  }

  lemma {:induction false} WithoutAppend(a: seq<string>, b: seq<string>, k: string)
    ensures Without(a + b, k) == Without(a, k) + Without(b, k)
    decreases |a|
  {
    if a == [] {
      assert a + b == b;
    } else {
      assert (a + b)[0] == a[0] && (a + b)[1..] == a[1..] + b;
      WithoutAppend(a[1..], b, k);
    }
  }

  lemma {:induction false} WithoutLength(order: seq<string>, k: string)
    requires Distinct(order) && k in order
    ensures |Without(order, k)| == |order| - 1
    decreases |order|
  {
    if order[0] != k {
      WithoutLength(order[1..], k);
    } else {
      assert k !in order[1..];
    }
  }

  /**
   * Touching changes nothing but the key's place: the other keys keep
   * their relative order.
   */
  lemma TouchKeepsOthers(order: seq<string>, k: string)
    requires Distinct(order)
    ensures Without(Touched(order, k), k) == Without(order, k)
    ensures k in order ==> |Touched(order, k)| == |order|
  {
    if k in order {
      WithoutAppend(Without(order, k), [k], k);
      assert Without([k], k) == [];
      WithoutLength(order, k);
    }
  }

  /** Dropping the oldest key of a duplicate-free order leaves the rest. */
  lemma WithoutFirst(order: seq<string>)
    requires Distinct(order) && order != []
    ensures Without(order, order[0]) == order[1..]
  {
    assert order[0] !in order[1..];
  }

  /** `r` is what is left of `order` once some of its oldest keys are gone. */
  predicate IsSuffix(r: seq<string>, order: seq<string>)
  {
    |r| <= |order| && order[|order| - |r|..] == r
  }

  /**
   * The order after `evictIfNeeded`: oldest keys are dropped while the map
   * holds more than `max`; the loop stops early at an empty key, which
   * `if (k)` treats as absent.
   */
  function Evicted(order: seq<string>, max: int): (r: seq<string>)
    ensures IsSuffix(r, order)
    ensures |r| <= max || r == [] || r[0] == ""
    ensures |r| < |order| ==> |r| >= max
    ensures |order| <= max ==> r == order
    decreases |order|
  {
    if |order| > max && order != [] && order[0] != "" then
      var r := Evicted(order[1..], max);
      assert order[|order| - |r|..] == order[1..][|order[1..]| - |r|..];
      r
    else order
  }

  /** Without empty keys and with a non-negative bound, eviction leaves exactly `min(size, max)` keys. */
  lemma {:induction false} EvictedSize(order: seq<string>, max: int)
    requires "" !in order && max >= 0
    ensures |Evicted(order, max)| == if |order| <= max then |order| else max
  {
    var r := Evicted(order, max);
    if r != [] {
      assert r[0] == order[|order| - |r|];
    }
  }

  /** A key that survives eviction kept its value; nothing else is removed. */
  ghost predicate Retained(now: map<string, Entry>, before: map<string, Entry>)
  {
    forall k :: k in now ==> k in before && now[k] == before[k]
  }

  /**
   * Nothing but `url` changed among the entries: every other key present
   * now was present before, with the same value.
   */
  ghost predicate KeptExcept(now: map<string, Entry>, before: map<string, Entry>, url: string)
  {
    forall k :: k in now && k != url ==> k in before && now[k] == before[k]
  }

  /** Retaining the entries of a map in which only `url` was overwritten changes nothing but `url`. */
  lemma RetainedKeepsOthers(now: map<string, Entry>, before: map<string, Entry>, url: string, v: Entry)
    requires Retained(now, before[url := v])
    ensures KeptExcept(now, before, url)
  {
    forall k | k in now && k != url ensures k in before && now[k] == before[k] {
      assert k in before[url := v];
    }
  }

  /** Two steps that touch only `url`, the second setting it to `v`, retain what one write of `v` would. */
  lemma RetainedThrough(now: map<string, Entry>, mid: map<string, Entry>, before: map<string, Entry>,
                        url: string, v: Entry)
    requires KeptExcept(mid, before, url)
    requires Retained(now, mid[url := v])
    ensures Retained(now, before[url := v])
  {
    forall k | k in now ensures k in before[url := v] && now[k] == before[url := v][k] {
      if k != url {
        assert k in mid[url := v];
      }
    }
  }

  /** The memory step misses: no fresh entry for `url` carries data or a promise. */
  predicate MemoryMiss(entries: map<string, Entry>, url: string, now: int)
  {
    !(url in entries && entries[url].expiresAt > now && (entries[url].data.Some? || entries[url].promise.Some?))
  }

  /** The key order once an expired entry for `url` is deleted; a fresh entry stays where it is. */
  function AfterExpiry(order: seq<string>, entries: map<string, Entry>, url: string, now: int): (r: seq<string>)
    ensures url in entries && entries[url].expiresAt <= now ==> url !in r
    ensures forall x :: x != url ==> (x in r <==> x in order)
  {
    if url in entries && entries[url].expiresAt <= now then Without(order, url) else order
  }

  /** `readDiskCache(url)`: the stored bytes when the file is at most `ttl` old at `readAt`. */
  function ReadDiskCache(disk: map<string, DiskRecord>, url: string, ttl: int, readAt: int): (r: Option<Bytes>)
    ensures r.Some? <==> url in disk && readAt - disk[url].mtime <= ttl
    ensures r.Some? ==> r.value == disk[url].data
  {
    if url !in disk then None
    else if readAt - disk[url].mtime > ttl then None
    else Some(disk[url].data)
  }

  /** How a lookup in memory ends: a fresh value, an in-flight download to join, or a miss. */
  datatype Lookup = Hit(data: Bytes) | Join(promise: PromiseId) | Miss

  /** What `getTransformed` resolves or rejects with. */
  datatype Served = Served(data: Bytes) | Joined(promise: PromiseId) | Rejected

  class Cache {
    var order: seq<string>
    var entries: map<string, Entry>
    var disk: map<string, DiskRecord>
    const cacheMax: int
    const ttl: int

    /** The map's keys, listed once each in insertion order. */
    ghost predicate Valid()
      reads this
    {
      Distinct(order) && (forall k :: k in entries <==> k in order)
    }

    /**
     * An empty map over `disk`; `IMG_CACHE_MAX_ENTRIES` and
     * `IMG_DISK_CACHE_TTL_MS` (numeric values, `None` when unset or empty)
     * default to 2000 entries and ten minutes.
     */
    constructor (envCacheMax: Option<int>, envTtl: Option<int>, disk: map<string, DiskRecord>)
      ensures Valid()
      ensures order == [] && entries == map[] && this.disk == disk
      ensures cacheMax == (if envCacheMax.Some? then envCacheMax.value else DefaultCacheMax)
      ensures ttl == (if envTtl.Some? then envTtl.value else DefaultTtlMs)
    {
      order := [];
      entries := map[];
      this.disk := disk;
      cacheMax := if envCacheMax.Some? then envCacheMax.value else DefaultCacheMax;
      ttl := if envTtl.Some? then envTtl.value else DefaultTtlMs;
    }

    /** `memCache.delete(k)`. */
    method Delete(k: string)
      requires Valid()
      modifies this
      ensures Valid()
      ensures order == Without(old(order), k) && entries == old(entries) - {k} && disk == old(disk)
    {
      order := Without(order, k);
      entries := entries - {k};
    }

    /** `memCache.set(k, v)`. */
    method Set(k: string, v: Entry)
      requires Valid()
      modifies this
      ensures Valid()
      ensures order == SetOrder(old(order), k) && entries == old(entries)[k := v] && disk == old(disk)
    {
      order := SetOrder(order, k);
      entries := entries[k := v];
    }

    /** `touchLRU(k)`: delete and re-insert, so a present key becomes the most recent one. */
    method Touch(k: string)
      requires Valid()
      modifies this
      ensures Valid()
      ensures order == Touched(old(order), k) && entries == old(entries) && disk == old(disk)
    {
      if k !in entries {
        return;
      }
      var v := entries[k];
      Delete(k);
      Set(k, v);
      assert entries == old(entries);
    }

    /** `evictIfNeeded()`: the oldest keys go while the map is over `cacheMax`. */
    method EvictIfNeeded()
      requires Valid()
      modifies this
      ensures Valid()
      ensures order == Evicted(old(order), cacheMax)
      ensures Retained(entries, old(entries)) && disk == old(disk)
    {
      while |order| > cacheMax
        invariant Valid()
        invariant Evicted(order, cacheMax) == Evicted(old(order), cacheMax)
        invariant Retained(entries, old(entries)) && disk == old(disk)
        decreases |order|
      {
        var first: Option<string> := if order == [] then None else Some(order[0]);
        if first.Some? && first.value != "" {
          WithoutFirst(order);
          Delete(first.value);
        } else {
          break;
        }
      }
    }

    /**
     * The memory step of `getTransformed(url)` at time `now`: a fresh entry
     * with data is a hit and is touched; a fresh entry with a promise is
     * joined; an expired entry is deleted; everything else is a miss.
     */
    method LookupMemory(url: string, now: int) returns (r: Lookup)
      requires Valid()
      modifies this
      ensures Valid() && disk == old(disk)
      ensures url in old(entries) && old(entries)[url].expiresAt > now && old(entries)[url].data.Some? ==>
        r == Hit(old(entries)[url].data.value) && order == Touched(old(order), url) && entries == old(entries)
      ensures url in old(entries) && old(entries)[url].expiresAt > now && old(entries)[url].data.None? ==>
        r == (if old(entries)[url].promise.Some? then Join(old(entries)[url].promise.value) else Miss)
        && order == old(order) && entries == old(entries)
      ensures url in old(entries) && old(entries)[url].expiresAt <= now ==>
        r == Miss && order == Without(old(order), url) && entries == old(entries) - {url}
      ensures url !in old(entries) ==> r == Miss && order == old(order) && entries == old(entries)
      ensures r == Miss <==> MemoryMiss(old(entries), url, now)
      ensures r == Miss ==> order == AfterExpiry(old(order), old(entries), url, now) && Retained(entries, old(entries))
    {
      if url in entries && entries[url].expiresAt > now {
        var ent := entries[url];
        if ent.data.Some? {
          Touch(url);
          return Hit(ent.data.value);
        }
        if ent.promise.Some? {
          return Join(ent.promise.value);
        }
      } else if url in entries {
        Delete(url);
      }
      r := Miss;
    }

    /** A disk hit: the bytes are installed as the most recent entry, fresh for `ttl` from `now`, then the map is trimmed. */
    method InstallFromDisk(url: string, now: int, data: Bytes)
      requires Valid()
      modifies this
      ensures Valid() && disk == old(disk)
      ensures order == Evicted(Touched(SetOrder(old(order), url), url), cacheMax)
      ensures Retained(entries, old(entries)[url := Entry(now + ttl, Some(data), None)])
      ensures url in entries ==> order[|order| - 1] == url
    {
      Set(url, Entry(now + ttl, Some(data), None));
      Touch(url);
      ghost var touched := order;
      EvictIfNeeded();
      assert IsSuffix(order, touched);
    }

    /** A miss: the download's promise is installed, fresh for `ttl` from `now`, then the map is trimmed. */
    method InstallPending(url: string, now: int, p: PromiseId)
      requires Valid()
      modifies this
      ensures Valid() && disk == old(disk)
      ensures order == Evicted(SetOrder(old(order), url), cacheMax)
      ensures Retained(entries, old(entries)[url := Entry(now + ttl, None, Some(p))])
    {
      Set(url, Entry(now + ttl, None, Some(p)));
      EvictIfNeeded();
    }

    /**
     * The download succeeded at `completedAt`: the data replaces the promise,
     * fresh for `ttl` from completion, as the most recent entry. There is no
     * eviction here, so the map may now exceed `cacheMax`.
     */
    method SettleSuccess(url: string, completedAt: int, data: Bytes)
      requires Valid()
      modifies this
      ensures Valid() && disk == old(disk)
      ensures entries == old(entries)[url := Entry(completedAt + ttl, Some(data), None)]
      ensures order == Touched(SetOrder(old(order), url), url)
      ensures order[|order| - 1] == url
    {
      Set(url, Entry(completedAt + ttl, Some(data), None));
      Touch(url);
    }

    /** The download failed: the key is removed, so no failure is cached. */
    method SettleFailure(url: string)
      requires Valid()
      modifies this
      ensures Valid() && disk == old(disk)
      ensures url !in entries
      ensures order == Without(old(order), url) && entries == old(entries) - {url}
    {
      Delete(url);
    }

    /** `writeDiskCache(url, buf)`: the file is written at `writtenAt` unless the write fails, which is ignored. */
    method WriteDiskCache(url: string, data: Bytes, writtenAt: int, writeOk: bool)
      modifies this
      ensures order == old(order) && entries == old(entries)
      ensures disk == if writeOk then old(disk)[url := DiskRecord(data, writtenAt)] else old(disk)
    {
      if writeOk {
        disk := disk[url := DiskRecord(data, writtenAt)];
      }
    }

    /**
     * The cache side of a download: its promise is installed at `now`, then
     * it settles at `completedAt` with `t`, the transformed bytes or `None`
     * when the fetch or the transform failed. Bytes are written to disk at
     * `writtenAt` and cached; a failure removes the entry.
     */
    method SettleDownload(url: string, now: int, p: PromiseId, t: Option<Bytes>,
                          writtenAt: int, writeOk: bool, completedAt: int)
      returns (r: Served)
      requires Valid()
      modifies this
      ensures Valid()
      ensures r == if t.Some? then Served(t.value) else Rejected
      ensures t.Some? ==>
        && url in entries && entries[url] == Entry(completedAt + ttl, t, None)
        && order == Touched(SetOrder(Evicted(SetOrder(old(order), url), cacheMax), url), url)
        && order[|order| - 1] == url
        && Retained(entries, old(entries)[url := Entry(completedAt + ttl, t, None)])
        && disk == if writeOk then old(disk)[url := DiskRecord(t.value, writtenAt)] else old(disk)
      ensures t.None? ==>
        && url !in entries
        && order == Without(Evicted(SetOrder(old(order), url), cacheMax), url)
        && Retained(entries, old(entries))
        && disk == old(disk)
    {
      InstallPending(url, now, p);
      ghost var pending := entries;
      if t.None? {
        SettleFailure(url);
        r := Rejected;
      } else {
        WriteDiskCache(url, t.value, writtenAt, writeOk);
        SettleSuccess(url, completedAt, t.value);
        RetainedKeepsOthers(pending, old(entries), url, Entry(now + ttl, None, Some(p)));
        RetainedThrough(entries, pending, old(entries), url, Entry(completedAt + ttl, t, None));
        r := Served(t.value);
      }
    }

    /**
     * The download of a miss: `fetchRaw` runs with the default four
     * attempts and its result is transformed; the cache side is
     * `SettleDownload`.
     */
    method FetchAndSettle(url: string, now: int, p: PromiseId,
                          outcome: nat -> Outcome, jitter: nat -> int,
                          cfg: TransformConfig, probe: Bytes -> Option<Meta>,
                          encode: (Bytes, Plan) -> Option<Bytes>,
                          writtenAt: int, writeOk: bool, completedAt: int)
      returns (r: Served, requests: nat)
      requires Valid()
      requires forall k: nat :: 0 <= jitter(k) < JitterSpan
      modifies this
      ensures Valid()
      ensures var run := Run(outcome, DefaultAttempts, jitter);
        && requests == run.requests >= 1
        && (r.Served? <==> run.result.Fetched? && TransformImageIfNeeded(cfg, run.result.body, probe, encode).Some?)
        && (r.Served? ==>
              && r.data == TransformImageIfNeeded(cfg, run.result.body, probe, encode).value
              && url in entries && entries[url] == Entry(completedAt + ttl, Some(r.data), None)
              && order == Touched(SetOrder(Evicted(SetOrder(old(order), url), cacheMax), url), url)
              && order[|order| - 1] == url
              && Retained(entries, old(entries)[url := Entry(completedAt + ttl, Some(r.data), None)])
              && disk == if writeOk then old(disk)[url := DiskRecord(r.data, writtenAt)] else old(disk))
        && (!r.Served? ==>
              && r == Rejected && url !in entries
              && order == Without(Evicted(SetOrder(old(order), url), cacheMax), url)
              && Retained(entries, old(entries))
              && disk == old(disk))
    {
      var fetched, n, _ := FetchRaw(outcome, DefaultAttempts, jitter);
      requests := n;
      var t := if fetched.Thrown? then None else TransformImageIfNeeded(cfg, fetched.body, probe, encode);
      r := SettleDownload(url, now, p, t, writtenAt, writeOk, completedAt);
    }

    /**
     * `getTransformed(url)` with its awaits run one after another: the
     * memory lookup at `now`, the disk read at `readAt`, and on a miss the
     * download `p` — `fetchRaw` with the default four attempts, then the
     * transform, then the disk write at `writtenAt` — settling at
     * `completedAt`. A fresh entry with neither data nor a promise counts as
     * a miss and is not deleted; an expired entry is deleted first.
     */
    method GetTransformed(url: string, now: int, readAt: int, p: PromiseId,
                          outcome: nat -> Outcome, jitter: nat -> int,
                          cfg: TransformConfig, probe: Bytes -> Option<Meta>,
                          encode: (Bytes, Plan) -> Option<Bytes>,
                          writtenAt: int, writeOk: bool, completedAt: int)
      returns (r: Served, requests: nat)
      requires Valid()
      requires forall k: nat :: 0 <= jitter(k) < JitterSpan
      modifies this
      ensures Valid()
      ensures url in old(entries) && old(entries)[url].expiresAt > now && old(entries)[url].data.Some? ==>
        r == Served(old(entries)[url].data.value) && requests == 0 && disk == old(disk)
        && order == Touched(old(order), url) && entries == old(entries)
      ensures url in old(entries) && old(entries)[url].expiresAt > now && old(entries)[url].data.None?
              && old(entries)[url].promise.Some? ==>
        r == Joined(old(entries)[url].promise.value) && requests == 0
        && order == old(order) && entries == old(entries) && disk == old(disk)
      ensures MemoryMiss(old(entries), url, now) && ReadDiskCache(old(disk), url, ttl, readAt).Some? ==>
        && r == Served(ReadDiskCache(old(disk), url, ttl, readAt).value) && requests == 0 && disk == old(disk)
        && order == Evicted(Touched(SetOrder(AfterExpiry(old(order), old(entries), url, now), url), url), cacheMax)
        && Retained(entries, old(entries)[url := Entry(now + ttl, Some(r.data), None)])
      ensures MemoryMiss(old(entries), url, now) && ReadDiskCache(old(disk), url, ttl, readAt).None? ==>
        var run := Run(outcome, DefaultAttempts, jitter);
        && requests == run.requests >= 1
        && (r.Served? <==> run.result.Fetched? && TransformImageIfNeeded(cfg, run.result.body, probe, encode).Some?)
        && (r.Served? ==>
              && r.data == TransformImageIfNeeded(cfg, run.result.body, probe, encode).value
              && url in entries && entries[url] == Entry(completedAt + ttl, Some(r.data), None)
              && order == Touched(SetOrder(Evicted(SetOrder(AfterExpiry(old(order), old(entries), url, now), url), cacheMax), url), url)
              && order[|order| - 1] == url
              && Retained(entries, old(entries)[url := Entry(completedAt + ttl, Some(r.data), None)])
              && disk == if writeOk then old(disk)[url := DiskRecord(r.data, writtenAt)] else old(disk))
        && (!r.Served? ==>
              && r == Rejected && url !in entries
              && order == Without(Evicted(SetOrder(AfterExpiry(old(order), old(entries), url, now), url), cacheMax), url)
              && Retained(entries, old(entries))
              && disk == old(disk))
    {
      var hit := LookupMemory(url, now);
      match hit {
        case Hit(data) => return Served(data), 0;
        case Join(promise) => return Joined(promise), 0;
        case Miss =>
      }
      var onDisk := ReadDiskCache(disk, url, ttl, readAt);
      ghost var looked := entries;
      if onDisk.Some? {
        InstallFromDisk(url, now, onDisk.value);
        RetainedThrough(entries, looked, old(entries), url, Entry(now + ttl, onDisk, None));
        return Served(onDisk.value), 0;
      }
      r, requests := FetchAndSettle(url, now, p, outcome, jitter, cfg, probe, encode, writtenAt, writeOk, completedAt);
      if r.Served? {
        RetainedThrough(entries, looked, old(entries), url, Entry(completedAt + ttl, Some(r.data), None));
      }
    }
  }
}
