/** The failure counters that slow down password guessing (backend/app/api/auth.py): an ordered
    dictionary kept in order of last failure, with expiry, a size bound and a short lock. */
module LoginBackoff {
  import opened Wrappers

  const MAX_ENTRIES: nat := 4096
  const TTL: real := 300.0
  const LOCK: real := 1.0

  /** The digest of a bucket's name and identity. */
  type Key = nat

  datatype Entry = Entry(key: Key, failures: nat, lockedUntil: real, lastSeen: real)

  /** A bucket and the failures at which it locks. */
  type Bucket = (Key, nat)

  function Find(entries: seq<Entry>, key: Key): Option<Entry> {
    if entries == [] then None
    else if entries[0].key == key then Some(entries[0])
    else Find(entries[1..], key)
  }

  function Without(entries: seq<Entry>, key: Key): seq<Entry> {
    if entries == [] then []
    else if entries[0].key == key then Without(entries[1..], key)
    else [entries[0]] + Without(entries[1..], key)
  }

  /** Front-only purging: expired entries are dropped until the first one that is not. */
  function PurgeFront(entries: seq<Entry>, limit: real): seq<Entry> {
    if entries != [] && entries[0].lastSeen <= limit then PurgeFront(entries[1..], limit) else entries
  }

  function Failures(entry: Option<Entry>): nat {
    if entry.Some? then entry.value.failures else 0
  }

  function Bumped(entries: seq<Entry>, b: Bucket, now: real): Entry {
    var failures := Failures(Find(entries, b.0)) + 1;
    Entry(b.0, failures, if failures >= b.1 then now + LOCK else 0.0, now)
  }

  /** Count one failure and move the entry to the end. */
  function Touch(entries: seq<Entry>, b: Bucket, now: real): seq<Entry> {
    Without(entries, b.0) + [Bumped(entries, b, now)]
  }

  function TouchAll(entries: seq<Entry>, buckets: seq<Bucket>, now: real): seq<Entry>
    decreases |buckets|
  {
    if buckets == [] then entries else TouchAll(Touch(entries, buckets[0], now), buckets[1..], now)
  }

  /** Evict from the front down to the bound. */
  function Trim(entries: seq<Entry>): seq<Entry> {
    if |entries| > MAX_ENTRIES then entries[|entries| - MAX_ENTRIES..] else entries
  }

  function Recorded(entries: seq<Entry>, buckets: seq<Bucket>, now: real): seq<Entry> {
    Trim(TouchAll(PurgeFront(entries, now - TTL), buckets, now))
  }

  predicate Locked(entries: seq<Entry>, keys: seq<Key>, now: real) {
    exists i :: 0 <= i < |keys| && Find(entries, keys[i]).Some? && Find(entries, keys[i]).value.lockedUntil > now
  }

  // ---- In place ----------------------------------------------------------------------------------

  class Backoff {
    var entries: seq<Entry>

    constructor ()
      ensures entries == []
    {
      entries := [];
    }

    method KeysLocked(keys: seq<Key>, now: real) returns (locked: bool)
      ensures locked == Locked(entries, keys, now)
    {
      for i := 0 to |keys|
        invariant forall k :: 0 <= k < i ==>
                    !(Find(entries, keys[k]).Some? && Find(entries, keys[k]).value.lockedUntil > now)
      {
        var attempt := Find(entries, keys[i]);
        if attempt.Some? && attempt.value.lockedUntil > now {
          return true;
        }
      }
      return false;
    }

    method RecordFailedLogin(buckets: seq<Bucket>, now: real)
      modifies this
      ensures entries == Recorded(old(entries), buckets, now)
    {
      while entries != [] && entries[0].lastSeen <= now - TTL
        invariant PurgeFront(entries, now - TTL) == PurgeFront(old(entries), now - TTL)
        decreases |entries|
      {
        entries := entries[1..];
      }
      ghost var purged := entries;
      for i := 0 to |buckets|
        invariant TouchAll(entries, buckets[i..], now) == TouchAll(purged, buckets, now)
      {
        assert buckets[i..][0] == buckets[i] && buckets[i..][1..] == buckets[i + 1..];
        entries := Touch(entries, buckets[i], now);
      }
      while |entries| > MAX_ENTRIES
        invariant Trim(entries) == Trim(TouchAll(purged, buckets, now))
        decreases |entries|
      {
        entries := entries[1..];
      }
    }

    /** A successful login clears the account's bucket. */
    method ClearAccount(key: Key)
      modifies this
      ensures entries == Without(old(entries), key)
    {
      entries := Without(entries, key);
    }
  }

  // ---- What holds of the dictionary --------------------------------------------------------------

  /** One entry per key. */
  ghost predicate OneEach(entries: seq<Entry>) {
    forall i, j :: 0 <= i < j < |entries| ==> entries[i].key != entries[j].key
  }

  /** In order of last failure, none later than `now`. */
  ghost predicate InOrder(entries: seq<Entry>, now: real) {
    && (forall i, j :: 0 <= i < j < |entries| ==> entries[i].lastSeen <= entries[j].lastSeen)
    && (forall i :: 0 <= i < |entries| ==> entries[i].lastSeen <= now)
  }

  /** All entries that are not expired. */
  function Live(entries: seq<Entry>, limit: real): seq<Entry> {
    if entries == [] then []
    else (if entries[0].lastSeen > limit then [entries[0]] else []) + Live(entries[1..], limit)
  }

  lemma {:induction false} FindListed(entries: seq<Entry>, key: Key)
    ensures Find(entries, key).Some? <==> exists i :: 0 <= i < |entries| && entries[i].key == key
    ensures Find(entries, key).Some? ==> Find(entries, key).value in entries && Find(entries, key).value.key == key
  {
    if entries != [] {
      FindListed(entries[1..], key);
      if entries[0].key != key {
        assert forall i :: 0 < i < |entries| ==> entries[i] == entries[1..][i - 1];
      }
    }
  }

  lemma {:induction false} WithoutMembers(entries: seq<Entry>, key: Key)
    ensures forall e :: e in Without(entries, key) <==> e in entries && e.key != key
  {
    if entries != [] {
      WithoutMembers(entries[1..], key);
      assert entries == [entries[0]] + entries[1..];
    }
  }

  lemma {:induction false} FindWithout(entries: seq<Entry>, key: Key, other: Key)
    ensures Find(Without(entries, key), other) == if other == key then None else Find(entries, other)
  {
    if entries != [] {
      FindWithout(entries[1..], key, other);
    }
  }

  lemma {:induction false} FindAppend(entries: seq<Entry>, e: Entry, other: Key)
    ensures Find(entries + [e], other) ==
            if Find(entries, other).Some? then Find(entries, other) else if e.key == other then Some(e) else None
  {
    if entries == [] {
      assert entries + [e] == [e];
    } else {
      assert (entries + [e])[1..] == entries[1..] + [e];
      FindAppend(entries[1..], e, other);
    }
  }

  lemma OneEachTail(entries: seq<Entry>)
    requires entries != [] && OneEach(entries)
    ensures OneEach(entries[1..]) && Find(entries[1..], entries[0].key) == None
  {
    FindListed(entries[1..], entries[0].key);
    assert forall i :: 0 <= i < |entries[1..]| ==> entries[1..][i] == entries[i + 1];
  }

  lemma OneEachCons(e: Entry, rest: seq<Entry>)
    requires OneEach(rest) && forall o :: o in rest ==> o.key != e.key
    ensures OneEach([e] + rest)
  {
    forall j | 0 <= j < |rest| ensures rest[j].key != e.key {
      assert rest[j] in rest;
    }
  }

  lemma {:induction false} NotOfKey(entries: seq<Entry>, key: Key)
    requires Find(entries, key) == None
    ensures forall o :: o in entries ==> o.key != key
  {
    FindListed(entries, key);
  }

  lemma {:induction false} WithoutOneEach(entries: seq<Entry>, key: Key)
    requires OneEach(entries)
    ensures OneEach(Without(entries, key)) && |Without(entries, key)| <= |entries|
  {
    if entries != [] {
      OneEachTail(entries);
      WithoutOneEach(entries[1..], key);
      WithoutMembers(entries[1..], key);
      NotOfKey(entries[1..], entries[0].key);
      OneEachCons(entries[0], Without(entries[1..], key));
    }
  }

  lemma InOrderTail(entries: seq<Entry>, now: real)
    requires entries != [] && InOrder(entries, now)
    ensures InOrder(entries[1..], now)
    ensures forall e :: e in entries[1..] ==> entries[0].lastSeen <= e.lastSeen
  {
    forall e | e in entries[1..] ensures entries[0].lastSeen <= e.lastSeen {
      var k :| 0 <= k < |entries[1..]| && entries[1..][k] == e;
      assert entries[k + 1] == e;
    }
  }

  lemma InOrderCons(e: Entry, rest: seq<Entry>, now: real)
    requires InOrder(rest, now) && e.lastSeen <= now
    requires forall o :: o in rest ==> e.lastSeen <= o.lastSeen
    ensures InOrder([e] + rest, now)
  {
    forall j | 0 <= j < |rest| ensures e.lastSeen <= rest[j].lastSeen {
      assert rest[j] in rest;
    }
  }

  lemma {:induction false} WithoutInOrder(entries: seq<Entry>, key: Key, now: real)
    requires InOrder(entries, now)
    ensures InOrder(Without(entries, key), now)
  {
    if entries != [] {
      InOrderTail(entries, now);
      WithoutInOrder(entries[1..], key, now);
      WithoutMembers(entries[1..], key);
      InOrderCons(entries[0], Without(entries[1..], key), now);
    }
  }

  // ---- Purging ----------------------------------------------------------------------------------

  lemma {:induction false} LiveAll(entries: seq<Entry>, limit: real)
    requires forall i :: 0 <= i < |entries| ==> entries[i].lastSeen > limit
    ensures Live(entries, limit) == entries
  {
    if entries != [] {
      LiveAll(entries[1..], limit);
    }
  }

  ghost predicate NoneBehindLive(entries: seq<Entry>, limit: real) {
    forall i, j :: 0 <= i < j < |entries| && entries[i].lastSeen > limit ==> entries[j].lastSeen > limit
  }

  lemma NoneBehindFront(entries: seq<Entry>, limit: real)
    requires entries != []
    ensures entries[0].lastSeen <= limit ==> (NoneBehindLive(entries, limit) <==> NoneBehindLive(entries[1..], limit))
    ensures entries[0].lastSeen > limit ==>
              (NoneBehindLive(entries, limit) <==> forall i :: 0 <= i < |entries| ==> entries[i].lastSeen > limit)
  {
    assert forall i :: 0 <= i < |entries[1..]| ==> entries[1..][i] == entries[i + 1];
    if entries[0].lastSeen <= limit && NoneBehindLive(entries[1..], limit) {
      forall i, j | 0 <= i < j < |entries| && entries[i].lastSeen > limit ensures entries[j].lastSeen > limit {
        assert entries[i] == entries[1..][i - 1] && entries[j] == entries[1..][j - 1];
      }
    }
  }

  /** Front purging is exact if and only if no expired entry sits behind a live one. Times recorded out
      of order put one there. */
  lemma {:induction false} FrontPurgeIff(entries: seq<Entry>, limit: real)
    ensures PurgeFront(entries, limit) == Live(entries, limit) <==> NoneBehindLive(entries, limit)
  {
    if entries != [] {
      NoneBehindFront(entries, limit);
      if entries[0].lastSeen <= limit {
        FrontPurgeIff(entries[1..], limit);
      } else {
        LiveSame(entries, limit);
      }
    }
  }

  lemma {:induction false} LiveSame(entries: seq<Entry>, limit: real)
    ensures |Live(entries, limit)| <= |entries|
    ensures Live(entries, limit) == entries <==> forall i :: 0 <= i < |entries| ==> entries[i].lastSeen > limit
  {
    if entries != [] {
      LiveSame(entries[1..], limit);
    }
  }

  /** In a dictionary in order front purging is exact. */
  lemma {:induction false} FrontPurgeIsFilter(entries: seq<Entry>, limit: real, now: real)
    requires InOrder(entries, now)
    ensures PurgeFront(entries, limit) == Live(entries, limit)
    ensures InOrder(PurgeFront(entries, limit), now)
  {
    if entries != [] && entries[0].lastSeen <= limit {
      InOrderTail(entries, now);
      FrontPurgeIsFilter(entries[1..], limit, now);
    } else {
      LiveAll(entries, limit);
    }
  }

  /** The key's entry is expired and sits behind a live one. */
  ghost predicate BehindLive(entries: seq<Entry>, key: Key, limit: real) {
    exists i, j :: 0 <= i < j < |entries| && entries[i].lastSeen > limit && entries[j].key == key && entries[j].lastSeen <= limit
  }

  /** Looking up among the live entries is looking up and then testing the time. */
  lemma {:induction false} FindLive(entries: seq<Entry>, limit: real, key: Key)
    requires OneEach(entries)
    ensures Find(Live(entries, limit), key) ==
            var found := Find(entries, key);
            if found.Some? && found.value.lastSeen > limit then found else None
  {
    if entries != [] {
      OneEachTail(entries);
      FindLive(entries[1..], limit, key);
      var live := Live(entries[1..], limit);
      assert ([entries[0]] + live)[1..] == live && [] + live == live;
    }
  }

  lemma BehindLiveTail(entries: seq<Entry>, key: Key, limit: real)
    requires entries != []
    ensures entries[0].lastSeen <= limit ==> (BehindLive(entries, key, limit) <==> BehindLive(entries[1..], key, limit))
    ensures entries[0].lastSeen > limit ==>
              (BehindLive(entries, key, limit) <==>
               exists j :: 0 < j < |entries| && entries[j].key == key && entries[j].lastSeen <= limit)
  {
    var rest := entries[1..];
    if BehindLive(rest, key, limit) {
      var i, j :| 0 <= i < j < |rest| && rest[i].lastSeen > limit && rest[j].key == key && rest[j].lastSeen <= limit;
      assert entries[i + 1] == rest[i] && entries[j + 1] == rest[j];
    }
    if entries[0].lastSeen <= limit && BehindLive(entries, key, limit) {
      var i, j :| 0 <= i < j < |entries| && entries[i].lastSeen > limit && entries[j].key == key && entries[j].lastSeen <= limit;
      assert rest[i - 1] == entries[i] && rest[j - 1] == entries[j];
    }
  }

  /** For a single key front purging is exact if and only if its entry is not expired behind a live one;
      otherwise the expired entry stays. */
  lemma {:induction false} PurgedKeyIff(entries: seq<Entry>, limit: real, key: Key)
    requires OneEach(entries)
    ensures OneEach(PurgeFront(entries, limit))
    ensures Find(PurgeFront(entries, limit), key) ==
            if BehindLive(entries, key, limit) then Find(entries, key) else Find(Live(entries, limit), key)
    ensures BehindLive(entries, key, limit) ==>
              && Find(entries, key).Some? && Find(entries, key).value.lastSeen <= limit
              && Find(Live(entries, limit), key) == None
  {
    FindLive(entries, limit, key);
    if entries != [] {
      BehindLiveTail(entries, key, limit);
      OneEachTail(entries);
      if entries[0].lastSeen <= limit {
        PurgedKeyIff(entries[1..], limit, key);
        FindLive(entries[1..], limit, key);
        if entries[0].key == key {
          NotBehind(entries[1..], key, limit);
        }
      } else {
        StaleIsFound(entries, key, limit);
      }
    }
  }

  lemma {:induction false} NotBehind(entries: seq<Entry>, key: Key, limit: real)
    requires Find(entries, key) == None
    ensures !BehindLive(entries, key, limit)
  {
    FindListed(entries, key);
  }

  lemma {:induction false} StaleIsFound(entries: seq<Entry>, key: Key, limit: real)
    requires entries != [] && OneEach(entries) && entries[0].lastSeen > limit
    ensures (exists j :: 0 < j < |entries| && entries[j].key == key && entries[j].lastSeen <= limit) <==>
            Find(entries, key).Some? && Find(entries, key).value.lastSeen <= limit
  {
    FindListed(entries, key);
    if Find(entries, key).Some? {
      var i :| 0 <= i < |entries| && entries[i] == Find(entries, key).value;
      assert forall j :: 0 <= j < |entries| && entries[j].key == key ==> j == i;
    }
  }

  // ---- Recording ---------------------------------------------------------------------------------

  ghost predicate DistinctKeys(buckets: seq<Bucket>) {
    forall i, j :: 0 <= i < j < |buckets| ==> buckets[i].0 != buckets[j].0
  }

  ghost predicate Names(buckets: seq<Bucket>, key: Key) {
    exists i :: 0 <= i < |buckets| && buckets[i].0 == key
  }

  lemma NamesTail(buckets: seq<Bucket>, key: Key)
    requires buckets != []
    ensures Names(buckets, key) <==> buckets[0].0 == key || Names(buckets[1..], key)
  {
    assert forall i :: 0 < i < |buckets| ==> buckets[i] == buckets[1..][i - 1];
  }

  /** Counting a failure changes only its own key. */
  lemma {:induction false} TouchFind(entries: seq<Entry>, b: Bucket, now: real)
    requires OneEach(entries)
    ensures OneEach(Touch(entries, b, now))
    ensures forall key :: Find(Touch(entries, b, now), key) ==
                          if key == b.0 then Some(Bumped(entries, b, now)) else Find(entries, key)
  {
    WithoutOneEach(entries, b.0);
    WithoutMembers(entries, b.0);
    var rest := Without(entries, b.0);
    forall j | 0 <= j < |rest| ensures rest[j].key != b.0 {
      assert rest[j] in rest;
    }
    forall key ensures Find(Touch(entries, b, now), key) ==
                       if key == b.0 then Some(Bumped(entries, b, now)) else Find(entries, key)
    {
      FindWithout(entries, b.0, key);
      FindAppend(rest, Bumped(entries, b, now), key);
    }
  }

  /** Every bucket of the attempt is counted once; other keys keep their entry. */
  lemma {:induction false} TouchAllFind(entries: seq<Entry>, buckets: seq<Bucket>, now: real)
    requires OneEach(entries) && DistinctKeys(buckets)
    ensures OneEach(TouchAll(entries, buckets, now))
    ensures forall i :: 0 <= i < |buckets| ==>
              Find(TouchAll(entries, buckets, now), buckets[i].0) == Some(Bumped(entries, buckets[i], now))
    ensures forall key :: !Names(buckets, key) ==> Find(TouchAll(entries, buckets, now), key) == Find(entries, key)
    decreases |buckets|
  {
    if buckets != [] {
      var next, rest := Touch(entries, buckets[0], now), buckets[1..];
      TouchFind(entries, buckets[0], now);
      TouchAllFind(next, rest, now);
      assert !Names(rest, buckets[0].0);
      forall i | 0 < i < |buckets| ensures Find(TouchAll(entries, buckets, now), buckets[i].0) == Some(Bumped(entries, buckets[i], now)) {
        assert buckets[i] == rest[i - 1];
      }
      forall key | !Names(buckets, key) ensures !Names(rest, key) && key != buckets[0].0 {
        NamesTail(buckets, key);
      }
    }
  }

  /** Counting failures keeps the order while times do not decrease. */
  lemma {:induction false} TouchAllInOrder(entries: seq<Entry>, buckets: seq<Bucket>, before: real, now: real)
    requires InOrder(entries, before) && before <= now
    ensures InOrder(TouchAll(entries, buckets, now), now)
    decreases |buckets|
  {
    if buckets != [] {
      WithoutInOrder(entries, buckets[0].0, before);
      TouchAllInOrder(Touch(entries, buckets[0], now), buckets[1..], now, now);
    }
  }

  /** The entry of the key, if any, is among the last d. */
  ghost predicate NearEnd(entries: seq<Entry>, key: Key, d: nat) {
    forall i :: 0 <= i < |entries| && entries[i].key == key ==> |entries| - i <= d
  }

  lemma {:induction false} WithoutNearEnd(entries: seq<Entry>, gone: Key, key: Key, d: nat)
    requires NearEnd(entries, key, d)
    ensures NearEnd(Without(entries, gone), key, d) && |Without(entries, gone)| <= |entries|
  {
    if entries != [] {
      var rest := entries[1..];
      forall i | 0 <= i < |rest| && rest[i].key == key ensures |rest| - i <= d {
        assert entries[i + 1] == rest[i];
      }
      WithoutNearEnd(rest, gone, key, d);
    }
  }

  lemma {:induction false} TouchedNearEnd(entries: seq<Entry>, buckets: seq<Bucket>, now: real, key: Key, d: nat)
    requires Names(buckets, key) || NearEnd(entries, key, d)
    ensures NearEnd(TouchAll(entries, buckets, now), key, d + |buckets|)
    decreases |buckets|
  {
    if buckets != [] {
      var next, rest := Touch(entries, buckets[0], now), buckets[1..];
      if buckets[0].0 == key {
        WithoutMembers(entries, key);
        forall i | 0 <= i < |next| - 1 ensures next[i].key != key {
          assert next[i] in Without(entries, key);
        }
      } else if NearEnd(entries, key, d) {
        WithoutNearEnd(entries, buckets[0].0, key, d);
      } else {
        var i :| 0 <= i < |buckets| && buckets[i].0 == key;
        assert rest[i - 1].0 == key;
      }
      if !Names(rest, key) || NearEnd(next, key, d + 1) {
        TouchedNearEnd(next, rest, now, key, d + 1);
      } else {
        TouchedNearEnd(next, rest, now, key, d);
      }
    }
  }

  /** Dropping the first entries loses only keys found among them. */
  lemma {:induction false} FindDropped(entries: seq<Entry>, cut: nat, key: Key) returns (k: nat)
    requires cut <= |entries| && OneEach(entries)
    ensures Find(entries[cut..], key) != Find(entries, key) ==>
              Find(entries[cut..], key) == None && k < cut && Find(entries, key) == Some(entries[k])
  {
    k := 0;
    if cut == 0 {
      assert entries[0..] == entries;
    } else {
      OneEachTail(entries);
      assert entries[1..][cut - 1..] == entries[cut..];
      var m := FindDropped(entries[1..], cut - 1, key);
      k := if entries[0].key == key then 0 else m + 1;
    }
  }

  ghost predicate NoneOlder(entries: seq<Entry>, time: real) {
    forall i :: 0 <= i < |entries| ==> time <= entries[i].lastSeen
  }

  lemma DroppedIsOldest(entries: seq<Entry>, now: real, k: nat)
    requires InOrder(entries, now) && k + MAX_ENTRIES < |entries|
    ensures NoneOlder(Trim(entries), entries[k].lastSeen)
  {
    var cut := |entries| - MAX_ENTRIES;
    forall i | 0 <= i < MAX_ENTRIES ensures entries[k].lastSeen <= entries[cut..][i].lastSeen {
      assert entries[cut..][i] == entries[cut + i];
    }
  }

  lemma {:induction false} DroppedIsFar(entries: seq<Entry>, key: Key, k: nat)
    requires k + MAX_ENTRIES < |entries| && Find(entries, key) == Some(entries[k])
    ensures !NearEnd(entries, key, MAX_ENTRIES)
  {
    FindListed(entries, key);
  }

  /** A key that trimming loses had no entry near the end, and in a dictionary in order one no newer
      than any survivor's. */
  lemma {:induction false} TrimLoses(entries: seq<Entry>, key: Key)
    requires OneEach(entries) && Find(Trim(entries), key) != Find(entries, key)
    ensures |entries| > MAX_ENTRIES && Find(Trim(entries), key) == None && Find(entries, key).Some?
    ensures !NearEnd(entries, key, MAX_ENTRIES)
    ensures forall now :: InOrder(entries, now) ==> NoneOlder(Trim(entries), Find(entries, key).value.lastSeen)
  {
    var k := FindDropped(entries, |entries| - MAX_ENTRIES, key);
    DroppedIsFar(entries, key, k);
    forall now | InOrder(entries, now) ensures NoneOlder(Trim(entries), Find(entries, key).value.lastSeen) {
      DroppedIsOldest(entries, now, k);
    }
  }

  lemma TrimOneEach(entries: seq<Entry>)
    requires OneEach(entries)
    ensures OneEach(Trim(entries)) && |Trim(entries)| <= MAX_ENTRIES
  {
  }

  lemma TrimInOrder(entries: seq<Entry>, now: real)
    requires InOrder(entries, now)
    ensures InOrder(Trim(entries), now)
  {
  }

  /** The entry of a key that has not expired. */
  function LiveEntry(entries: seq<Entry>, key: Key, now: real): Option<Entry> {
    Find(Live(entries, now - TTL), key)
  }

  /** The entry of a key that front purging at `now` leaves. */
  function LeftEntry(entries: seq<Entry>, key: Key, now: real): Option<Entry> {
    Find(PurgeFront(entries, now - TTL), key)
  }

  /** Recording a failure, whatever times were recorded before, keeps one entry per key and the size
      bound, and counts each of the attempt's keys on from what purging left of it. */
  lemma {:induction false} RecordNamed(entries: seq<Entry>, buckets: seq<Bucket>, now: real, i: nat)
    requires OneEach(entries) && DistinctKeys(buckets) && |buckets| <= MAX_ENTRIES && i < |buckets|
    ensures Find(Recorded(entries, buckets, now), buckets[i].0)
            == Some(Bumped(PurgeFront(entries, now - TTL), buckets[i], now))
  {
    var left := PurgeFront(entries, now - TTL);
    PurgedKeyIff(entries, now - TTL, buckets[i].0);
    TouchAllFind(left, buckets, now);
    var touched := TouchAll(left, buckets, now);
    TouchedNearEnd(left, buckets, now, buckets[i].0, 0);
    if Find(Trim(touched), buckets[i].0) != Find(touched, buckets[i].0) {
      TrimLoses(touched, buckets[i].0);
    }
  }

  /** A key the attempt does not name keeps what purging left, unless the bound is hit. */
  lemma {:induction false} RecordOther(entries: seq<Entry>, buckets: seq<Bucket>, now: real, key: Key)
    requires OneEach(entries) && DistinctKeys(buckets) && !Names(buckets, key)
    ensures var r := Recorded(entries, buckets, now);
            && (Find(r, key) == LeftEntry(entries, key, now) || (Find(r, key) == None && |r| == MAX_ENTRIES))
            && forall before :: InOrder(entries, before) && before <= now && Find(r, key) != LeftEntry(entries, key, now) ==>
                 NoneOlder(r, LeftEntry(entries, key, now).value.lastSeen)
  {
    var left := PurgeFront(entries, now - TTL);
    PurgedKeyIff(entries, now - TTL, key);
    TouchAllFind(left, buckets, now);
    var touched := TouchAll(left, buckets, now);
    if Find(Trim(touched), key) != Find(touched, key) {
      TrimLoses(touched, key);
      forall before | InOrder(entries, before) && before <= now ensures InOrder(touched, now) {
        FrontPurgeIsFilter(entries, now - TTL, before);
        TouchAllInOrder(left, buckets, before, now);
      }
    }
  }

  lemma RecordShape(entries: seq<Entry>, buckets: seq<Bucket>, now: real)
    requires OneEach(entries) && DistinctKeys(buckets)
    ensures OneEach(Recorded(entries, buckets, now)) && |Recorded(entries, buckets, now)| <= MAX_ENTRIES
    ensures forall before :: InOrder(entries, before) && before <= now ==> InOrder(Recorded(entries, buckets, now), now)
  {
    var left := PurgeFront(entries, now - TTL);
    PurgedKeyIff(entries, now - TTL, 0);
    TouchAllFind(left, buckets, now);
    TrimOneEach(TouchAll(left, buckets, now));
    forall before | InOrder(entries, before) && before <= now ensures InOrder(Recorded(entries, buckets, now), now) {
      FrontPurgeIsFilter(entries, now - TTL, before);
      TouchAllInOrder(left, buckets, before, now);
      TrimInOrder(TouchAll(left, buckets, now), now);
    }
  }

  /** After a failed login, whatever times were recorded before: one entry per key within the size bound;
      each of the attempt's keys counts one more than its unexpired failures, unless its entry was
      expired behind a live one; every other key has its unexpired entry unchanged, unless the bound was
      hit or its expired entry sat behind a live one. And a dictionary in order of times no later than
      this one stays in order, and loses to the bound only entries no newer than any survivor. */
  lemma {:induction false} RecordKeeps(entries: seq<Entry>, buckets: seq<Bucket>, now: real)
    requires OneEach(entries) && DistinctKeys(buckets) && |buckets| <= MAX_ENTRIES
    ensures var r, limit := Recorded(entries, buckets, now), now - 300.0;
            && OneEach(r) && |r| <= 4096
            && (forall i :: 0 <= i < |buckets| ==>
                  && Find(r, buckets[i].0).Some? && Find(r, buckets[i].0).value.lastSeen == now
                  && (!BehindLive(entries, buckets[i].0, limit) ==>
                        Find(r, buckets[i].0).value.failures == Failures(LiveEntry(entries, buckets[i].0, now)) + 1))
            && (forall key :: !Names(buckets, key) && !BehindLive(entries, key, limit) ==>
                  Find(r, key) == LiveEntry(entries, key, now) || (Find(r, key) == None && |r| == 4096))
            && (forall before :: InOrder(entries, before) && before <= now ==>
                  && InOrder(r, now)
                  && forall key :: !Names(buckets, key) && Find(r, key) != LiveEntry(entries, key, now) ==>
                       NoneOlder(r, LiveEntry(entries, key, now).value.lastSeen))
  {
    var r, limit := Recorded(entries, buckets, now), now - TTL;
    RecordShape(entries, buckets, now);
    forall key ensures LeftEntry(entries, key, now) == if BehindLive(entries, key, limit) then Find(entries, key) else LiveEntry(entries, key, now) {
      PurgedKeyIff(entries, limit, key);
    }
    forall i | 0 <= i < |buckets| ensures Find(r, buckets[i].0) == Some(Bumped(PurgeFront(entries, limit), buckets[i], now)) {
      RecordNamed(entries, buckets, now, i);
    }
    forall key | !Names(buckets, key)
      ensures Find(r, key) == LeftEntry(entries, key, now) || (Find(r, key) == None && |r| == MAX_ENTRIES)
    {
      RecordOther(entries, buckets, now, key);
    }
    forall before, key | InOrder(entries, before) && before <= now && !Names(buckets, key) && Find(r, key) != LiveEntry(entries, key, now)
      ensures NoneOlder(r, LiveEntry(entries, key, now).value.lastSeen)
    {
      RecordOther(entries, buckets, now, key);
      FrontPurgeIsFilter(entries, limit, before);
    }
  }

  /** A locked key: some entry of it is locked beyond t. */
  lemma {:induction false} LockedIff(entries: seq<Entry>, keys: seq<Key>, t: real)
    requires OneEach(entries)
    ensures Locked(entries, keys, t) <==>
            exists k, j :: 0 <= k < |keys| && 0 <= j < |entries| && entries[j].key == keys[k] && entries[j].lockedUntil > t
  {
    forall k | 0 <= k < |keys|
      ensures Find(entries, keys[k]).Some? && Find(entries, keys[k]).value.lockedUntil > t <==>
              exists j :: 0 <= j < |entries| && entries[j].key == keys[k] && entries[j].lockedUntil > t
    {
      FindListed(entries, keys[k]);
    }
  }

  /** After a failed login the lock check finds any list of keys locked if and only if one of them is a key of
      the attempt whose failures left by purging, this one included, reach the bucket's threshold, and less
      than a second has passed, or one that the attempt does not name is still locked. What purging left are
      the unexpired failures, unless the entry was expired behind a live one. */
  lemma {:induction false} LockLastsOneSecond(entries: seq<Entry>, buckets: seq<Bucket>, now: real, keys: seq<Key>, t: real)
    requires OneEach(entries) && DistinctKeys(buckets) && |buckets| <= MAX_ENTRIES && t >= 0.0
    ensures var r := Recorded(entries, buckets, now);
            Locked(r, keys, t) <==>
              || (exists i, k :: 0 <= i < |buckets| && 0 <= k < |keys| && keys[k] == buckets[i].0
                                 && Failures(LeftEntry(entries, keys[k], now)) + 1 >= buckets[i].1 && t < now + 1.0)
              || (exists k, j :: 0 <= k < |keys| && 0 <= j < |r| && r[j].key == keys[k] && !Names(buckets, keys[k])
                                 && r[j].lockedUntil > t)
    ensures forall key :: !BehindLive(entries, key, now - 300.0) ==>
              LeftEntry(entries, key, now) == LiveEntry(entries, key, now)
  {
    var r := Recorded(entries, buckets, now);
    RecordShape(entries, buckets, now);
    LockedIff(r, keys, t);
    forall i, j | 0 <= i < |buckets| && 0 <= j < |r| && r[j].key == buckets[i].0
      ensures r[j].lockedUntil > t <==>
              Failures(LeftEntry(entries, buckets[i].0, now)) + 1 >= buckets[i].1 && t < now + 1.0
    {
      NamedLock(entries, buckets, now, i, j, t);
    }
    forall i | 0 <= i < |buckets| ensures exists j :: 0 <= j < |r| && r[j].key == buckets[i].0 {
      RecordNamed(entries, buckets, now, i);
      FindListed(r, buckets[i].0);
    }
    forall key ensures !BehindLive(entries, key, now - 300.0) ==> LeftEntry(entries, key, now) == LiveEntry(entries, key, now) {
      PurgedKeyIff(entries, now - TTL, key);
    }
  }

  lemma NamedLock(entries: seq<Entry>, buckets: seq<Bucket>, now: real, i: nat, j: nat, t: real)
    requires OneEach(entries) && DistinctKeys(buckets) && |buckets| <= MAX_ENTRIES && i < |buckets| && t >= 0.0
    requires var r := Recorded(entries, buckets, now); j < |r| && r[j].key == buckets[i].0
    ensures Recorded(entries, buckets, now)[j].lockedUntil > t <==>
            Failures(LeftEntry(entries, buckets[i].0, now)) + 1 >= buckets[i].1 && t < now + 1.0
  {
    var r := Recorded(entries, buckets, now);
    RecordShape(entries, buckets, now);
    RecordNamed(entries, buckets, now, i);
    FindListed(r, buckets[i].0);
  }
}
