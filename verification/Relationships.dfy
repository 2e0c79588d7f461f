/** Pairing a new event with its nearest related event (backend/app/services/events.py): access
    failures near a geographic block, and bans that follow access failures. */
module Relationships {
  import opened Wrappers

  const WINDOW: int := 60_000_000

  const ACCESS_FAILURES: seq<string> := ["access.error", "access.denied"]
  const BANS: seq<string> := ["security.ban", "security.ban.manual"]
  const GEO_BLOCKS: seq<string> := ["security.geoblock"]

  /** Times in microseconds; no address is the empty string; the host is the normalised one. */
  datatype Event = Event(id: nat, ip: string, eventType: string, time: int, asset: Option<nat>, host: Option<string>)

  datatype Relation = BlockedRequest | BanAfterAccess

  function SecurityTypes(relation: Relation): seq<string> {
    if relation.BlockedRequest? then GEO_BLOCKS else BANS
  }

  predicate IsAccess(e: Event) { e.eventType in ACCESS_FAILURES }

  /** No known asset and no known host of the two differ. */
  predicate Compatible(left: Event, right: Event) {
    && !(left.asset.Some? && right.asset.Some? && left.asset != right.asset)
    && !(left.host.Some? && right.host.Some? && left.host != right.host)
  }

  predicate Applies(e: Event, relation: Relation) {
    IsAccess(e) || e.eventType in SecurityTypes(relation)
  }

  /** The query's filter. */
  predicate Candidate(e: Event, relation: Relation, c: Event) {
    && c.id != e.id && c.ip == e.ip
    && c.eventType in (if IsAccess(e) then SecurityTypes(relation) else ACCESS_FAILURES)
    && (if relation.BanAfterAccess? && IsAccess(e) then e.time else e.time - WINDOW) <= c.time
    && c.time <= (if relation.BanAfterAccess? && !IsAccess(e) then e.time else e.time + WINDOW)
  }

  predicate Related(e: Event, relation: Relation, c: Event) {
    Candidate(e, relation, c) && Compatible(e, c)
  }

  function Gap(e: Event, c: Event): nat {
    if c.time < e.time then e.time - c.time else c.time - e.time
  }

  /** Nearer in time, then the smaller id. */
  predicate NoFarther(e: Event, a: Event, b: Event) {
    Gap(e, a) < Gap(e, b) || (Gap(e, a) == Gap(e, b) && a.id <= b.id)
  }

  /** Nearer: strictly between the other event and its mirror image in time; or at either of them, with no
      larger id. */
  lemma NoFartherIff(e: Event, a: Event, b: Event)
    ensures var mirror := 2 * e.time - b.time;
            NoFarther(e, a, b) <==>
              || b.time < a.time < mirror || mirror < a.time < b.time
              || ((a.time == b.time || a.time == mirror) && a.id <= b.id)
  {
  }

  // ---- The two ordered streams --------------------------------------------------------------------

  /** `ORDER BY event_time DESC, id`, or `ORDER BY event_time, id`. */
  predicate Earlier(descending: bool, a: Event, b: Event) {
    || (if descending then a.time > b.time else a.time < b.time)
    || (a.time == b.time && a.id <= b.id)
  }

  function Insert(descending: bool, x: Event, rows: seq<Event>): seq<Event> {
    if rows == [] || Earlier(descending, x, rows[0]) then [x] + rows
    else [rows[0]] + Insert(descending, x, rows[1..])
  }

  /** The candidates at or before the event's time, latest first; or those after it, earliest first. */
  function Stream(table: seq<Event>, e: Event, relation: Relation, before: bool): seq<Event> {
    if table == [] then []
    else
      var rest := Stream(table[1..], e, relation, before);
      if Candidate(e, relation, table[0]) && (table[0].time <= e.time) == before
      then Insert(before, table[0], rest)
      else rest
  }

  ghost predicate InOrder(descending: bool, rows: seq<Event>) {
    forall i, j :: 0 <= i < j < |rows| ==> Earlier(descending, rows[i], rows[j])
  }

  lemma {:induction false} InsertKeeps(descending: bool, x: Event, rows: seq<Event>)
    requires InOrder(descending, rows)
    ensures InOrder(descending, Insert(descending, x, rows))
    ensures forall c :: c in Insert(descending, x, rows) <==> c == x || c in rows
  {
    if !(rows == [] || Earlier(descending, x, rows[0])) {
      var rest := Insert(descending, x, rows[1..]);
      InsertKeeps(descending, x, rows[1..]);
      assert rows == [rows[0]] + rows[1..];
      forall j | 0 <= j < |rest| ensures Earlier(descending, rows[0], rest[j]) {
        assert rest[j] in rest;
        if rest[j] in rows[1..] {
          var k :| 0 <= k < |rows[1..]| && rows[1..][k] == rest[j];
          assert rows[k + 1] == rest[j];
        }
      }
    }
  }

  lemma {:induction false} StreamIsOrdered(table: seq<Event>, e: Event, relation: Relation, before: bool)
    ensures InOrder(before, Stream(table, e, relation, before))
    ensures forall c :: c in Stream(table, e, relation, before) <==>
                        c in table && Candidate(e, relation, c) && (c.time <= e.time) == before
  {
    if table != [] {
      StreamIsOrdered(table[1..], e, relation, before);
      assert table == [table[0]] + table[1..];
      if Candidate(e, relation, table[0]) && (table[0].time <= e.time) == before {
        InsertKeeps(before, table[0], Stream(table[1..], e, relation, before));
      }
    }
  }

  /** On either side of the event a stream's order is the order of nearness. */
  lemma StreamIsByNearness(rows: seq<Event>, e: Event, before: bool, i: nat, j: nat)
    requires InOrder(before, rows) && i < j < |rows|
    requires (rows[i].time <= e.time) == before && (rows[j].time <= e.time) == before
    ensures NoFarther(e, rows[i], rows[j])
  {
    assert Earlier(before, rows[i], rows[j]);
  }

  // ---- The nearest related event ------------------------------------------------------------------

  ghost predicate IsNearest(table: seq<Event>, e: Event, relation: Relation, p: Event) {
    && p in table && Related(e, relation, p)
    && forall c :: c in table && Related(e, relation, c) ==> NoFarther(e, p, c)
  }

  ghost predicate NoneRelated(table: seq<Event>, e: Event, relation: Relation) {
    forall c :: c in table ==> !Related(e, relation, c)
  }

  /** The first compatible row of one stream: the nearest related event on that side. */
  method FirstCompatible(table: seq<Event>, e: Event, relation: Relation, before: bool) returns (p: Option<Event>)
    ensures p.None? ==> forall c :: c in table && (c.time <= e.time) == before ==> !Related(e, relation, c)
    ensures p.Some? ==> p.value in table && Related(e, relation, p.value) && (p.value.time <= e.time) == before
    ensures p.Some? ==> forall c :: c in table && Related(e, relation, c) && (c.time <= e.time) == before ==>
                                    NoFarther(e, p.value, c)
  {
    var rows := Stream(table, e, relation, before);
    StreamIsOrdered(table, e, relation, before);
    for i := 0 to |rows|
      invariant forall k :: 0 <= k < i ==> !Compatible(e, rows[k])
    {
      assert rows[i] in rows;
      if Compatible(e, rows[i]) {
        forall c | c in table && Related(e, relation, c) && (c.time <= e.time) == before
          ensures NoFarther(e, rows[i], c)
        {
          assert c in rows;
          var k :| 0 <= k < |rows| && rows[k] == c;
          if i < k {
            StreamIsByNearness(rows, e, before, i, k);
          }
        }
        return Some(rows[i]);
      }
    }
    return None;
  }

  /** Streaming past the incompatible rows on both sides and taking the nearer of the two finds the
      nearest of all related events, and finds none only when there is none. */
  method NearestRelated(table: seq<Event>, e: Event, relation: Relation) returns (partner: Option<Event>)
    ensures partner.None? <==> NoneRelated(table, e, relation)
    ensures partner.Some? ==> IsNearest(table, e, relation, partner.value)
  {
    var before := FirstCompatible(table, e, relation, true);
    var after := FirstCompatible(table, e, relation, false);
    if before.None? {
      return after;
    }
    if after.None? || NoFarther(e, before.value, after.value) {
      return before;
    }
    return after;
  }

  /** Ids identify events, so the nearest related event is unique. */
  lemma {:induction false} NearestIsUnique(table: seq<Event>, e: Event, relation: Relation, p: Event, q: Event)
    requires forall i, j :: 0 <= i < j < |table| ==> table[i].id != table[j].id
    requires IsNearest(table, e, relation, p) && IsNearest(table, e, relation, q)
    ensures p == q
  {
    assert NoFarther(e, p, q) && NoFarther(e, q, p);
    var i :| 0 <= i < |table| && table[i] == p;
    var j :| 0 <= j < |table| && table[j] == q;
  }

  // ---- Whichever arrives first ---------------------------------------------------------------------

  /** What the filter selects, told without saying which of the two rows is the new one: one row is
      an access failure, the other of the relation's security types, with the same address and at
      most a minute apart - and for a ban the access never after it. */
  lemma CandidateIff(e: Event, relation: Relation, c: Event)
    requires Applies(e, relation)
    ensures var access, other := if IsAccess(e) then e else c, if IsAccess(e) then c else e;
            Candidate(e, relation, c) <==>
              && c.id != e.id && access.ip == other.ip
              && access.eventType in ACCESS_FAILURES && other.eventType in SecurityTypes(relation)
              && access.time <= other.time + (if relation.BanAfterAccess? then 0 else WINDOW)
              && other.time <= access.time + WINDOW
  {
  }

  /** When two events are related, field by field: different rows with the same address, one an access
      error or denial and the other a geographic block or a ban, at most a minute apart and for a ban the
      access not after it; and no asset or host that both know and in which they differ. */
  lemma {:induction false} RelatedIff(e: Event, relation: Relation, c: Event)
    ensures var access, other := if IsAccess(e) then e else c, if IsAccess(e) then c else e;
            Applies(e, relation) && Related(e, relation, c) <==>
              && c.id != e.id && c.ip == e.ip
              && (access.eventType == "access.error" || access.eventType == "access.denied")
              && (if relation.BlockedRequest? then
                    other.eventType == "security.geoblock" && access.time <= other.time + 60_000_000
                  else
                    (other.eventType == "security.ban" || other.eventType == "security.ban.manual") && access.time <= other.time)
              && other.time <= access.time + 60_000_000
              && !(e.asset.Some? && c.asset.Some? && e.asset.value != c.asset.value)
              && !(e.host.Some? && c.host.Some? && e.host.value != c.host.value)
  {
    TypesAre(e);
    TypesAre(c);
    Exclusive(e);
    Exclusive(c);
  }

  lemma TypesAre(e: Event)
    ensures e.eventType in ACCESS_FAILURES <==> e.eventType == "access.error" || e.eventType == "access.denied"
    ensures e.eventType in BANS <==> e.eventType == "security.ban" || e.eventType == "security.ban.manual"
    ensures e.eventType in GEO_BLOCKS <==> e.eventType == "security.geoblock"
  {
    assert ACCESS_FAILURES[0] == "access.error" && ACCESS_FAILURES[1] == "access.denied";
    assert BANS[0] == "security.ban" && BANS[1] == "security.ban.manual" && GEO_BLOCKS[0] == "security.geoblock";
  }

  /** Being related does not depend on which of the two arrives first. */
  lemma {:induction false} RelatedEitherWay(a: Event, b: Event, relation: Relation)
    ensures Applies(a, relation) && Related(a, relation, b) <==> Applies(b, relation) && Related(b, relation, a)
  {
    Exclusive(a);
    Exclusive(b);
    assert Compatible(a, b) == Compatible(b, a);
  }

  /** No event type is both an access failure and a security type. */
  lemma Exclusive(e: Event)
    ensures IsAccess(e) ==> e.eventType !in BANS && e.eventType !in GEO_BLOCKS
  {
    if IsAccess(e) {
      assert e.eventType[0] == 'a';
      assert forall t :: t in BANS || t in GEO_BLOCKS ==> t[0] == 's';
    }
  }

  // ---- All relations of one new event --------------------------------------------------------------

  /** A recorded pair: its ids in ascending order, and the time of the later of the two. */
  datatype Pair = Pair(relation: Relation, low: nat, high: nat, occurredAt: int)

  function PairOf(relation: Relation, e: Event, p: Event): Pair {
    Pair(relation, if e.id < p.id then e.id else p.id, if e.id < p.id then p.id else e.id,
         if e.time < p.time then p.time else e.time)
  }

  /** The pair of two rows, smaller id first, at the time of the later. */
  lemma PairIs(relation: Relation, e: Event, p: Event)
    requires e.id != p.id
    ensures var pair := PairOf(relation, e, p);
            && pair.relation == relation && pair.low < pair.high && {pair.low, pair.high} == {e.id, p.id}
            && pair.occurredAt >= e.time && pair.occurredAt >= p.time && pair.occurredAt in {e.time, p.time}
  {
  }

  ghost predicate Finds(table: seq<Event>, e: Event, relation: Relation) {
    e.ip != "" && Applies(e, relation) && !NoneRelated(table, e, relation)
  }

  /** An event finds a partner when it has an address and some stored event is related to it. */
  lemma FindsIff(table: seq<Event>, e: Event, relation: Relation)
    ensures Finds(table, e, relation) <==>
            e.ip != "" && exists k :: 0 <= k < |table| && Applies(e, relation) && Related(e, relation, table[k])
  {
    if c :| c in table && Related(e, relation, c) {
      var k :| 0 <= k < |table| && table[k] == c;
    }
    assert forall k :: 0 <= k < |table| ==> table[k] in table;
  }

  ghost predicate IsFinding(table: seq<Event>, e: Event, pair: Pair) {
    && Finds(table, e, pair.relation)
    && exists p :: IsNearest(table, e, pair.relation, p) && pair == PairOf(pair.relation, e, p)
  }

  ghost predicate Reports(pairs: seq<Pair>, relation: Relation) {
    exists i :: 0 <= i < |pairs| && pairs[i].relation == relation
  }

  const RELATIONS: seq<Relation> := [BlockedRequest, BanAfterAccess]

  /** At most one pair per relation, and one exactly when the event has a related row: the pair with
      the nearest. */
  method CreateRelationshipInsights(table: seq<Event>, e: Event) returns (pairs: seq<Pair>)
    ensures forall i :: 0 <= i < |pairs| ==> IsFinding(table, e, pairs[i])
    ensures forall i, j :: 0 <= i < j < |pairs| ==> pairs[i].relation != pairs[j].relation
    ensures forall relation :: Reports(pairs, relation) <==> Finds(table, e, relation)
    ensures e.ip == "" ==> pairs == []
  {
    pairs := [];
    if e.ip == "" {
      return;
    }
    for k := 0 to 2
      invariant forall i :: 0 <= i < |pairs| ==> IsFinding(table, e, pairs[i])
      invariant k == 0 ==> pairs == []
      invariant forall i :: 0 <= i < |pairs| && pairs[i].relation == RELATIONS[1] ==> k == 2
      invariant forall i, j :: 0 <= i < j < |pairs| ==> pairs[i].relation != pairs[j].relation
      invariant forall m :: 0 <= m < k && Finds(table, e, RELATIONS[m]) ==> Reports(pairs, RELATIONS[m])
    {
      var relation := RELATIONS[k];
      if Applies(e, relation) {
        var partner := NearestRelated(table, e, relation);
        if partner.Some? {
          var pair := PairOf(relation, e, partner.value);
          assert IsFinding(table, e, pair);
          ReportsMore(pairs, pair);
          pairs := pairs + [pair];
        }
      }
    }
    assert RELATIONS[0] == BlockedRequest && RELATIONS[1] == BanAfterAccess;
  }

  lemma ReportsMore(pairs: seq<Pair>, pair: Pair)
    ensures forall relation :: Reports(pairs + [pair], relation) <==> relation == pair.relation || Reports(pairs, relation)
  {
    forall relation ensures Reports(pairs + [pair], relation) <==> relation == pair.relation || Reports(pairs, relation) {
      assert (pairs + [pair])[|pairs|] == pair;
      assert forall i :: 0 <= i < |pairs| ==> (pairs + [pair])[i] == pairs[i];
    }
  }

  // ---- Two orders of arrival -----------------------------------------------------------------------

  ghost predicate DistinctIds(table: seq<Event>) {
    forall i, j :: 0 <= i < j < |table| ==> table[i].id != table[j].id
  }

  /** Storing `second` while `first` and the table are there records the pair of the two. */
  ghost predicate Records(table: seq<Event>, first: Event, second: Event, relation: Relation) {
    IsFinding(table + [first], second, PairOf(relation, first, second))
  }

  /** Nothing in the table is a nearer related event of e than p. */
  ghost predicate NoneNearer(table: seq<Event>, e: Event, relation: Relation, p: Event) {
    forall c :: c in table && Related(e, relation, c) ==> NoFarther(e, p, c)
  }

  lemma PairNames(relation: Relation, a: Event, b: Event, p: Event)
    requires PairOf(relation, a, b) == PairOf(relation, b, p)
    ensures p.id == a.id
  {
  }

  /** The second of two events records the pair with the first if and only if they are related and the
      table holds no nearer related event of the second. */
  lemma {:induction false} RecordsIff(table: seq<Event>, first: Event, second: Event, relation: Relation)
    requires DistinctIds(table + [first]) && second.ip != ""
    ensures Records(table, first, second, relation) <==>
            && Applies(second, relation) && Related(second, relation, first) && NoneNearer(table, second, relation, first)
  {
    var all := table + [first];
    assert all[|table|] == first && first in all;
    assert forall c :: c in all <==> c in table || c == first;
    if Records(table, first, second, relation) {
      var p :| IsNearest(all, second, relation, p) && PairOf(relation, first, second) == PairOf(relation, second, p);
      PairNames(relation, first, second, p);
      var k :| 0 <= k < |all| && all[k] == p;
      assert p == first;
    }
    if Applies(second, relation) && Related(second, relation, first) && NoneNearer(table, second, relation, first) {
      assert IsNearest(all, second, relation, first);
      assert PairOf(relation, first, second) == PairOf(relation, second, first);
    }
  }

  /** Both orders of arrival of two events on one table record their pair, and the same one, if and only
      if they are related and neither has a nearer related event in the table. */
  lemma {:induction false} SamePairEitherWay(table: seq<Event>, a: Event, b: Event, relation: Relation)
    requires DistinctIds(table + [a]) && DistinctIds(table + [b]) && a.ip != "" && b.ip != "" && a.id != b.id
    ensures PairOf(relation, a, b) == PairOf(relation, b, a)
    ensures Records(table, a, b, relation) && Records(table, b, a, relation) <==>
            && Applies(a, relation) && Related(a, relation, b)
            && NoneNearer(table, a, relation, b) && NoneNearer(table, b, relation, a)
  {
    RecordsIff(table, a, b, relation);
    RecordsIff(table, b, a, relation);
    RelatedEitherWay(a, b, relation);
  }

  /** A block at 10 s, an access failure at 0 s and another at 9 s: if the first failure arrives last it is
      paired with the block, if the block arrives last it is paired with the nearer failure. */
  lemma OrderMatters()
    ensures var access := Event(1, "192.0.2.1", "access.error", 0, None, None);
            var block := Event(2, "192.0.2.1", "security.geoblock", 10_000_000, None, None);
            var nearer := Event(3, "192.0.2.1", "access.error", 9_000_000, None, None);
            Records([nearer], block, access, BlockedRequest) && !Records([nearer], access, block, BlockedRequest)
  {
    var access := Event(1, "192.0.2.1", "access.error", 0, None, None);
    var block := Event(2, "192.0.2.1", "security.geoblock", 10_000_000, None, None);
    var nearer := Event(3, "192.0.2.1", "access.error", 9_000_000, None, None);
    Exclusive(access);
    Exclusive(nearer);
    assert "security.geoblock" in GEO_BLOCKS && "access.error" in ACCESS_FAILURES;
    assert block.eventType !in ACCESS_FAILURES by {
      assert ACCESS_FAILURES[0][0] == 'a' && ACCESS_FAILURES[1][0] == 'a' && block.eventType[0] == 's';
    }
    RecordsIff([nearer], block, access, BlockedRequest);
    RecordsIff([nearer], access, block, BlockedRequest);
    assert nearer in [nearer] && Related(block, BlockedRequest, nearer) && !NoFarther(block, access, nearer);
    assert Related(access, BlockedRequest, block);
    assert !Related(access, BlockedRequest, nearer);
  }
}
