/** The paged insight download (backend/app/api/insights.py): a fixed time window walked by
    descending (display time, id) with an opaque cursor. */
module InsightPages {
  import opened Wrappers
  import opened Keyset

  /** Times are UTC microseconds. */
  const MAX_PERIOD: int := 30 * 24 * 3600 * 1_000_000
  const ONE_DAY: int := 24 * 3600 * 1_000_000
  const MAX_ID: int := 0x7fff_ffff_ffff_ffff

  datatype Row = Row(id: int, occurredAt: Option<int>, timestamp: int, kind: string) {
    /** `coalesce(occurred_at, timestamp)`. */
    function Time(): int { occurredAt.GetOr(timestamp) }

    function Key(): Position { Position(Time(), id) }
  }

  datatype Position = Position(time: int, id: int)

  predicate Below(a: Position, b: Position) {
    a.time < b.time || (a.time == b.time && a.id < b.id)
  }

  /** The table as `ORDER BY display time DESC, id DESC` lists it. */
  ghost predicate Listed(rows: seq<Row>) {
    && (forall i, j :: 0 <= i < j < |rows| ==>
          rows[i].Time() > rows[j].Time() || (rows[i].Time() == rows[j].Time() && rows[i].id > rows[j].id))
    && (forall i :: 0 <= i < |rows| ==> 0 < rows[i].id <= MAX_ID)
  }

  /** What a request asks for once its parameters are checked. */
  datatype Query = Query(lower: int, upper: int, kind: Option<string>, position: Option<Position>)

  predicate Matches(r: Row, q: Query) {
    && q.lower <= r.Time() < q.upper
    && (q.position.Some? ==> Below(r.Key(), q.position.value))
    && (q.kind.Some? ==> r.kind == q.kind.value)
  }

  function Select(rows: seq<Row>, q: Query): seq<Row> {
    if rows == [] then []
    else (if Matches(rows[0], q) then [rows[0]] else []) + Select(rows[1..], q)
  }

  // ---- One request ---------------------------------------------------------------------------------

  /** The decoded cursor; its base64 and JSON form is not modelled. */
  datatype Token = Token(start: int, end: int, kind: Option<string>, time: int, id: int)

  datatype Request = Request(kind: Option<string>, start: Option<int>, end: Option<int>, cursor: Option<Token>)

  /** What the server knows when the request arrives: the clock, the table, which types have a
      definition or a rule, and which texts the type pattern allows. */
  datatype Server = Server(now: int, table: seq<Row>, known: string -> bool, wellFormed: string -> bool)

  predicate KnownKind(s: Server, kind: string) {
    s.wellFormed(kind) && (s.known(kind) || exists r :: r in s.table && r.kind == kind)
  }

  /** The checks of `export_insights`; None stands for the 422 answer. */
  function Checked(s: Server, r: Request): Option<Query> {
    if r.cursor.Some? && (r.kind.Some? || r.start.Some? || r.end.Some?) then None
    else if r.cursor.Some? && !(0 < r.cursor.value.id <= MAX_ID) then None
    else
      var kind := if r.cursor.Some? then r.cursor.value.kind else r.kind;
      var upper := if r.cursor.Some? then r.cursor.value.end else r.end.GetOr(s.now);
      var lower := if r.cursor.Some? then r.cursor.value.start else r.start.GetOr(upper - ONE_DAY);
      if !(0 < upper - lower <= MAX_PERIOD) then None
      else if r.cursor.Some? && !(lower <= r.cursor.value.time < upper) then None
      else if kind.Some? && !KnownKind(s, kind.value) then None
      else Some(Query(lower, upper, kind,
                      if r.cursor.Some? then Some(Position(r.cursor.value.time, r.cursor.value.id)) else None))
  }

  datatype Response = Response(items: seq<Row>, next: Option<Token>)

  function Page(table: seq<Row>, q: Query, limit: nat): Response
    requires limit > 0
  {
    var rows := Take(Select(table, q), limit + 1);
    var items := Take(rows, limit);
    if |rows| > limit then
      var last := items[|items| - 1];
      Response(items, Some(Token(q.lower, q.upper, q.kind, last.Time(), last.id)))
    else Response(items, None)
  }

  function Export(s: Server, r: Request, limit: nat): Option<Response>
    requires limit > 0
  {
    var q := Checked(s, r);
    if q.None? then None else Some(Page(s.table, q.value, limit))
  }

  // ---- One page ------------------------------------------------------------------------------------

  lemma {:induction false} SelectMembers(rows: seq<Row>, q: Query)
    ensures forall r :: r in Select(rows, q) <==> r in rows && Matches(r, q)
  {
    if rows != [] {
      SelectMembers(rows[1..], q);
      assert rows == [rows[0]] + rows[1..];
    }
  }

  lemma {:induction false} SelectListed(rows: seq<Row>, q: Query)
    requires Listed(rows)
    ensures Listed(Select(rows, q))
  {
    if rows != [] {
      var rest := rows[1..];
      SelectListed(rest, q);
      SelectMembers(rest, q);
      var t := Select(rest, q);
      forall j | 0 <= j < |t| ensures Below(t[j].Key(), rows[0].Key()) && 0 < t[j].id <= MAX_ID {
        assert t[j] in rest;
        var k :| 0 <= k < |rest| && rest[k] == t[j];
        assert rows[k + 1] == t[j];
      }
    }
  }

  ghost function NextQuery(q: Query, token: Token): Query {
    q.(position := Some(Position(token.time, token.id)))
  }

  /** The first n rows of a listing are those not below its n-th. */
  lemma PrefixSplits(all: seq<Row>, n: nat)
    requires Listed(all) && 0 < n <= |all|
    ensures Listed(all[..n])
    ensures forall r :: r in all ==> (r in all[..n] <==> !Below(r.Key(), all[n - 1].Key()))
  {
    forall r | r in all && !Below(r.Key(), all[n - 1].Key()) ensures r in all[..n] {
      var k :| 0 <= k < |all| && all[k] == r;
      assert all[..n][k] == r;
    }
    forall m | 0 <= m < n ensures !Below(all[m].Key(), all[n - 1].Key()) {
      assert m < n - 1 ==> Below(all[n - 1].Key(), all[m].Key());
    }
  }

  lemma TakeOneMore<T>(xs: seq<T>, n: nat)
    ensures Take(Take(xs, n + 1), n) == Take(xs, n)
    ensures |Take(xs, n + 1)| > n <==> |xs| > n
  {
  }

  lemma PrefixMembers<T>(items: seq<T>, all: seq<T>)
    requires items <= all
    ensures forall r :: r in items ==> r in all
  {
    forall r | r in items ensures r in all {
      var k :| 0 <= k < |items| && items[k] == r;
      assert all[k] == r;
    }
  }

  /** A page is the first rows of the listing; its cursor points at the last of them. */
  lemma {:induction false} PageIsPrefix(table: seq<Row>, q: Query, limit: nat)
    requires limit > 0
    ensures var p, all := Page(table, q, limit), Select(table, q);
            && p.items == Take(all, limit)
            && (p.next.None? ==> p.items == all)
            && (p.next.Some? ==>
                  && p.items != []
                  && NextQuery(q, p.next.value) ==
                     q.(position := Some(Position(p.items[|p.items| - 1].Time(), p.items[|p.items| - 1].id))))
  {
    TakeOneMore(Select(table, q), limit);
  }

  /** A page lists, in order, rows that match; what matches and is not on it is exactly what the
      cursor still selects. */
  lemma {:induction false} PageSplits(table: seq<Row>, q: Query, limit: nat)
    requires Listed(table) && limit > 0
    ensures var p := Page(table, q, limit);
            && Listed(p.items)
            && (forall r :: r in p.items ==> r in table && Matches(r, q))
            && (p.next.None? ==> forall r :: r in table && Matches(r, q) ==> r in p.items)
            && (p.next.Some? ==>
                  forall r :: r in table && Matches(r, q) ==> (r in p.items <==> !Matches(r, NextQuery(q, p.next.value))))
  {
    var all, p := Select(table, q), Page(table, q, limit);
    SelectMembers(table, q);
    SelectListed(table, q);
    PageIsPrefix(table, q, limit);
    PrefixMembers(p.items, all);
    if p.next.Some? {
      assert p.items == all[..|p.items|];
      PrefixSplits(all, |p.items|);
    }
  }

  /** A later query selects no more than an earlier one. */
  lemma {:induction false} NextNarrows(table: seq<Row>, q: Query, limit: nat)
    requires Listed(table) && limit > 0 && Page(table, q, limit).next.Some?
    ensures var q' := NextQuery(q, Page(table, q, limit).next.value);
            forall r :: Matches(r, q') ==>
              Matches(r, q) && forall item :: item in Page(table, q, limit).items ==> Below(r.Key(), item.Key())
  {
    var p := Page(table, q, limit);
    var q' := NextQuery(q, p.next.value);
    var last := p.items[|p.items| - 1];
    PageSplits(table, q, limit);
    assert last in p.items && Matches(last, q) && q'.position == Some(last.Key());
    forall r | Matches(r, q')
      ensures Matches(r, q) && forall item :: item in p.items ==> Below(r.Key(), item.Key())
    {
      assert Below(r.Key(), last.Key());
      BelowAll(r, p.items);
    }
  }

  lemma BelowAll(r: Row, items: seq<Row>)
    requires Listed(items) && items != [] && Below(r.Key(), items[|items| - 1].Key())
    ensures forall item :: item in items ==> Below(r.Key(), item.Key())
  {
    LastIsLowest(items);
  }

  lemma LastIsLowest(rows: seq<Row>)
    requires Listed(rows) && rows != []
    ensures forall r :: r in rows ==> r == rows[|rows| - 1] || Below(rows[|rows| - 1].Key(), r.Key())
  {
  }

  /** A cursor repeats the checked window and type, and points inside the window. */
  lemma TokenIsInside(s: Server, r: Request, limit: nat)
    requires Listed(s.table) && limit > 0
    requires Export(s, r, limit).Some? && Export(s, r, limit).value.next.Some?
    ensures var q, token := Checked(s, r).value, Export(s, r, limit).value.next.value;
            && token.start == q.lower && token.end == q.upper && token.kind == q.kind
            && q.lower <= token.time < q.upper && 0 < token.id <= MAX_ID
  {
    var q := Checked(s, r).value;
    var p := Page(s.table, q, limit);
    PageSplits(s.table, q, limit);
    var last := p.items[|p.items| - 1];
    assert last in p.items && Matches(last, q);
    IdInRange(s.table, last);
  }

  lemma IdInRange(table: seq<Row>, r: Row)
    requires Listed(table) && r in table
    ensures 0 < r.id <= MAX_ID
  {
    var k :| 0 <= k < |table| && table[k] == r;
  }

  lemma CheckedWindow(s: Server, r: Request)
    requires Checked(s, r).Some?
    ensures var q := Checked(s, r).value; 0 < q.upper - q.lower <= MAX_PERIOD
  {
  }

  /** What the decoder checks of a cursor that a page handed out: the type alone can still fail. */
  lemma NextCursorIff(s: Server, r: Request, limit: nat, later: Server)
    requires Listed(s.table) && limit > 0
    requires Export(s, r, limit).Some? && Export(s, r, limit).value.next.Some?
    ensures var q, token := Checked(s, r).value, Export(s, r, limit).value.next.value;
            (Checked(later, Request(None, None, None, Some(token))) == Some(NextQuery(q, token))
             <==> (q.kind.Some? ==> KnownKind(later, q.kind.value)))
  {
    TokenIsInside(s, r, limit);
    CheckedWindow(s, r);
    CursorChecked(later, Export(s, r, limit).value.next.value);
  }

  lemma CursorChecked(s: Server, token: Token)
    requires 0 < token.end - token.start <= MAX_PERIOD && token.start <= token.time < token.end && 0 < token.id <= MAX_ID
    ensures Checked(s, Request(None, None, None, Some(token))) ==
            if token.kind.Some? && !KnownKind(s, token.kind.value) then None
            else Some(Query(token.start, token.end, token.kind, Some(Position(token.time, token.id))))
  {
  }

  /** A request without a cursor is accepted exactly when its window is positive and at most 30 days long and
      its type, if any, is well formed and known; the window ends now or as asked, and starts as asked or a
      day before its end. */
  lemma FirstRequestIff(s: Server, kind: Option<string>, start: Option<int>, end: Option<int>, q: Query)
    ensures Checked(s, Request(kind, start, end, None)) == Some(q) <==>
              && q.upper == (if end.Some? then end.value else s.now)
              && q.lower == (if start.Some? then start.value else q.upper - 86_400_000_000)
              && q.lower < q.upper <= q.lower + 30 * 86_400_000_000
              && q.kind == kind && q.position == None
              && (kind.Some? ==> s.wellFormed(kind.value) && (s.known(kind.value) || exists r :: r in s.table && r.kind == kind.value))
  {
  }

  /** A request with a cursor is accepted exactly when it names no type, start or end of its own and the
      cursor's id is a positive 64-bit number, its window one that is allowed, its position inside it and its
      type, if any, known; it then goes on below the position in that window. */
  lemma CursorRequestIff(s: Server, kind: Option<string>, start: Option<int>, end: Option<int>, token: Token, q: Query)
    ensures Checked(s, Request(kind, start, end, Some(token))) == Some(q) <==>
              && kind.None? && start.None? && end.None?
              && 0 < token.id < 0x8000_0000_0000_0000
              && token.start <= token.time < token.end <= token.start + 30 * 86_400_000_000
              && q == Query(token.start, token.end, token.kind, Some(Position(token.time, token.id)))
              && (token.kind.Some? ==>
                    && s.wellFormed(token.kind.value)
                    && (s.known(token.kind.value) || exists r :: r in s.table && r.kind == token.kind.value))
  {
  }

  /** The cursor a page hands out passes every check of the next request, whenever it comes and whatever
      was inserted meanwhile, and asks for the same window from the last row on: insights are never
      deleted, so the rows of the page keep the asked type known. */
  lemma NextCursorAccepted(s: Server, r: Request, limit: nat, later: Server)
    requires Listed(s.table) && limit > 0
    requires Export(s, r, limit).Some? && Export(s, r, limit).value.next.Some?
    requires forall row :: row in s.table ==> row in later.table
    requires later.wellFormed == s.wellFormed
    ensures var q, token := Checked(s, r).value, Export(s, r, limit).value.next.value;
            Checked(later, Request(None, None, None, Some(token))) == Some(NextQuery(q, token))
  {
    var q := Checked(s, r).value;
    var p := Page(s.table, q, limit);
    NextCursorIff(s, r, limit, later);
    PageSplits(s.table, q, limit);
    assert p.items[|p.items| - 1] in p.items;
  }

  // ---- Following the cursor ------------------------------------------------------------------------

  /** One request of a walk: the table it meets and the page size it asks for. */
  datatype Visit = Visit(table: seq<Row>, limit: nat)

  ghost predicate Visits(visits: seq<Visit>) {
    forall i :: 0 <= i < |visits| ==> Listed(visits[i].table) && visits[i].limit > 0
  }

  /** The items of all pages, following `next_cursor` as long as there is one. */
  ghost function Walk(q: Query, visits: seq<Visit>): seq<Row>
    requires Visits(visits)
    decreases |visits|
  {
    if visits == [] then []
    else
      var p := Page(visits[0].table, q, visits[0].limit);
      if p.next.None? then p.items else p.items + Walk(NextQuery(q, p.next.value), visits[1..])
  }

  /** The walk met a page without a next cursor. */
  ghost predicate Finished(q: Query, visits: seq<Visit>)
    requires Visits(visits)
    decreases |visits|
  {
    && visits != []
    && var p := Page(visits[0].table, q, visits[0].limit);
       p.next.Some? ==> Finished(NextQuery(q, p.next.value), visits[1..])
  }

  ghost predicate Descending(rows: seq<Row>) {
    forall i, j :: 0 <= i < j < |rows| ==> Below(rows[j].Key(), rows[i].Key())
  }

  lemma DescendingConcat(a: seq<Row>, b: seq<Row>)
    requires Descending(a) && Descending(b)
    requires forall x, y :: x in a && y in b ==> Below(y.Key(), x.Key())
    ensures Descending(a + b)
  {
    var c := a + b;
    forall i, j | 0 <= i < j < |c| ensures Below(c[j].Key(), c[i].Key()) {
      if i < |a| <= j {
        assert c[i] in a && c[j] in b;
      }
    }
  }

  /** Whatever is inserted or removed between requests, the pages together list matching rows in
      strictly descending order, so none twice; and a finished walk has listed every matching row
      that was there at every request. */
  lemma {:induction false} WalkIsComplete(q: Query, visits: seq<Visit>)
    requires Visits(visits)
    ensures Descending(Walk(q, visits))
    ensures forall r :: r in Walk(q, visits) ==> Matches(r, q)
    ensures Finished(q, visits) ==>
              forall r :: Matches(r, q) && (forall i :: 0 <= i < |visits| ==> r in visits[i].table) ==> r in Walk(q, visits)
    decreases |visits|
  {
    if visits != [] {
      var table, limit := visits[0].table, visits[0].limit;
      var p := Page(table, q, limit);
      PageSplits(table, q, limit);
      if p.next.Some? {
        var q', rest := NextQuery(q, p.next.value), visits[1..];
        NextNarrows(table, q, limit);
        WalkIsComplete(q', rest);
        DescendingConcat(p.items, Walk(q', rest));
        forall r | Finished(q, visits) && Matches(r, q) && (forall i :: 0 <= i < |visits| ==> r in visits[i].table)
          ensures r in Walk(q, visits)
        {
          assert r in visits[0].table;
          if r !in p.items {
            assert Matches(r, q');
            forall i | 0 <= i < |rest| ensures r in rest[i].table {
              assert r in visits[i + 1].table;
            }
          }
        }
      }
    }
  }

  lemma {:induction false} DescendingSame(a: seq<Row>, b: seq<Row>)
    requires Descending(a) && Descending(b)
    requires forall r :: r in a <==> r in b
    ensures a == b
  {
    assert a != [] ==> a[0] in a;
    assert b != [] ==> b[0] in b;
    if a != [] && b != [] {
      assert a[0] in b && b[0] in a;
      var k :| 0 <= k < |b| && b[k] == a[0];
      var m :| 0 <= m < |a| && a[m] == b[0];
      assert k == 0 && m == 0;
      NotRepeated(a);
      NotRepeated(b);
      forall r ensures r in a[1..] <==> r in b[1..] {
        assert r in a <==> r in b;
      }
      DescendingSame(a[1..], b[1..]);
    }
  }

  lemma NotRepeated(a: seq<Row>)
    requires a != [] && Descending(a)
    ensures forall r :: r in a[1..] <==> r in a && r != a[0]
  {
    assert a == [a[0]] + a[1..];
    forall k | 0 <= k < |a[1..]| ensures a[1..][k] != a[0] {
      assert Below(a[k + 1].Key(), a[0].Key());
    }
  }

  /** On an unchanged table a finished walk lists exactly what one unbounded query would. */
  lemma {:induction false} WalkIsTheQuery(q: Query, visits: seq<Visit>, table: seq<Row>)
    requires Visits(visits) && Finished(q, visits)
    requires forall i :: 0 <= i < |visits| ==> visits[i].table == table
    ensures Walk(q, visits) == Select(table, q)
  {
    WalkIsComplete(q, visits);
    assert visits[0].table == table;
    SelectMembers(table, q);
    SelectListed(table, q);
    WalkStaysInTable(q, visits, table);
    DescendingSame(Walk(q, visits), Select(table, q));
  }

  lemma {:induction false} WalkStaysInTable(q: Query, visits: seq<Visit>, table: seq<Row>)
    requires Visits(visits)
    requires forall i :: 0 <= i < |visits| ==> visits[i].table == table
    ensures forall r :: r in Walk(q, visits) ==> r in table
    decreases |visits|
  {
    if visits != [] {
      var p := Page(visits[0].table, q, visits[0].limit);
      PageSplits(visits[0].table, q, visits[0].limit);
      if p.next.Some? {
        WalkStaysInTable(NextQuery(q, p.next.value), visits[1..], table);
      }
    }
  }

  /** A download of one window: on an unchanging table, following the cursors to the end lists exactly the
      rows whose display time - when they occurred or, where that is missing, were stored - is in the asked
      window and that have the asked type, latest first, then by falling id. */
  lemma {:induction false} DownloadLists(s: Server, kind: Option<string>, start: Option<int>, end: Option<int>,
                                         visits: seq<Visit>, r: Row)
    requires Visits(visits) && Checked(s, Request(kind, start, end, None)).Some?
    requires forall i :: 0 <= i < |visits| ==> visits[i].table == s.table
    requires Finished(Checked(s, Request(kind, start, end, None)).value, visits)
    ensures var walk := Walk(Checked(s, Request(kind, start, end, None)).value, visits);
            && (r in walk <==>
                  && r in s.table
                  && var time, to := if r.occurredAt.Some? then r.occurredAt.value else r.timestamp, end.GetOr(s.now);
                     && start.GetOr(to - 86_400_000_000) <= time < to
                     && (kind.Some? ==> r.kind == kind.value))
            && (forall i, j :: 0 <= i < j < |walk| ==>
                  walk[i].Time() > walk[j].Time() || (walk[i].Time() == walk[j].Time() && walk[i].id > walk[j].id))
  {
    var q := Checked(s, Request(kind, start, end, None)).value;
    FirstRequestIff(s, kind, start, end, q);
    ListsMatches(q, visits, s.table);
    LatestFirst(Walk(q, visits));
  }

  lemma {:induction false} ListsMatches(q: Query, visits: seq<Visit>, table: seq<Row>)
    requires Visits(visits) && Finished(q, visits)
    requires forall i :: 0 <= i < |visits| ==> visits[i].table == table
    ensures Descending(Walk(q, visits)) && forall r :: r in Walk(q, visits) <==> r in table && Matches(r, q)
  {
    WalkIsTheQuery(q, visits, table);
    SelectMembers(table, q);
    WalkIsComplete(q, visits);
  }

  lemma LatestFirst(rows: seq<Row>)
    requires Descending(rows)
    ensures forall i, j :: 0 <= i < j < |rows| ==>
              rows[i].Time() > rows[j].Time() || (rows[i].Time() == rows[j].Time() && rows[i].id > rows[j].id)
  {
    forall i, j | 0 <= i < j < |rows|
      ensures rows[i].Time() > rows[j].Time() || (rows[i].Time() == rows[j].Time() && rows[i].id > rows[j].id)
    {
      assert Below(rows[j].Key(), rows[i].Key());
    }
  }

  // ---- How long a walk is --------------------------------------------------------------------------

  lemma {:induction false} SelectTwice(rows: seq<Row>, q: Query, next: Query)
    requires forall r :: Matches(r, next) ==> Matches(r, q)
    ensures Select(Select(rows, q), next) == Select(rows, next)
  {
    if rows != [] {
      SelectTwice(rows[1..], q, next);
      var rest := Select(rows[1..], q);
      assert Matches(rows[0], q) ==> ([rows[0]] + rest)[1..] == rest;
      assert [] + rest == rest && [] + Select(rows[1..], next) == Select(rows[1..], next);
    }
  }

  lemma {:induction false} SelectBehind(rows: seq<Row>, q: Query, n: nat)
    requires n <= |rows|
    requires forall i :: 0 <= i < |rows| ==> (Matches(rows[i], q) <==> i >= n)
    ensures Select(rows, q) == rows[n..]
  {
    if rows != [] {
      assert forall i :: 0 <= i < |rows[1..]| ==> rows[1..][i] == rows[i + 1];
      SelectBehind(rows[1..], q, if n == 0 then 0 else n - 1);
    }
  }

  /** On an unchanged table the next request selects exactly what the page left. */
  lemma {:induction false} NextSelectsRest(table: seq<Row>, q: Query, limit: nat)
    requires Listed(table) && limit > 0 && Page(table, q, limit).next.Some?
    ensures var all, p := Select(table, q), Page(table, q, limit);
            |all| > limit && Select(table, NextQuery(q, p.next.value)) == all[limit..]
  {
    var all, p := Select(table, q), Page(table, q, limit);
    var next := NextQuery(q, p.next.value);
    SelectListed(table, q);
    SelectMembers(table, q);
    PageIsPrefix(table, q, limit);
    NextNarrows(table, q, limit);
    TakeOneMore(all, limit);
    SelectTwice(table, q, next);
    forall i | 0 <= i < |all| ensures Matches(all[i], next) <==> i >= limit {
      assert all[i] in all;
      assert p.items[limit - 1] == all[limit - 1];
      assert i < limit - 1 ==> Below(all[limit - 1].Key(), all[i].Key());
      assert i >= limit ==> Below(all[i].Key(), all[limit - 1].Key());
    }
    SelectBehind(all, next, limit);
  }

  function TotalLimit(visits: seq<Visit>): nat {
    if visits == [] then 0 else visits[0].limit + TotalLimit(visits[1..])
  }

  /** On an unchanging table a walk is finished if and only if it made a request and its page limits add
      up to at least the rows to list. */
  lemma {:induction false} FinishedIff(q: Query, visits: seq<Visit>, table: seq<Row>)
    requires Visits(visits) && Listed(table)
    requires forall i :: 0 <= i < |visits| ==> visits[i].table == table
    ensures Finished(q, visits) <==> visits != [] && TotalLimit(visits) >= |Select(table, q)|
    decreases |visits|
  {
    if visits != [] {
      var limit := visits[0].limit;
      TakeOneMore(Select(table, q), limit);
      if Page(table, q, limit).next.Some? {
        NextSelectsRest(table, q, limit);
        FinishedIff(NextQuery(q, Page(table, q, limit).next.value), visits[1..], table);
      }
    }
  }

  /** So n rows take exactly ceil(n / limit) requests of one page limit, and one when there is none. */
  lemma {:induction false} WalkLength(q: Query, table: seq<Row>, limit: nat, n: nat)
    requires Listed(table) && limit > 0
    ensures var visits := seq(n, _ => Visit(table, limit));
            Finished(q, visits) <==> n > 0 && n * limit >= |Select(table, q)|
  {
    var visits := seq(n, _ => Visit(table, limit));
    FinishedIff(q, visits, table);
    SameLimits(table, limit, n);
  }

  lemma {:induction false} SameLimits(table: seq<Row>, limit: nat, n: nat)
    ensures TotalLimit(seq(n, _ => Visit(table, limit))) == n * limit
  {
    if n > 0 {
      SameLimits(table, limit, n - 1);
      assert seq(n, _ => Visit(table, limit))[1..] == seq(n - 1, _ => Visit(table, limit));
      assert n * limit == limit + (n - 1) * limit;
    }
  }
}
