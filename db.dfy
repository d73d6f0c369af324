/** The SQLite tables behind the cellar (src/db.rs), as sequences of rows held by
    one `Database` object. Queries without ORDER BY promise their rows only up to
    order, so the query methods state their results as multisets. */
module Db {
  import opened Wrappers

  newtype Byte = b: int | 0 <= b < 256
  type Bytes = seq<Byte>

  /** chrono's NaiveDate, NaiveTime and NaiveDateTime, kept as plain fields. */
  datatype Date = Date(year: int, month: int, day: int)
  datatype TimeOfDay = TimeOfDay(hour: int, minute: int, second: int, nanosecond: int)
  datatype DateTime = DateTime(date: Date, time: TimeOfDay)

  /** One row of each table. */
  datatype Wine = Wine(id: int, name: string, year: int, image: Option<Bytes>)
  datatype WineInvEvent = WineInvEvent(wineId: int, dt: DateTime, bottles: int)
  datatype WineGrape = WineGrape(wineId: int, grapeName: string)
  datatype WineComment = WineComment(wineId: int, comment: string, dt: DateTime)

  /** Why a query failed: `fetch_one` found no row, or the statement with the
      given number inside a transaction failed. */
  datatype DbError = RowNotFound(id: int) | StatementFailed(step: nat)

  // ---------------------------------------------------------------- filters

  /** The rows of `t` that satisfy `keep`, in table order (a `WHERE` clause). */
  function Where<T(!new)>(t: seq<T>, keep: T -> bool): (r: seq<T>)
    ensures |r| <= |t|
    ensures forall x :: x in r <==> x in t && keep(x)
  {
    if t == [] then []
    else (if keep(t[0]) then [t[0]] else []) + Where(t[1..], keep)
  }

  lemma {:induction false} WhereAppend<T(!new)>(a: seq<T>, b: seq<T>, keep: T -> bool)
    ensures Where(a + b, keep) == Where(a, keep) + Where(b, keep)
  {
    if a != [] {
      var x, rest := a[0], a[1..];
      assert a == [x] + rest;
      assert a + b == [x] + (rest + b);
      WhereCons(x, rest + b, keep);
      WhereCons(x, rest, keep);
      WhereAppend(rest, b, keep);
    } else {
      assert a + b == b;
    }
  }

  lemma WhereCons<T(!new)>(x: T, t: seq<T>, keep: T -> bool)
    ensures Where([x] + t, keep) == (if keep(x) then [x] else []) + Where(t, keep)
  {
    assert ([x] + t)[1..] == t;
  }

  /** A filter keeps every copy of a kept row and no copy of any other. */
  lemma {:induction false} WhereCount<T(!new)>(t: seq<T>, keep: T -> bool, x: T)
    ensures multiset(Where(t, keep))[x] == if keep(x) then multiset(t)[x] else 0
  {
    if t != [] {
      WhereCount(t[1..], keep, x);
      assert t == [t[0]] + t[1..];
      assert multiset(t) == multiset([t[0]]) + multiset(t[1..]);
    }
  }

  /** A filter that every row passes changes nothing. */
  lemma {:induction false} WhereAll<T(!new)>(t: seq<T>, keep: T -> bool)
    requires forall x :: x in t ==> keep(x)
    ensures Where(t, keep) == t
  {
    if t != [] {
      WhereAll(t[1..], keep);
      assert t == [t[0]] + t[1..];
    }
  }

  /** A filter that no row passes leaves nothing. */
  lemma {:induction false} WhereNone<T(!new)>(t: seq<T>, keep: T -> bool)
    requires forall x :: x in t ==> !keep(x)
    ensures Where(t, keep) == []
  {
    if t != [] {
      WhereNone(t[1..], keep);
    }
  }

  /** Filtering twice by the same condition is filtering once. */
  lemma WhereTwice<T(!new)>(t: seq<T>, keep: T -> bool)
    ensures Where(Where(t, keep), keep) == Where(t, keep)
  {
    WhereAll(Where(t, keep), keep);
  }

  // ------------------------------------------------------------ wine_grapes

  function GrapeNames(rows: seq<WineGrape>): (names: seq<string>)
    ensures |names| == |rows|
  {
    seq(|rows|, i requires 0 <= i < |rows| => rows[i].grapeName)
  }

  /** The rows `INSERT INTO wine_grapes VALUES(wineId, g)` adds for each `g`. */
  function GrapeRows(wineId: int, gs: seq<string>): (rows: seq<WineGrape>)
    ensures |rows| == |gs|
  {
    seq(|gs|, i requires 0 <= i < |gs| => WineGrape(wineId, gs[i]))
  }

  /** `SELECT grape_name FROM wine_grapes WHERE wine_id=$1`, in table order. */
  function GrapesOf(t: seq<WineGrape>, wineId: int): seq<string>
  {
    GrapeNames(Where(t, (r: WineGrape) => r.wineId == wineId))
  }

  /** The rows of every wine except `wineId` (`DELETE ... WHERE wine_id=$1`). */
  function GrapesWithout(t: seq<WineGrape>, wineId: int): seq<WineGrape>
  {
    Where(t, (r: WineGrape) => r.wineId != wineId)
  }

  /** The wine_grapes table after the delete and the inserts of a committed
      `set_wine_grapes(wineId, gs)`. */
  function ReplaceGrapes(t: seq<WineGrape>, wineId: int, gs: seq<string>): seq<WineGrape>
  {
    GrapesWithout(t, wineId) + GrapeRows(wineId, gs)
  }

  /** After a replace, the wine's grapes are exactly the list given, in its
      order; the empty list clears them. */
  lemma ReplaceGrapesOwn(t: seq<WineGrape>, wineId: int, gs: seq<string>)
    ensures GrapesOf(ReplaceGrapes(t, wineId, gs), wineId) == gs
  {
    GrapesOfAppend(GrapesWithout(t, wineId), GrapeRows(wineId, gs), wineId);
    GrapesOfWithout(t, wineId);
    GrapesOfRows(wineId, gs);
  }

  /** A replace for one wine leaves every other wine's grapes as they were. */
  lemma ReplaceGrapesOther(t: seq<WineGrape>, wineId: int, gs: seq<string>, other: int)
    requires other != wineId
    ensures GrapesOf(ReplaceGrapes(t, wineId, gs), other) == GrapesOf(t, other)
  {
    GrapesOfAppend(GrapesWithout(t, wineId), GrapeRows(wineId, gs), other);
    GrapesOfOtherRows(wineId, gs, other);
    WhereFilterSwap(t, wineId, other);
  }

  /** Setting the same grape list twice is the same as setting it once. */
  lemma ReplaceGrapesIdempotent(t: seq<WineGrape>, wineId: int, gs: seq<string>)
    ensures ReplaceGrapes(ReplaceGrapes(t, wineId, gs), wineId, gs) == ReplaceGrapes(t, wineId, gs)
  {
    GrapesWithoutAppend(GrapesWithout(t, wineId), GrapeRows(wineId, gs), wineId);
    GrapesWithoutTwice(t, wineId);
    GrapesWithoutRows(wineId, gs);
  }

  lemma GrapesOfAppend(a: seq<WineGrape>, b: seq<WineGrape>, wineId: int)
    ensures GrapesOf(a + b, wineId) == GrapesOf(a, wineId) + GrapesOf(b, wineId)
  {
    var own := (r: WineGrape) => r.wineId == wineId;
    WhereAppend(a, b, own);
    GrapeNamesAppend(Where(a, own), Where(b, own));
  }

  lemma GrapeNamesAppend(a: seq<WineGrape>, b: seq<WineGrape>)
    ensures GrapeNames(a + b) == GrapeNames(a) + GrapeNames(b)
  {
    assert forall i :: 0 <= i < |a + b| ==> GrapeNames(a + b)[i] == (GrapeNames(a) + GrapeNames(b))[i];
  }

  lemma GrapesWithoutAppend(a: seq<WineGrape>, b: seq<WineGrape>, wineId: int)
    ensures GrapesWithout(a + b, wineId) == GrapesWithout(a, wineId) + GrapesWithout(b, wineId)
  {
    WhereAppend(a, b, (r: WineGrape) => r.wineId != wineId);
  }

  /** After the delete the wine has no grapes left. */
  lemma GrapesOfWithout(t: seq<WineGrape>, wineId: int)
    ensures GrapesOf(GrapesWithout(t, wineId), wineId) == []
  {
    WhereNone(GrapesWithout(t, wineId), (r: WineGrape) => r.wineId == wineId);
  }

  lemma GrapesWithoutTwice(t: seq<WineGrape>, wineId: int)
    ensures GrapesWithout(GrapesWithout(t, wineId), wineId) == GrapesWithout(t, wineId)
  {
    WhereTwice(t, (r: WineGrape) => r.wineId != wineId);
  }

  /** The inserted rows carry the given names for their own wine ... */
  lemma GrapesOfRows(wineId: int, gs: seq<string>)
    ensures GrapesOf(GrapeRows(wineId, gs), wineId) == gs
  {
    WhereAll(GrapeRows(wineId, gs), (r: WineGrape) => r.wineId == wineId);
    assert GrapeNames(GrapeRows(wineId, gs)) == gs;
  }

  /** ... and none for any other wine, ... */
  lemma GrapesOfOtherRows(wineId: int, gs: seq<string>, other: int)
    requires other != wineId
    ensures GrapesOf(GrapeRows(wineId, gs), other) == []
  {
    WhereNone(GrapeRows(wineId, gs), (r: WineGrape) => r.wineId == other);
  }

  /** ... so a delete for the wine removes all of them. */
  lemma GrapesWithoutRows(wineId: int, gs: seq<string>)
    ensures GrapesWithout(GrapeRows(wineId, gs), wineId) == []
  {
    WhereNone(GrapeRows(wineId, gs), (r: WineGrape) => r.wineId != wineId);
  }

  /** Dropping one wine's rows does not change another wine's rows. */
  lemma {:induction false} WhereFilterSwap(t: seq<WineGrape>, wineId: int, other: int)
    requires other != wineId
    ensures Where(GrapesWithout(t, wineId), (r: WineGrape) => r.wineId == other)
         == Where(t, (r: WineGrape) => r.wineId == other)
  {
    if t != [] {
      var notOwn := (r: WineGrape) => r.wineId != wineId;
      var theirs := (r: WineGrape) => r.wineId == other;
      WhereFilterSwap(t[1..], wineId, other);
      var head := if notOwn(t[0]) then [t[0]] else [];
      assert GrapesWithout(t, wineId) == head + GrapesWithout(t[1..], wineId);
      WhereAppend(head, GrapesWithout(t[1..], wineId), theirs);
      if notOwn(t[0]) {
        assert Where(head, theirs) == (if theirs(t[0]) then [t[0]] else []) + Where([], theirs);
      } else {
        assert !theirs(t[0]);
      }
    }
  }

  // ----------------------------------------------------------------- events

  /** `SELECT * from wine_inventory_events WHERE wine_id=$1`, in table order. */
  function EventsOf(t: seq<WineInvEvent>, wineId: int): seq<WineInvEvent>
  {
    Where(t, (e: WineInvEvent) => e.wineId == wineId)
  }

  // ------------------------------------------------------------------ wines

  ghost predicate UniqueIds(ws: seq<Wine>)
  {
    forall i, j :: 0 <= i < j < |ws| ==> ws[i].id != ws[j].id
  }

  /** `SELECT * from wines WHERE id=$1` with `fetch_one`: the first row with
      that id, or none. */
  function FindWine(ws: seq<Wine>, id: int): (r: Option<Wine>)
    ensures r.Some? <==> exists i :: 0 <= i < |ws| && ws[i].id == id
    ensures r.Some? ==> r.value in ws && r.value.id == id
  {
    if ws == [] then None
    else if ws[0].id == id then Some(ws[0])
    else
      var r := FindWine(ws[1..], id);
      assert forall i :: 1 <= i < |ws| ==> ws[i] == ws[1..][i - 1];
      r
  }

  /** The largest id in use, or 0 for an empty table. */
  function MaxId(ws: seq<Wine>): (m: int)
    ensures m >= 0
    ensures forall w :: w in ws ==> w.id <= m
  {
    if ws == [] then 0
    else
      var m := MaxId(ws[1..]);
      if ws[0].id > m then ws[0].id else m
  }

  /** The id assumed for a new wine row: one past the largest id in use
      (SQLite's rowid rule while ids are positive). */
  function NextWineId(ws: seq<Wine>): (id: int)
    ensures forall w :: w in ws ==> w.id < id
  {
    MaxId(ws) + 1
  }

  /** `UPDATE wines SET image=$2 WHERE id=$1`. */
  function SetImage(ws: seq<Wine>, id: int, image: Bytes): (r: seq<Wine>)
    ensures |r| == |ws|
  {
    if ws == [] then []
    else [if ws[0].id == id then ws[0].(image := Some(image)) else ws[0]] + SetImage(ws[1..], id, image)
  }

  /** Storing an image touches only the image of the row with that id. */
  lemma {:induction false} SetImageRows(ws: seq<Wine>, id: int, image: Bytes, i: int)
    requires 0 <= i < |ws|
    ensures SetImage(ws, id, image)[i]
         == if ws[i].id == id then ws[i].(image := Some(image)) else ws[i]
  {
    if i > 0 {
      SetImageRows(ws[1..], id, image, i - 1);
    }
  }

  /** A later image overwrites an earlier one completely. */
  lemma SetImageTwice(ws: seq<Wine>, id: int, a: Bytes, b: Bytes)
    ensures SetImage(SetImage(ws, id, a), id, b) == SetImage(ws, id, b)
  {
    forall i | 0 <= i < |ws|
      ensures SetImage(SetImage(ws, id, a), id, b)[i] == SetImage(ws, id, b)[i]
    {
      SetImageRows(ws, id, a, i);
      SetImageRows(SetImage(ws, id, a), id, b, i);
      SetImageRows(ws, id, b, i);
    }
  }

  /** Reading a wine after storing its image gives back that image. */
  lemma {:induction false} FindAfterSetImage(ws: seq<Wine>, id: int, image: Bytes)
    requires FindWine(ws, id).Some?
    ensures FindWine(SetImage(ws, id, image), id) == Some(FindWine(ws, id).value.(image := Some(image)))
  {
    if ws[0].id != id {
      FindAfterSetImage(ws[1..], id, image);
    }
  }

  /** Storing an image keeps every id where it was. */
  lemma SetImageKeepsIds(ws: seq<Wine>, id: int, image: Bytes)
    requires UniqueIds(ws)
    ensures UniqueIds(SetImage(ws, id, image))
  {
    forall i | 0 <= i < |ws|
      ensures SetImage(ws, id, image)[i].id == ws[i].id
    {
      SetImageRows(ws, id, image, i);
    }
  }

  // ---------------------------------------------------------------- database

  class Database {
    var wines: seq<Wine>
    var events: seq<WineInvEvent>
    var wineGrapes: seq<WineGrape>
    /** The grape catalogue (`grapes.name`). */
    var grapes: seq<string>
    var comments: seq<WineComment>

    ghost predicate Valid()
      reads this
    {
      UniqueIds(wines)
    }

    /** `connect`: attach to an existing database with these tables. The
        `id` primary key makes wine ids distinct. */
    constructor (ws: seq<Wine>, es: seq<WineInvEvent>, wg: seq<WineGrape>,
                 catalogue: seq<string>, cs: seq<WineComment>)
      requires UniqueIds(ws)
      ensures Valid()
      ensures wines == ws && events == es && wineGrapes == wg && comments == cs
      ensures grapes == catalogue
    {
      wines, events, wineGrapes, comments := ws, es, wg, cs;
      grapes := catalogue;
    }

    /** `wines`: every wine row, in no promised order. */
    method Wines() returns (r: seq<Wine>)
      ensures multiset(r) == multiset(wines)
    {
      r := wines;
    }

    /** `wine_inventory_events`: the event rows of that wine, in no promised order. */
    method WineInventoryEvents(wineId: int) returns (r: seq<WineInvEvent>)
      ensures multiset(r) == multiset(EventsOf(events, wineId))
      ensures forall e :: e in r <==> e in events && e.wineId == wineId
    {
      r := EventsOf(events, wineId);
    }

    /** `add_wine`: one new row with a fresh id, nothing else touched. */
    method AddWine(name: string, year: int)
      requires Valid()
      modifies this`wines
      ensures Valid()
      ensures wines == old(wines) + [Wine(NextWineId(old(wines)), name, year, None)]
    {
      wines := wines + [Wine(NextWineId(wines), name, year, None)];
    }

    /** `get_wine`: the row with that id; `fetch_one` fails when there is none. */
    method GetWine(id: int) returns (r: Result<Wine, DbError>)
      ensures r.Success? <==> exists i :: 0 <= i < |wines| && wines[i].id == id
      ensures r.Success? ==> r.value in wines && r.value.id == id
      ensures r.Success? && Valid() ==> forall w :: w in wines && w.id == id ==> w == r.value
      ensures r.Failure? ==> r.error == RowNotFound(id)
    {
      var found := FindWine(wines, id);
      if found.Some? {
        r := Success(found.value);
      } else {
        r := Failure(RowNotFound(id));
      }
    }

    /** `get_wine_grapes`: the grape names linked to that wine, in no promised order. */
    method GetWineGrapes(wineId: int) returns (r: seq<string>)
      ensures multiset(r) == multiset(GrapesOf(wineGrapes, wineId))
    {
      r := GrapesOf(wineGrapes, wineId);
    }

    /** `set_wine_grapes`: inside one transaction, delete the wine's rows and
        insert one row per given grape. `failingStep` is the first statement
        the store fails, numbered 0 (begin), 1 (delete), 2 + i (insert of
        `gs[i]`) and 2 + |gs| (commit); statements run on a private copy, so
        the table changes at commit or not at all. */
    method SetWineGrapes(wineId: int, gs: seq<string>, failingStep: Option<nat>)
      returns (r: Result<(), DbError>)
      requires Valid()
      modifies this`wineGrapes
      ensures Valid()
      ensures r.Success? <==> failingStep.None? || failingStep.value > |gs| + 2
      ensures r.Success? ==> wineGrapes == ReplaceGrapes(old(wineGrapes), wineId, gs)
      ensures r.Failure? ==> wineGrapes == old(wineGrapes) && r.error == StatementFailed(failingStep.value)
    {
      if failingStep == Some(0) {
        return Failure(StatementFailed(0));
      }
      var trans := GrapesWithout(wineGrapes, wineId);
      if failingStep == Some(1) {
        return Failure(StatementFailed(1));
      }
      for i := 0 to |gs|
        invariant trans == GrapesWithout(wineGrapes, wineId) + GrapeRows(wineId, gs[..i])
        invariant failingStep.Some? ==> failingStep.value !in {0, 1} && failingStep.value >= 2 + i
      {
        if failingStep == Some(2 + i) {
          return Failure(StatementFailed(2 + i));
        }
        assert GrapeRows(wineId, gs[..i + 1]) == GrapeRows(wineId, gs[..i]) + [WineGrape(wineId, gs[i])];
        trans := trans + [WineGrape(wineId, gs[i])];
      }
      if failingStep == Some(2 + |gs|) {
        return Failure(StatementFailed(2 + |gs|));
      }
      assert gs[..|gs|] == gs;
      wineGrapes := trans;
      r := Success(());
    }

    /** `get_grapes`: the catalogue, in no promised order. */
    method GetGrapes() returns (r: seq<string>)
      ensures multiset(r) == multiset(grapes)
    {
      r := grapes;
    }

    /** `add_wine_event`: append one ledger row, with no check on the wine. */
    method AddWineEvent(wineId: int, bottles: int, dt: DateTime)
      requires Valid()
      modifies this`events
      ensures Valid()
      ensures events == old(events) + [WineInvEvent(wineId, dt, bottles)]
    {
      events := events + [WineInvEvent(wineId, dt, bottles)];
    }

    /** `add_wine_comment`: append one comment row. */
    method AddWineComment(wineId: int, comment: string, dt: DateTime)
      requires Valid()
      modifies this`comments
      ensures Valid()
      ensures comments == old(comments) + [WineComment(wineId, comment, dt)]
    {
      comments := comments + [WineComment(wineId, comment, dt)];
    }

    /** `delete_wine`: remove the wine and every row that refers to it, in
        one step. */
    method DeleteWine(id: int)
      requires Valid()
      modifies this`wines, this`events, this`wineGrapes, this`comments
      ensures Valid()
      ensures wines == Where(old(wines), (w: Wine) => w.id != id)
      ensures events == Where(old(events), (e: WineInvEvent) => e.wineId != id)
      ensures wineGrapes == GrapesWithout(old(wineGrapes), id)
      ensures comments == Where(old(comments), (c: WineComment) => c.wineId != id)
    {
      var keep := (w: Wine) => w.id != id;
      WhereKeepsUnique(wines, keep);
      wines := Where(wines, keep);
      events := Where(events, (e: WineInvEvent) => e.wineId != id);
      wineGrapes := GrapesWithout(wineGrapes, id);
      comments := Where(comments, (c: WineComment) => c.wineId != id);
    }

    /** `set_wine_image`: overwrite the stored image of that wine. */
    method SetWineImage(wineId: int, image: Bytes)
      requires Valid()
      modifies this`wines
      ensures Valid()
      ensures wines == SetImage(old(wines), wineId, image)
    {
      SetImageKeepsIds(wines, wineId, image);
      wines := SetImage(wines, wineId, image);
    }

    /** `wine_image`: the stored image of that wine, which may be absent; the
        wine row itself must exist. */
    method WineImage(wineId: int) returns (r: Result<Option<Bytes>, DbError>)
      ensures r.Success? <==> exists i :: 0 <= i < |wines| && wines[i].id == wineId
      ensures r.Success? ==> exists w :: w in wines && w.id == wineId && w.image == r.value
      ensures r.Success? && Valid() ==> forall w :: w in wines && w.id == wineId ==> w.image == r.value
      ensures r.Failure? ==> r.error == RowNotFound(wineId)
    {
      var found := FindWine(wines, wineId);
      if found.Some? {
        r := Success(found.value.image);
      } else {
        r := Failure(RowNotFound(wineId));
      }
    }
  }

  /** Removing rows keeps the remaining ids distinct. */
  lemma {:induction false} WhereKeepsUnique(ws: seq<Wine>, keep: Wine -> bool)
    requires UniqueIds(ws)
    ensures UniqueIds(Where(ws, keep))
  {
    if ws != [] {
      WhereKeepsUnique(ws[1..], keep);
      assert forall w :: w in ws[1..] ==> w.id != ws[0].id by {
        forall w | w in ws[1..] ensures w.id != ws[0].id {
          var j :| 0 <= j < |ws[1..]| && ws[1..][j] == w;
          assert ws[j + 1] == w;
        }
      }
    }
  }
}
