/** What the pages of src/web/markup.rs show, without the HTML: the rows of
    the wine table and the grape checkboxes. */
module Markup {
  import opened Db

  /** `inv_events.iter().map(|ie| ie.bottles).sum()` */
  function SumBottles(es: seq<WineInvEvent>): int
  {
    if es == [] then 0 else es[0].bottles + SumBottles(es[1..])
  }

  /** The bottle count of a wine: the sum of the deltas of its ledger rows. */
  function Stock(events: seq<WineInvEvent>, wineId: int): int
  {
    SumBottles(EventsOf(events, wineId))
  }

  lemma {:induction false} SumAppend(a: seq<WineInvEvent>, b: seq<WineInvEvent>)
    ensures SumBottles(a + b) == SumBottles(a) + SumBottles(b)
  {
    if a != [] {
      assert (a + b)[0] == a[0] && (a + b)[1..] == a[1..] + b;
      SumAppend(a[1..], b);
    } else {
      assert a + b == b;
    }
  }

  /** The sum does not depend on the order the rows come in. */
  lemma {:induction false} SumPermutation(a: seq<WineInvEvent>, b: seq<WineInvEvent>)
    requires multiset(a) == multiset(b)
    ensures SumBottles(a) == SumBottles(b)
    decreases |a|
  {
    if a == [] {
      assert |b| == |multiset(b)| == 0;
    } else {
      var tail := a[1..];
      var j := IndexOf(b, a[0]);
      var rest := b[..j] + b[j + 1..];
      assert multiset(tail) == multiset(rest) by {
        MultisetRemoveAt(a, 0);
        MultisetRemoveAt(b, j);
        assert a[..0] + tail == tail;
      }
      SumPermutation(tail, rest);
      SumRemoveAt(b, j);
    }
  }

  /** Taking out the row at `j` takes its delta out of the sum. */
  lemma {:induction false} SumRemoveAt(b: seq<WineInvEvent>, j: int)
    requires 0 <= j < |b|
    ensures SumBottles(b) == b[j].bottles + SumBottles(b[..j] + b[j + 1..])
  {
    if j == 0 {
      assert b[..0] + b[1..] == b[1..];
    } else {
      var tail := b[1..];
      SumRemoveAt(tail, j - 1);
      var rest := b[..j] + b[j + 1..];
      assert rest[0] == b[0];
      assert rest[1..] == tail[..j - 1] + tail[j..];
    }
  }

  /** A position where an element of the multiset of `b` stands. */
  lemma IndexOf<T>(b: seq<T>, x: T) returns (j: int)
    requires x in multiset(b)
    ensures 0 <= j < |b| && b[j] == x
  {
    assert x in b;
    j :| 0 <= j < |b| && b[j] == x;
  }

  /** Taking out the element at `j` takes one copy of it out of the multiset. */
  lemma MultisetRemoveAt<T>(b: seq<T>, j: int)
    requires 0 <= j < |b|
    ensures multiset(b[..j] + b[j + 1..]) == multiset(b) - multiset{b[j]}
  {
    var l, r := b[..j], b[j + 1..];
    assert b == l + [b[j]] + r;
    assert multiset(b) == multiset(l) + multiset{b[j]} + multiset(r);
    assert multiset(l + r) == multiset(l) + multiset(r);
  }

  /** The order in which events were recorded does not change any stock. */
  lemma StockPermutation(t: seq<WineInvEvent>, u: seq<WineInvEvent>, wineId: int)
    requires multiset(t) == multiset(u)
    ensures Stock(t, wineId) == Stock(u, wineId)
  {
    var own := (e: WineInvEvent) => e.wineId == wineId;
    forall e
      ensures multiset(EventsOf(t, wineId))[e] == multiset(EventsOf(u, wineId))[e]
    {
      WhereCount(t, own, e);
      WhereCount(u, own, e);
    }
    assert multiset(EventsOf(t, wineId)) == multiset(EventsOf(u, wineId));
    SumPermutation(EventsOf(t, wineId), EventsOf(u, wineId));
  }

  /** One more ledger row moves the stock of its own wine by its delta and
      leaves every other wine's stock alone. */
  lemma StockAppend(t: seq<WineInvEvent>, e: WineInvEvent, wineId: int)
    ensures Stock(t + [e], wineId) == Stock(t, wineId) + (if e.wineId == wineId then e.bottles else 0)
  {
    var own := (x: WineInvEvent) => x.wineId == wineId;
    WhereAppend(t, [e], own);
    assert Where([e], own) == (if own(e) then [e] else []) + Where([], own);
    SumAppend(EventsOf(t, wineId), Where([e], own));
  }

  /** A wine without ledger rows shows 0 bottles. */
  lemma StockWithoutEvents(t: seq<WineInvEvent>, wineId: int)
    requires forall e :: e in t ==> e.wineId != wineId
    ensures Stock(t, wineId) == 0
  {
    WhereNone(t, (e: WineInvEvent) => e.wineId == wineId);
  }

  /** One row of the wine table (`MainWine`, without its thumbnail). */
  datatype MainWine = MainWine(id: int, name: string, year: int, numBottles: int, grapes: seq<string>)

  /** `row` shows `wine` as the tables currently describe it. */
  ghost predicate Shows(row: MainWine, wine: Wine, events: seq<WineInvEvent>, wineGrapes: seq<WineGrape>)
  {
    && row.id == wine.id && row.name == wine.name && row.year == wine.year
    && row.numBottles == Stock(events, wine.id)
    && multiset(row.grapes) == multiset(GrapesOf(wineGrapes, wine.id))
  }

  /** `row` shows the current bottle count and grapes of the wine it names. */
  ghost predicate Current(row: MainWine, events: seq<WineInvEvent>, wineGrapes: seq<WineGrape>)
  {
    && row.numBottles == Stock(events, row.id)
    && multiset(row.grapes) == multiset(GrapesOf(wineGrapes, row.id))
  }

  /** `rows` are the wine table for the wines in the order of `listing`, a
      rearrangement of the wine rows. */
  ghost predicate TableOf(rows: seq<MainWine>, listing: seq<Wine>,
                          wines: seq<Wine>, events: seq<WineInvEvent>, wineGrapes: seq<WineGrape>)
  {
    && multiset(listing) == multiset(wines)
    && |rows| == |listing|
    && forall i :: 0 <= i < |rows| ==> Shows(rows[i], listing[i], events, wineGrapes)
  }

  /** `rows` are the wine table for some order of the wine rows. */
  ghost predicate IsWineTable(rows: seq<MainWine>, wines: seq<Wine>,
                              events: seq<WineInvEvent>, wineGrapes: seq<WineGrape>)
  {
    exists listing :: TableOf(rows, listing, wines, events, wineGrapes)
  }

  /** `wine_table`: one row per wine, in the order the wine query returned
      them (`listing`), each with its bottle count and grapes. */
  method WineTable(db: Database) returns (rows: seq<MainWine>, ghost listing: seq<Wine>)
    ensures |rows| == |db.wines|
    ensures forall i :: 0 <= i < |rows| ==> Current(rows[i], db.events, db.wineGrapes)
    ensures TableOf(rows, listing, db.wines, db.events, db.wineGrapes)
  {
    var wines := db.Wines();
    listing := wines;
    rows := [];
    for i := 0 to |wines|
      invariant |rows| == i
      invariant forall k :: 0 <= k < i ==> Shows(rows[k], wines[k], db.events, db.wineGrapes)
    {
      var wine := wines[i];
      var invEvents := db.WineInventoryEvents(wine.id);
      var inventory := SumBottles(invEvents);
      SumPermutation(invEvents, EventsOf(db.events, wine.id));
      var wineGrapes := db.GetWineGrapes(wine.id);
      rows := rows + [MainWine(wine.id, wine.name, wine.year, inventory, wineGrapes)];
    }
    assert |wines| == |multiset(wines)| == |multiset(db.wines)| == |db.wines|;
  }

  /** One checkbox of the grape form: its grape and whether it is ticked. */
  datatype Checkbox = Checkbox(grape: string, checked: bool)

  /** `edit_wine_grapes`: one box per catalogue grape, ticked exactly when
      the wine already has that grape. */
  method EditWineGrapes(db: Database, wineId: int) returns (boxes: seq<Checkbox>)
    ensures multiset(BoxGrapes(boxes)) == multiset(db.grapes)
    ensures forall i :: 0 <= i < |boxes| ==>
      (boxes[i].checked <==> boxes[i].grape in GrapesOf(db.wineGrapes, wineId))
  {
    var wineGrapes := db.GetWineGrapes(wineId);
    var allGrapes := db.GetGrapes();
    boxes := seq(|allGrapes|, i requires 0 <= i < |allGrapes| => Checkbox(allGrapes[i], allGrapes[i] in wineGrapes));
    assert BoxGrapes(boxes) == allGrapes;
    forall i | 0 <= i < |allGrapes|
      ensures allGrapes[i] in wineGrapes <==> allGrapes[i] in GrapesOf(db.wineGrapes, wineId)
    {
      assert allGrapes[i] in wineGrapes <==> allGrapes[i] in multiset(wineGrapes);
    }
  }

  /** The grapes the boxes are for, in box order. */
  function BoxGrapes(boxes: seq<Checkbox>): seq<string>
  {
    seq(|boxes|, i requires 0 <= i < |boxes| => boxes[i].grape)
  }
}
