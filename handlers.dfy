/** The request handlers of src/web/handlers.rs, each given the database and
    the already-extracted request parts. Library calls whose code is not part of
    this model (percent decoding, chrono's date parser, the clock, image
    conversion) enter as parameters holding their outcome. */
module Handlers {
  import opened Wrappers
  import opened Text
  import opened Db
  import opened Markup
  import opened Errors

  // ------------------------------------------------------- post_wine_grapes

  /** `segment.split("=").nth(1)`: the text between the first and the second
      `=`, present exactly when the segment has an `=`. */
  function SecondField(segment: string): (r: Option<string>)
    ensures r.Some? <==> '=' in segment
    ensures r.Some? ==> '=' !in r.value
  {
    var parts := Split(segment, '=');
    if |parts| >= 2 then Some(parts[1]) else None
  }

  /** Whatever the key, the value after it is taken, up to the next `=`. */
  lemma SecondFieldOf(key: string, value: string, tail: string)
    requires '=' !in key && '=' !in value
    ensures SecondField(key + "=" + value) == Some(value)
    ensures SecondField(key + "=" + value + "=" + tail) == Some(value)
  {
    assert SecondField(key + "=" + value) == Some(value) by {
      assert key + "=" + value == key + ['='] + value;
      SplitAfterPiece(key, '=', value);
      SplitOfPiece(value, '=');
    }
    assert SecondField(key + "=" + value + "=" + tail) == Some(value) by {
      assert key + "=" + value + "=" + tail == key + ['='] + (value + ['='] + tail);
      SplitAfterPiece(key, '=', value + "=" + tail);
      SplitAfterPiece(value, '=', tail);
    }
  }

  /** The names the decoding loop pushes for these `&`-separated segments. */
  function FormValues(segments: seq<string>): (names: seq<string>)
    ensures |names| <= |segments|
  {
    if segments == [] then []
    else SegmentValue(segments[0]) + FormValues(segments[1..])
  }

  /** What one segment adds: its value, if it has one. */
  function SegmentValue(segment: string): seq<string>
  {
    match SecondField(segment)
    case Some(v) => [v]
    case None => []
  }

  /** One more segment adds its value at the end. */
  lemma FormValuesSnoc(segments: seq<string>, i: int)
    requires 0 <= i < |segments|
    ensures FormValues(segments[..i + 1]) == FormValues(segments[..i]) + SegmentValue(segments[i])
  {
    assert segments[..i + 1] == segments[..i] + [segments[i]];
    FormValuesAppend(segments[..i], [segments[i]]);
    assert FormValues([segments[i]]) == SegmentValue(segments[i]) by {
      assert [segments[i]][1..] == [];
    }
  }

  /** The grape list `post_wine_grapes` decodes from a percent-decoded body. */
  function DecodedGrapes(data: string): seq<string>
  {
    FormValues(Split(data, '&'))
  }

  /** The decoding loop of `post_wine_grapes`. */
  method DecodeGrapeForm(data: string) returns (grapes: seq<string>)
    ensures grapes == DecodedGrapes(data)
  {
    var segments := Split(data, '&');
    grapes := [];
    for i := 0 to |segments|
      invariant grapes == FormValues(segments[..i])
    {
      FormValuesSnoc(segments, i);
      var item := SecondField(segments[i]);
      if item.Some? {
        grapes := grapes + [item.value];
      }
    }
    assert segments[..|segments|] == segments;
  }

  lemma {:induction false} FormValuesAppend(a: seq<string>, b: seq<string>)
    ensures FormValues(a + b) == FormValues(a) + FormValues(b)
  {
    if a == [] {
      assert a + b == b;
    } else {
      assert (a + b)[0] == a[0] && (a + b)[1..] == a[1..] + b;
      FormValuesAppend(a[1..], b);
    }
  }

  /** A segment without `=` contributes nothing, wherever it stands. */
  lemma SegmentWithoutValue(a: seq<string>, segment: string, b: seq<string>)
    requires '=' !in segment
    ensures FormValues(a + [segment] + b) == FormValues(a + b)
  {
    assert FormValues([segment]) == [] by {
      assert SecondField(segment) == None;
      assert [segment][1..] == [];
    }
    FormValuesAppend(a, [segment]);
    assert FormValues(a + [segment]) == FormValues(a);
    FormValuesAppend(a + [segment], b);
    FormValuesAppend(a, b);
  }

  /** A segment with `=` contributes its value, in place. */
  lemma SegmentWithValue(a: seq<string>, segment: string, b: seq<string>)
    requires '=' in segment
    ensures FormValues(a + [segment] + b) == FormValues(a) + [SecondField(segment).value] + FormValues(b)
  {
    assert FormValues([segment]) == [SecondField(segment).value] by {
      assert [segment][1..] == [];
    }
    FormValuesAppend(a, [segment]);
    FormValuesAppend(a + [segment], b);
  }

  /** The form field a ticked box named `grapes` sends. */
  function GrapeField(name: string): string
  {
    "grapes=" + name
  }

  lemma GrapeFieldValue(name: string)
    requires '=' !in name
    ensures SecondField(GrapeField(name)) == Some(name)
  {
    assert GrapeField(name) == "grapes" + "=" + name;
    SecondFieldOf("grapes", name, "");
  }

  /** The body a browser sends for the ticked boxes named `grapes`, after
      percent decoding. */
  function GrapeFormBody(names: seq<string>): string
  {
    Join(GrapeFields(names), '&')
  }

  function GrapeFields(names: seq<string>): (fields: seq<string>)
    ensures |fields| == |names|
  {
    seq(|names|, i requires 0 <= i < |names| => GrapeField(names[i]))
  }

  /** Decoding recovers the ticked grapes when no name holds `&` or `=`. */
  lemma {:induction false} DecodeGrapeFormBody(names: seq<string>)
    requires forall i :: 0 <= i < |names| ==> '&' !in names[i] && '=' !in names[i]
    ensures DecodedGrapes(GrapeFormBody(names)) == names
  {
    if names == [] {
      assert Split("", '&') == [""];
      assert FormValues([""]) == [] by {
        assert SecondField("") == None;
        assert [""][1..] == [];
      }
    } else {
      var fields := GrapeFields(names);
      forall i | 0 <= i < |fields|
        ensures '&' !in fields[i]
      {
        assert fields[i] == "grapes=" + names[i];
      }
      SplitJoin(fields, '&');
      FormValuesOfPairs(names);
    }
  }

  lemma {:induction false} FormValuesOfPairs(names: seq<string>)
    requires forall i :: 0 <= i < |names| ==> '=' !in names[i]
    ensures FormValues(GrapeFields(names)) == names
  {
    if names != [] {
      var fields := GrapeFields(names);
      assert SegmentValue(fields[0]) == [names[0]] by {
        GrapeFieldValue(names[0]);
      }
      assert FormValues(fields[1..]) == names[1..] by {
        assert fields[1..] == GrapeFields(names[1..]);
        FormValuesOfPairs(names[1..]);
      }
      assert names == [names[0]] + names[1..];
    }
  }

  /** A body with two ticked grapes decodes to those two, in order. */
  lemma DecodeTwo(a: string, b: string)
    requires '&' !in a && '=' !in a && '&' !in b && '=' !in b
    ensures DecodedGrapes(GrapeField(a) + "&" + GrapeField(b)) == [a, b]
  {
    var first, second := GrapeField(a), GrapeField(b);
    assert Split(first + "&" + second, '&') == [first, second] by {
      assert '&' !in first && '&' !in second;
      SplitAfterPiece(first, '&', second);
      SplitOfPiece(second, '&');
    }
    assert FormValues([first, second]) == [a, b] by {
      GrapeFieldValue(a);
      GrapeFieldValue(b);
      assert [first, second][1..] == [second];
      assert FormValues([second]) == [b] by {
        assert [second][1..] == [];
      }
    }
  }

  /** The example body in the handler's comment. */
  lemma DecodeExample()
    ensures DecodedGrapes("grapes=Barbera&grapes=Gamay") == ["Barbera", "Gamay"]
  {
    assert "grapes=Barbera&grapes=Gamay" == GrapeField("Barbera") + "&" + GrapeField("Gamay") by {
      assert GrapeField("Barbera") == "grapes=Barbera";
      assert GrapeField("Gamay") == "grapes=Gamay";
    }
    DecodeTwo("Barbera", "Gamay");
  }

  /** `post_wine_grapes`: decode the body, replace the wine's grape set, then
      render the wine table. A body that is not valid percent-encoded UTF-8
      (`form` is `Failure`) is answered before the grapes are touched. */
  method PostWineGrapes(db: Database, wineId: int, form: Result<string, string>, failingStep: Option<nat>)
    returns (r: Result<seq<MainWine>, AppError>)
    requires db.Valid()
    modifies db`wineGrapes
    ensures db.Valid()
    ensures form.Failure? ==> r == Failure(FromError(form.error)) && db.wineGrapes == old(db.wineGrapes)
    ensures form.Success? ==>
      var gs := DecodedGrapes(form.value);
      && (r.Success? <==> failingStep.None? || failingStep.value > |gs| + 2)
      && db.wineGrapes == if r.Success? then ReplaceGrapes(old(db.wineGrapes), wineId, gs) else old(db.wineGrapes)
    ensures r.Failure? ==> r.error.status == INTERNAL_SERVER_ERROR
    ensures r.Success? ==> IsWineTable(r.value, db.wines, db.events, db.wineGrapes)
  {
    if form.Failure? {
      return Failure(FromError(form.error));
    }
    var grapes := DecodeGrapeForm(form.value);
    var outcome := db.SetWineGrapes(wineId, grapes, failingStep);
    if outcome.Failure? {
      return Failure(FromError("database error"));
    }
    var rows, listing := WineTable(db);
    r := Success(rows);
  }

  // ------------------------------------------------------ buy_wine, drink_wine

  /** "Buy" records the submitted count as it is. */
  function BuyDelta(bottles: int): int
  {
    bottles
  }

  /** "Drink" records the negated count. */
  function DrinkDelta(bottles: int): int
  {
    -bottles
  }

  /** The date from the form with the server's time of day. */
  function EventTimestamp(date: Date, now: DateTime): DateTime
  {
    DateTime(date, now.time)
  }

  /** Buying n bottles and then drinking n leaves the count where it was. */
  lemma BuyThenDrinkNetZero(t: seq<WineInvEvent>, wineId: int, n: int, bought: DateTime, drunk: DateTime)
    ensures Stock(t + [WineInvEvent(wineId, bought, BuyDelta(n)), WineInvEvent(wineId, drunk, DrinkDelta(n))], wineId)
         == Stock(t, wineId)
  {
    var buy := WineInvEvent(wineId, bought, BuyDelta(n));
    var drink := WineInvEvent(wineId, drunk, DrinkDelta(n));
    StockAppend(t, buy, wineId);
    StockAppend(t + [buy], drink, wineId);
    assert t + [buy, drink] == t + [buy] + [drink];
  }

  /** `buy_wine`: `parsed` is the outcome of parsing the form's `%Y-%m-%d`
      date and `now` the server clock; a parse failure goes through `?`. */
  method BuyWine(db: Database, wineId: int, parsed: Result<Date, string>, now: DateTime, bottles: int)
    returns (r: Result<seq<MainWine>, AppError>)
    requires db.Valid()
    modifies db`events
    ensures db.Valid()
    ensures parsed.Failure? ==> r == Failure(FromError(parsed.error)) && db.events == old(db.events)
    ensures parsed.Success? ==>
      db.events == old(db.events) + [WineInvEvent(wineId, EventTimestamp(parsed.value, now), BuyDelta(bottles))]
    ensures parsed.Success? ==> Stock(db.events, wineId) == old(Stock(db.events, wineId)) + bottles
    ensures r.Success? <==> parsed.Success?
    ensures r.Success? ==> IsWineTable(r.value, db.wines, db.events, db.wineGrapes)
  {
    if parsed.Failure? {
      return Failure(FromError(parsed.error));
    }
    var dt := EventTimestamp(parsed.value, now);
    StockAppend(db.events, WineInvEvent(wineId, dt, BuyDelta(bottles)), wineId);
    db.AddWineEvent(wineId, BuyDelta(bottles), dt);
    var rows, listing := WineTable(db);
    r := Success(rows);
  }

  /** `drink_wine`: as `buy_wine`, with the count negated. */
  method DrinkWine(db: Database, wineId: int, parsed: Result<Date, string>, now: DateTime, bottles: int)
    returns (r: Result<seq<MainWine>, AppError>)
    requires db.Valid()
    modifies db`events
    ensures db.Valid()
    ensures parsed.Failure? ==> r == Failure(FromError(parsed.error)) && db.events == old(db.events)
    ensures parsed.Success? ==>
      db.events == old(db.events) + [WineInvEvent(wineId, EventTimestamp(parsed.value, now), DrinkDelta(bottles))]
    ensures parsed.Success? ==> Stock(db.events, wineId) == old(Stock(db.events, wineId)) - bottles
    ensures r.Success? <==> parsed.Success?
    ensures r.Success? ==> IsWineTable(r.value, db.wines, db.events, db.wineGrapes)
  {
    if parsed.Failure? {
      return Failure(FromError(parsed.error));
    }
    var dt := EventTimestamp(parsed.value, now);
    StockAppend(db.events, WineInvEvent(wineId, dt, DrinkDelta(bottles)), wineId);
    db.AddWineEvent(wineId, DrinkDelta(bottles), dt);
    var rows, listing := WineTable(db);
    r := Success(rows);
  }

  // ---------------------------------------------------------- set_wine_image

  /** `user_agent.as_str().contains("iPhone")`: the image is turned a quarter
      exactly when this holds. */
  function IsIphone(userAgent: string): bool
  {
    Contains(userAgent, "iPhone")
  }

  /** A multipart field: its name, if any, and its body or the error reading it. */
  datatype MultipartField = MultipartField(name: Option<string>, bytes: Result<Bytes, string>)

  /** The images an upload stores, in order, and the error that ended it, if any. */
  datatype Upload = Upload(stored: seq<Bytes>, error: Option<string>)

  /** What the field loop of `set_wine_image` does with a stream of fields
      (`Failure` is an error from `next_field`); `convert` is the decode,
      rotate, resize and PNG-encode step. */
  function UploadOutcome(parts: seq<Result<MultipartField, string>>, iphone: bool,
                         convert: (Bytes, bool) -> Result<Bytes, string>): Upload
  {
    if parts == [] then Upload([], None)
    else UploadStep(parts[0], iphone, convert, UploadOutcome(parts[1..], iphone, convert))
  }

  /** One turn of the field loop, followed by what the rest of the stream
      does (`rest`), which an error cuts off. */
  function UploadStep(part: Result<MultipartField, string>, iphone: bool,
                      convert: (Bytes, bool) -> Result<Bytes, string>, rest: Upload): Upload
  {
    match part
    case Failure(e) => Upload([], Some(e))
    case Success(field) =>
      if field.name != Some("image") then rest
      else match field.bytes
        case Failure(e) => Upload([], Some(e))
        case Success(data) =>
          match convert(data, iphone)
          case Failure(_) => Upload([], Some("Image conversion"))
          case Success(image) => Upload([image] + rest.stored, rest.error)
  }

  lemma UploadOutcomeFrom(parts: seq<Result<MultipartField, string>>, i: int, iphone: bool,
                          convert: (Bytes, bool) -> Result<Bytes, string>)
    requires 0 <= i < |parts|
    ensures UploadOutcome(parts[i..], iphone, convert)
         == UploadStep(parts[i], iphone, convert, UploadOutcome(parts[i + 1..], iphone, convert))
  {
    assert parts[i..][1..] == parts[i + 1..];
  }

  /** Only fields named `image` are stored, each as its converted body. */
  lemma {:induction false} UploadStoresOnlyImageFields(parts: seq<Result<MultipartField, string>>, iphone: bool,
                                                      convert: (Bytes, bool) -> Result<Bytes, string>, k: int)
    requires 0 <= k < |UploadOutcome(parts, iphone, convert).stored|
    ensures exists j, data ::
              && 0 <= j < |parts|
              && parts[j] == Success(MultipartField(Some("image"), Success(data)))
              && convert(data, iphone) == Success(UploadOutcome(parts, iphone, convert).stored[k])
  {
    var field := parts[0].value;
    if field.name != Some("image") {
      UploadStoresOnlyImageFields(parts[1..], iphone, convert, k);
      var j, data :| 0 <= j < |parts[1..]|
        && parts[1..][j] == Success(MultipartField(Some("image"), Success(data)))
        && convert(data, iphone) == Success(UploadOutcome(parts[1..], iphone, convert).stored[k]);
      assert parts[j + 1] == parts[1..][j];
    } else if k == 0 {
      assert parts[0] == Success(MultipartField(Some("image"), Success(field.bytes.value)));
    } else {
      UploadStoresOnlyImageFields(parts[1..], iphone, convert, k - 1);
      var j, data :| 0 <= j < |parts[1..]|
        && parts[1..][j] == Success(MultipartField(Some("image"), Success(data)))
        && convert(data, iphone) == Success(UploadOutcome(parts[1..], iphone, convert).stored[k - 1]);
      assert parts[j + 1] == parts[1..][j];
    }
  }

  /** The bodies of the fields named `image` that were read, in stream order. */
  function ImageBodies(parts: seq<Result<MultipartField, string>>): (bodies: seq<Bytes>)
    ensures |bodies| <= |parts|
  {
    if parts == [] then []
    else
      var p := parts[0];
      (if p.Success? && p.value.name == Some("image") && p.value.bytes.Success?
       then [p.value.bytes.value] else [])
      + ImageBodies(parts[1..])
  }

  /** One element of the stream arrives, and if it is named `image` it is
      read and converts. */
  ghost predicate FieldClean(p: Result<MultipartField, string>, iphone: bool,
                             convert: (Bytes, bool) -> Result<Bytes, string>)
  {
    && p.Success?
    && (p.value.name == Some("image") ==>
          p.value.bytes.Success? && convert(p.value.bytes.value, iphone).Success?)
  }

  /** The stream ends without error: every element is clean. */
  ghost predicate CleanUpload(parts: seq<Result<MultipartField, string>>, iphone: bool,
                              convert: (Bytes, bool) -> Result<Bytes, string>)
  {
    forall j :: 0 <= j < |parts| ==> FieldClean(parts[j], iphone, convert)
  }

  lemma CleanUploadCons(parts: seq<Result<MultipartField, string>>, iphone: bool,
                        convert: (Bytes, bool) -> Result<Bytes, string>)
    requires parts != []
    ensures CleanUpload(parts, iphone, convert)
        <==> FieldClean(parts[0], iphone, convert) && CleanUpload(parts[1..], iphone, convert)
  {
    assert forall j :: 1 <= j < |parts| ==> parts[j] == parts[1..][j - 1];
  }

  /** The upload ends without error exactly when the stream is clean. */
  lemma {:induction false} UploadSucceedsIffClean(parts: seq<Result<MultipartField, string>>, iphone: bool,
                                                 convert: (Bytes, bool) -> Result<Bytes, string>)
    ensures UploadOutcome(parts, iphone, convert).error.None? <==> CleanUpload(parts, iphone, convert)
  {
    if parts != [] {
      UploadSucceedsIffClean(parts[1..], iphone, convert);
      CleanUploadCons(parts, iphone, convert);
    }
  }

  /** A clean upload stores the conversion of every `image` field, in stream
      order. */
  lemma {:induction false} UploadStoresEveryImageField(parts: seq<Result<MultipartField, string>>, iphone: bool,
                                                      convert: (Bytes, bool) -> Result<Bytes, string>)
    requires UploadOutcome(parts, iphone, convert).error.None?
    ensures var up := UploadOutcome(parts, iphone, convert);
      && |up.stored| == |ImageBodies(parts)|
      && forall k :: 0 <= k < |up.stored| ==> convert(ImageBodies(parts)[k], iphone) == Success(up.stored[k])
  {
    if parts != [] {
      UploadStoresEveryImageField(parts[1..], iphone, convert);
      var up := UploadOutcome(parts, iphone, convert);
      var rest := UploadOutcome(parts[1..], iphone, convert);
      var p := parts[0];
      if p.value.name == Some("image") {
        assert up.stored == [up.stored[0]] + rest.stored;
        assert ImageBodies(parts) == [p.value.bytes.value] + ImageBodies(parts[1..]);
      } else {
        assert ImageBodies(parts) == ImageBodies(parts[1..]);
      }
    }
  }

  /** After a clean upload with an `image` field, the last image stored is the
      conversion of the last `image` field. */
  lemma LastImageWins(parts: seq<Result<MultipartField, string>>, iphone: bool,
                      convert: (Bytes, bool) -> Result<Bytes, string>)
    requires CleanUpload(parts, iphone, convert)
    requires ImageBodies(parts) != []
    ensures var up := UploadOutcome(parts, iphone, convert);
      && up.stored != []
      && convert(ImageBodies(parts)[|ImageBodies(parts)| - 1], iphone) == Success(up.stored[|up.stored| - 1])
  {
    UploadSucceedsIffClean(parts, iphone, convert);
    UploadStoresEveryImageField(parts, iphone, convert);
  }

  /** The wine rows after storing `stored` one after the other: the last one wins. */
  function AfterStoring(ws: seq<Wine>, wineId: int, stored: seq<Bytes>): seq<Wine>
  {
    if stored == [] then ws else SetImage(ws, wineId, stored[|stored| - 1])
  }

  /** `set_wine_image`: convert and store every field named `image`, each
      overwriting the one before, then render the wine table. An error stops
      the loop and keeps what was already stored. */
  method SetWineImage(db: Database, wineId: int, userAgent: string,
                      parts: seq<Result<MultipartField, string>>,
                      convert: (Bytes, bool) -> Result<Bytes, string>)
    returns (r: Result<seq<MainWine>, AppError>)
    requires db.Valid()
    modifies db`wines
    ensures db.Valid()
    ensures var up := UploadOutcome(parts, IsIphone(userAgent), convert);
      && db.wines == AfterStoring(old(db.wines), wineId, up.stored)
      && (r.Success? <==> up.error.None?)
      && (r.Failure? ==> r.error == FromError(up.error.value))
    ensures r.Success? ==> IsWineTable(r.value, db.wines, db.events, db.wineGrapes)
  {
    ghost var iphone := IsIphone(userAgent);
    ghost var whole := UploadOutcome(parts, iphone, convert);
    ghost var stored: seq<Bytes> := [];
    ghost var remaining := whole;
    assert parts[0..] == parts;
    var i := 0;
    while i < |parts|
      invariant 0 <= i <= |parts|
      invariant db.Valid()
      invariant db.wines == AfterStoring(old(db.wines), wineId, stored)
      invariant remaining == UploadOutcome(parts[i..], iphone, convert)
      invariant whole == Upload(stored + remaining.stored, remaining.error)
    {
      UploadOutcomeFrom(parts, i, iphone, convert);
      ghost var next := UploadOutcome(parts[i + 1..], iphone, convert);
      UploadAdvance(whole, stored, parts[i], iphone, convert, next);
      match parts[i] {
        case Failure(e) =>
          return Failure(FromError(e));
        case Success(field) =>
          if field.name == Some("image") {
            match field.bytes {
              case Failure(e) =>
                return Failure(FromError(e));
              case Success(data) =>
                var isIphone := Contains(userAgent, "iPhone");
                var converted := convert(data, isIphone);
                if converted.Failure? {
                  return Failure(FromError("Image conversion"));
                }
                SetImageTwiceAfter(old(db.wines), wineId, stored, converted.value);
                db.SetWineImage(wineId, converted.value);
                stored := stored + [converted.value];
            }
          }
      }
      remaining := next;
      i := i + 1;
    }
    assert parts[i..] == [];
    assert stored + [] == stored;
    var rows, listing := WineTable(db);
    r := Success(rows);
  }

  /** What one turn of the loop leaves of the whole upload: an error ends it
      with what was stored so far; a converted `image` field is stored next. */
  lemma UploadAdvance(whole: Upload, stored: seq<Bytes>, part: Result<MultipartField, string>, iphone: bool,
                      convert: (Bytes, bool) -> Result<Bytes, string>, next: Upload)
    requires var here := UploadStep(part, iphone, convert, next);
      whole == Upload(stored + here.stored, here.error)
    ensures part.Failure? ==> whole == Upload(stored, Some(part.error))
    ensures part.Success? && part.value.name != Some("image") ==>
      whole == Upload(stored + next.stored, next.error)
    ensures part.Success? && part.value.name == Some("image") && part.value.bytes.Failure? ==>
      whole == Upload(stored, Some(part.value.bytes.error))
    ensures part.Success? && part.value.name == Some("image") && part.value.bytes.Success? ==>
      var converted := convert(part.value.bytes.value, iphone);
      && (converted.Failure? ==> whole == Upload(stored, Some("Image conversion")))
      && (converted.Success? ==> whole == Upload((stored + [converted.value]) + next.stored, next.error))
  {
    assert stored + [] == stored;
    if part.Success? && part.value.name == Some("image") && part.value.bytes.Success? {
      var converted := convert(part.value.bytes.value, iphone);
      if converted.Success? {
        assert stored + ([converted.value] + next.stored) == (stored + [converted.value]) + next.stored;
      }
    }
  }

  lemma SetImageTwiceAfter(ws: seq<Wine>, wineId: int, stored: seq<Bytes>, image: Bytes)
    ensures SetImage(AfterStoring(ws, wineId, stored), wineId, image) == AfterStoring(ws, wineId, stored + [image])
  {
    if stored != [] {
      SetImageTwice(ws, wineId, stored[|stored| - 1], image);
    }
  }

  // -------------------------------------------------------------- wine_image

  /** `wine_image`: the stored bytes, or no bytes when the wine has no image. */
  method WineImage(db: Database, wineId: int) returns (r: Result<Bytes, AppError>)
    ensures r.Success? <==> exists i :: 0 <= i < |db.wines| && db.wines[i].id == wineId
    ensures r.Success? ==> exists w :: w in db.wines && w.id == wineId && r.value == w.image.GetOr([])
    ensures r.Success? && db.Valid() ==> forall w :: w in db.wines && w.id == wineId ==> r.value == w.image.GetOr([])
    ensures r.Failure? ==> r.error.status == INTERNAL_SERVER_ERROR
  {
    var image := db.WineImage(wineId);
    if image.Failure? {
      return Failure(FromError("no such wine"));
    }
    r := Success(image.value.GetOr([]));
  }

  // ------------------------------------------------ add_wine, delete_wine, add_comment

  /** `add_wine`: insert the wine. */
  method AddWine(db: Database, name: string, year: int) returns (r: Result<(), AppError>)
    requires db.Valid()
    modifies db`wines
    ensures db.Valid()
    ensures db.wines == old(db.wines) + [Wine(NextWineId(old(db.wines)), name, year, None)]
    ensures r.Success?
  {
    db.AddWine(name, year);
    r := Success(());
  }

  /** `delete_wine`: delete the wine with its rows, then render the wine table. */
  method DeleteWine(db: Database, wineId: int) returns (r: Result<seq<MainWine>, AppError>)
    requires db.Valid()
    modifies db`wines, db`events, db`wineGrapes, db`comments
    ensures db.Valid()
    ensures db.wines == Where(old(db.wines), (w: Wine) => w.id != wineId)
    ensures db.events == Where(old(db.events), (e: WineInvEvent) => e.wineId != wineId)
    ensures db.wineGrapes == GrapesWithout(old(db.wineGrapes), wineId)
    ensures db.comments == Where(old(db.comments), (c: WineComment) => c.wineId != wineId)
    ensures r.Success? && IsWineTable(r.value, db.wines, db.events, db.wineGrapes)
  {
    db.DeleteWine(wineId);
    var rows, listing := WineTable(db);
    r := Success(rows);
  }

  /** `add_comment`: store the comment with the server's current time, then
      render the wine table. */
  method AddComment(db: Database, wineId: int, comment: string, now: DateTime)
    returns (r: Result<seq<MainWine>, AppError>)
    requires db.Valid()
    modifies db`comments
    ensures db.Valid()
    ensures db.comments == old(db.comments) + [WineComment(wineId, comment, now)]
    ensures r.Success? && IsWineTable(r.value, db.wines, db.events, db.wineGrapes)
  {
    db.AddWineComment(wineId, comment, now);
    var rows, listing := WineTable(db);
    r := Success(rows);
  }

  // ------------------------------------------------------------------ client

  /** Add a Barolo 2015, buy 12 bottles on 2024-01-01 and drink 3 on
      2024-06-01: the table then shows 9 bottles for it. */
  method BaroloScenario(now: DateTime)
  {
    var db := new Database([], [], [], ["Nebbiolo"], []);
    var added := AddWine(db, "Barolo", 2015);
    var id := NextWineId([]);
    assert db.wines == [Wine(id, "Barolo", 2015, None)];
    StockWithoutEvents([], id);
    var bought := BuyWine(db, id, Success(Date(2024, 1, 1)), now, 12);
    var drunk := DrinkWine(db, id, Success(Date(2024, 6, 1)), now, 3);
    assert Stock(db.events, id) == 9;
    var rows, listing := WineTable(db);
    assert |rows| == 1;
    assert listing[0] in multiset(db.wines);
    assert rows[0].id == id && rows[0].numBottles == 9;
  }
}
