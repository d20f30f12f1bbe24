/** What the upload form makes of a form: for any parts, sent one after another and cut anywhere, the fields are the
    parts' values in order and the file is the file part's, and exactly the forms within the limits are accepted. */
module FormRoundTrip {
  import opened Prelude
  import opened UploadForm
  import opened ReceiveUpload

  // ---------- forms as their senders see them ----------

  datatype Kind = Value(name: string, text: string) | Upload(filename: string)

  /** One part: raw headers, raw data, and what it is. */
  datatype Item = Item(headers: seq<(Bytes, Bytes)>, data: Bytes, kind: Kind)

  /** The disposition that announces a part. */
  function Announced(kind: Kind): Disposition {
    match kind
    case Value(name, _) => Field(name)
    case Upload(filename) => File("content", Some(filename))
  }

  /** Headers of different names, one of them the disposition; and a value that is UTF-8 and not named like the file. */
  ghost predicate IsItem(c: Codec, item: Item) {
    && Distinct(c, item.headers)
    && (exists k :: 0 <= k < |item.headers| && IsAnnouncement(c, item, k))
    && (item.kind.Value? ==> item.kind.name != "content" && c.utf8(item.data) == Some(item.kind.text))
  }

  predicate Distinct(c: Codec, headers: seq<(Bytes, Bytes)>) {
    forall j, k | 0 <= j < k < |headers| :: c.lowerBytes(headers[j].0) != c.lowerBytes(headers[k].0)
  }

  predicate IsAnnouncement(c: Codec, item: Item, k: int)
    requires 0 <= k < |item.headers|
  {
    && c.lowerBytes(item.headers[k].0) == c.contentDisposition
    && c.disposition(Some(item.headers[k].1)) == Announced(item.kind)
  }

  function HeaderEvents(headers: seq<(Bytes, Bytes)>): History {
    if headers == [] then []
    else
      var last := headers[|headers| - 1];
      HeaderEvents(headers[..|headers| - 1]) + [HeaderField(last.0)] + [HeaderValue(last.1)] + [HeaderEnd]
  }

  function ItemEvents(item: Item): History {
    [PartBegin] + HeaderEvents(item.headers) + [HeadersFinished] + [PartData(item.data)] + [PartEnd]
  }

  function ItemsEvents(items: seq<Item>): History {
    if items == [] then [] else ItemsEvents(items[..|items| - 1]) + ItemEvents(items[|items| - 1])
  }

  /** The callbacks of a whole form, none of them cut. */
  function FormEvents(items: seq<Item>): History {
    ItemsEvents(items) + [End]
  }

  // ---------- what the sender expects ----------

  /** The values sent under a name, in order. */
  function ValuesOf(items: seq<Item>, name: string): seq<string> {
    if items == [] then []
    else
      var last := items[|items| - 1].kind;
      ValuesOf(items[..|items| - 1], name) + if last.Value? && last.name == name then [last.text] else []
  }

  /** The files sent, in order. */
  function Uploads(items: seq<Item>): seq<(string, Bytes)> {
    if items == [] then []
    else
      var last := items[|items| - 1];
      Uploads(items[..|items| - 1]) + if last.kind.Upload? then [(last.kind.filename, last.data)] else []
  }

  function HeaderCost(headers: seq<(Bytes, Bytes)>): nat {
    if headers == [] then 0
    else HeaderCost(headers[..|headers| - 1]) + |headers[|headers| - 1].0| + |headers[|headers| - 1].1|
  }

  /** What counts against the form limit: one per part, the headers, and the values. */
  function Cost(items: seq<Item>): nat {
    if items == [] then 0
    else
      var last := items[|items| - 1];
      Cost(items[..|items| - 1]) + 1 + HeaderCost(last.headers) + if last.kind.Value? then |last.data| else 0
  }

  /** A file name of 1 to 255 letters, digits and `_.+-`. */
  predicate IsSafe(filename: string) {
    && 1 <= |filename| <= 255
    && forall k | 0 <= k < |filename| ::
         || 'a' <= filename[k] <= 'z' || 'A' <= filename[k] <= 'Z' || '0' <= filename[k] <= '9'
         || filename[k] == '_' || filename[k] == '.' || filename[k] == '+' || filename[k] == '-'
  }

  /** Within the limits: 1 MiB for everything but the file, and at most one file, safely named and not too long. */
  predicate IsWithinLimits(items: seq<Item>, maximumBytes: nat) {
    && Cost(items) <= 1_048_576
    && |Uploads(items)| <= 1
    && (|Uploads(items)| == 1 ==> IsSafe(Uploads(items)[0].0) && |Uploads(items)[0].1| <= maximumBytes)
  }

  // ---------- one more callback ----------

  lemma MeaningOfBegin(c: Codec, h: History)
    ensures
      var g := h + [PartBegin];
      && NameSoFar(g) == NameSoFar(h) && ValueSoFar(g) == ValueSoFar(h)
      && Headers(c, g) == map[] && FieldSoFar(c, g) == []
      && FileBytes(c, g) == FileBytes(c, h) && Fields(c, g) == Fields(c, h)
      && Overhead(c, g) == Overhead(c, h) + 1 && Filename(c, g) == Filename(c, h)
  {
    assert Front(h + [PartBegin]) == h;
  }

  lemma MeaningOfHeaderEnd(c: Codec, h: History)
    ensures
      var g := h + [HeaderEnd];
      && NameSoFar(g) == [] && ValueSoFar(g) == []
      && Headers(c, g) == Headers(c, h)[c.lowerBytes(NameSoFar(h)) := ValueSoFar(h)]
      && FileBytes(c, g) == FileBytes(c, h) && FieldSoFar(c, g) == FieldSoFar(c, h) && Fields(c, g) == Fields(c, h)
      && Overhead(c, g) == Overhead(c, h) && Filename(c, g) == Filename(c, h)
  {
    assert Front(h + [HeaderEnd]) == h;
  }

  lemma MeaningOfPartEnd(c: Codec, h: History)
    ensures
      var g := h + [PartEnd];
      && NameSoFar(g) == NameSoFar(h) && ValueSoFar(g) == ValueSoFar(h)
      && FileBytes(c, g) == FileBytes(c, h) && Overhead(c, g) == Overhead(c, h) && Filename(c, g) == Filename(c, h)
      && Fields(c, g) == (if !Part(c, h).File? && c.utf8(FieldSoFar(c, h)).Some?
                          then Append(Fields(c, h), PartName(c, h), c.utf8(FieldSoFar(c, h)).value)
                          else Fields(c, h))
  {
    assert Front(h + [PartEnd]) == h;
  }

  lemma MeaningOfEnd(c: Codec, h: History)
    ensures
      var g := h + [End];
      && FileBytes(c, g) == FileBytes(c, h) && Fields(c, g) == Fields(c, h) && Filename(c, g) == Filename(c, h)
      && Finished(g)
  {
    assert Front(h + [End]) == h;
  }

  /** An accepted form is within the form limit. */
  lemma WithinLimit(c: Codec, maximumBytes: nat, h: History)
    requires FirstRefusal(c, maximumBytes, h).None?
    ensures Overhead(c, h) <= FORM_LIMIT
  {
    LawfulIff(c, maximumBytes, h);
    LawfulForm(c, maximumBytes, h);
  }

  // ---------- headers ----------

  function HeaderMap(c: Codec, headers: seq<(Bytes, Bytes)>): map<Bytes, Bytes> {
    if headers == [] then map[]
    else
      var last := headers[|headers| - 1];
      HeaderMap(c, headers[..|headers| - 1])[c.lowerBytes(last.0) := last.1]
  }

  lemma {:induction false} HeaderMapHas(c: Codec, headers: seq<(Bytes, Bytes)>, name: Bytes)
    ensures name in HeaderMap(c, headers) <==> exists k :: 0 <= k < |headers| && c.lowerBytes(headers[k].0) == name
  {
    if headers != [] {
      var n := |headers| - 1;
      HeaderMapHas(c, headers[..n], name);
      if k :| 0 <= k < n && c.lowerBytes(headers[k].0) == name {
        assert headers[..n][k] == headers[k];
      }
    }
  }

  lemma {:induction false} HeaderMapAt(c: Codec, headers: seq<(Bytes, Bytes)>, k: nat)
    requires k < |headers| && Distinct(c, headers)
    ensures c.lowerBytes(headers[k].0) in HeaderMap(c, headers)
    ensures HeaderMap(c, headers)[c.lowerBytes(headers[k].0)] == headers[k].1
  {
    var n := |headers| - 1;
    if k < n {
      assert headers[..n][k] == headers[k];
      HeaderMapAt(c, headers[..n], k);
    }
  }

  /** Between two headers, and what has not changed since `h`. */
  ghost predicate AtHeaders(c: Codec, h: History, g: History, headers: map<Bytes, Bytes>, cost: nat) {
    && NameSoFar(g) == [] && ValueSoFar(g) == []
    && Headers(c, g) == headers
    && FileBytes(c, g) == FileBytes(c, h) && FieldSoFar(c, g) == FieldSoFar(c, h) && Fields(c, g) == Fields(c, h)
    && Filename(c, g) == Filename(c, h) && Overhead(c, g) == Overhead(c, h) + cost
  }

  lemma OneHeader(c: Codec, maximumBytes: nat, h: History, g: History, headers: map<Bytes, Bytes>, cost: nat, x: (Bytes, Bytes))
    requires AtHeaders(c, h, g, headers, cost) && c.lowerBytes(x.0) !in headers
    ensures
      var next := g + [HeaderField(x.0)] + [HeaderValue(x.1)] + [HeaderEnd];
      && AtHeaders(c, h, next, headers[c.lowerBytes(x.0) := x.1], cost + |x.0| + |x.1|)
      && (FirstRefusal(c, maximumBytes, next).None? <==>
            FirstRefusal(c, maximumBytes, g).None? && Overhead(c, next) <= FORM_LIMIT)
  {
    assert [] + x.0 == x.0 && [] + x.1 == x.1;
    var named := g + [HeaderField(x.0)];
    var valued := named + [HeaderValue(x.1)];
    MeaningOfName(c, g, x.0);
    MeaningOfValue(c, named, x.1);
    MeaningOfHeaderEnd(c, valued);
    RefusalSnoc(c, maximumBytes, g, HeaderField(x.0));
    RefusalSnoc(c, maximumBytes, named, HeaderValue(x.1));
    RefusalSnoc(c, maximumBytes, valued, HeaderEnd);
  }

  lemma {:induction false} AllHeaders(c: Codec, maximumBytes: nat, h: History, headers: seq<(Bytes, Bytes)>)
    requires AtHeaders(c, h, h, map[], 0) && Distinct(c, headers)
    ensures
      var g := h + HeaderEvents(headers);
      && AtHeaders(c, h, g, HeaderMap(c, headers), HeaderCost(headers))
      && (FirstRefusal(c, maximumBytes, g).None? <==>
            FirstRefusal(c, maximumBytes, h).None? && Overhead(c, g) <= FORM_LIMIT)
  {
    if headers == [] {
      assert h + [] == h;
      if FirstRefusal(c, maximumBytes, h).None? {
        WithinLimit(c, maximumBytes, h);
      }
    } else {
      var n := |headers| - 1;
      var last := headers[n];
      AllHeaders(c, maximumBytes, h, headers[..n]);
      HeaderMapHas(c, headers[..n], c.lowerBytes(last.0));
      var g := h + HeaderEvents(headers[..n]);
      OneHeader(c, maximumBytes, h, g, HeaderMap(c, headers[..n]), HeaderCost(headers[..n]), last);
      HeaderEventsSnoc(h, headers);
    }
  }

  lemma HeaderEventsSnoc(h: History, headers: seq<(Bytes, Bytes)>)
    requires headers != []
    ensures
      var last := headers[|headers| - 1];
      h + HeaderEvents(headers) ==
      h + HeaderEvents(headers[..|headers| - 1]) + [HeaderField(last.0)] + [HeaderValue(last.1)] + [HeaderEnd]
  {
    var last := headers[|headers| - 1];
    Flatten(h, HeaderEvents(headers[..|headers| - 1]), [HeaderField(last.0)], [HeaderValue(last.1)], [HeaderEnd]);
  }

  lemma Flatten(h: History, a: History, x: History, y: History, z: History)
    ensures h + (a + x + y + z) == h + a + x + y + z
  {
    assert h + (a + x) == h + a + x;
    assert h + (a + x + y) == h + a + x + y;
  }

  // ---------- parts ----------

  /** Between two parts. */
  predicate Between(h: History) {
    NameSoFar(h) == [] && ValueSoFar(h) == []
  }

  lemma BeginItem(c: Codec, maximumBytes: nat, h: History, item: Item)
    requires Between(h) && IsItem(c, item)
    ensures
      var g := h + [PartBegin] + HeaderEvents(item.headers);
      && Between(g) && FieldSoFar(c, g) == [] && DispositionOf(c, Headers(c, g)) == Announced(item.kind)
      && FileBytes(c, g) == FileBytes(c, h) && Fields(c, g) == Fields(c, h) && Filename(c, g) == Filename(c, h)
      && Overhead(c, g) == Overhead(c, h) + 1 + HeaderCost(item.headers)
      && (FirstRefusal(c, maximumBytes, g).None? <==>
            FirstRefusal(c, maximumBytes, h).None? && Overhead(c, g) <= FORM_LIMIT)
  {
    var begun := h + [PartBegin];
    MeaningOfBegin(c, h);
    RefusalSnoc(c, maximumBytes, h, PartBegin);
    AllHeaders(c, maximumBytes, begun, item.headers);
    var k :| 0 <= k < |item.headers| && IsAnnouncement(c, item, k);
    HeaderMapAt(c, item.headers, k);
  }

  lemma EndValue(c: Codec, maximumBytes: nat, g: History, item: Item)
    requires Between(g) && IsItem(c, item) && item.kind.Value?
    requires FieldSoFar(c, g) == [] && DispositionOf(c, Headers(c, g)) == Announced(item.kind)
    ensures
      var e := g + [HeadersFinished] + [PartData(item.data)] + [PartEnd];
      && Between(e) && FileBytes(c, e) == FileBytes(c, g) && Filename(c, e) == Filename(c, g)
      && Fields(c, e) == Append(Fields(c, g), item.kind.name, item.kind.text)
      && Overhead(c, e) == Overhead(c, g) + |item.data|
      && (FirstRefusal(c, maximumBytes, e).None? <==>
            FirstRefusal(c, maximumBytes, g).None? && Overhead(c, e) <= FORM_LIMIT)
  {
    var f := g + [HeadersFinished];
    var d := f + [PartData(item.data)];
    MeaningOfFinish(c, g);
    MeaningOfData(c, f, item.data);
    MeaningOfPartEnd(c, d);
    RefusalSnoc(c, maximumBytes, g, HeadersFinished);
    RefusalSnoc(c, maximumBytes, f, PartData(item.data));
    RefusalSnoc(c, maximumBytes, d, PartEnd);
    assert [] + item.data == item.data;
  }

  lemma EndUpload(c: Codec, maximumBytes: nat, g: History, item: Item)
    requires Between(g) && item.kind.Upload?
    requires DispositionOf(c, Headers(c, g)) == Announced(item.kind)
    ensures
      var e := g + [HeadersFinished] + [PartData(item.data)] + [PartEnd];
      && Between(e) && FileBytes(c, e) == FileBytes(c, g) + item.data && Filename(c, e) == item.kind.filename
      && Fields(c, e) == Fields(c, g) && Overhead(c, e) == Overhead(c, g)
      && (FirstRefusal(c, maximumBytes, e).None? <==>
            && FirstRefusal(c, maximumBytes, g).None?
            && Filename(c, g) == "" && IsSafe(item.kind.filename) && |FileBytes(c, e)| <= maximumBytes)
  {
    var f := g + [HeadersFinished];
    var d := f + [PartData(item.data)];
    MeaningOfFinish(c, g);
    MeaningOfData(c, f, item.data);
    MeaningOfPartEnd(c, d);
    RefusalSnoc(c, maximumBytes, g, HeadersFinished);
    RefusalSnoc(c, maximumBytes, f, PartData(item.data));
    RefusalSnoc(c, maximumBytes, d, PartEnd);
    SafeIff(item.kind.filename);
  }

  lemma SafeIff(filename: string)
    ensures SafeFilename(filename) <==> IsSafe(filename)
  {
  }

  /** What one part adds to a form. */
  lemma ItemMeaning(c: Codec, maximumBytes: nat, h: History, item: Item)
    requires Between(h) && IsItem(c, item)
    ensures
      var e := h + ItemEvents(item);
      && Between(e)
      && FileBytes(c, e) == FileBytes(c, h) + (if item.kind.Upload? then item.data else [])
      && Filename(c, e) == (if item.kind.Upload? then item.kind.filename else Filename(c, h))
      && Fields(c, e) == (if item.kind.Value? then Append(Fields(c, h), item.kind.name, item.kind.text) else Fields(c, h))
      && Overhead(c, e) ==
         Overhead(c, h) + 1 + HeaderCost(item.headers) + (if item.kind.Value? then |item.data| else 0)
      && (FirstRefusal(c, maximumBytes, e).None? <==>
            && FirstRefusal(c, maximumBytes, h).None? && Overhead(c, e) <= FORM_LIMIT
            && (item.kind.Upload? ==>
                  Filename(c, h) == "" && IsSafe(item.kind.filename) && |FileBytes(c, e)| <= maximumBytes))
  {
    var g := h + [PartBegin] + HeaderEvents(item.headers);
    BeginItem(c, maximumBytes, h, item);
    if item.kind.Value? {
      EndValue(c, maximumBytes, g, item);
    } else {
      EndUpload(c, maximumBytes, g, item);
    }
    ItemFlat(h, item);
  }

  lemma ItemFlat(h: History, item: Item)
    ensures h + ItemEvents(item) ==
            h + [PartBegin] + HeaderEvents(item.headers) + [HeadersFinished] + [PartData(item.data)] + [PartEnd]
  {
    var begun := [PartBegin] + HeaderEvents(item.headers);
    Flatten(h, begun, [HeadersFinished], [PartData(item.data)], [PartEnd]);
    assert h + begun == h + [PartBegin] + HeaderEvents(item.headers);
  }

  // ---------- whole forms ----------

  /** The fields of a form are the values sent, name by name. */
  ghost predicate HasValues(fields: map<string, seq<string>>, items: seq<Item>) {
    forall name :: if name in fields then fields[name] == ValuesOf(items, name) != [] else ValuesOf(items, name) == []
  }

  function FileOf(items: seq<Item>): Bytes {
    if items == [] then []
    else
      var last := items[|items| - 1];
      FileOf(items[..|items| - 1]) + if last.kind.Upload? then last.data else []
  }

  function LastName(items: seq<Item>): string {
    if items == [] then ""
    else if items[|items| - 1].kind.Upload? then items[|items| - 1].kind.filename
    else LastName(items[..|items| - 1])
  }

  lemma {:induction false} SoleUpload(items: seq<Item>)
    ensures Uploads(items) == [] ==> FileOf(items) == [] && LastName(items) == ""
    ensures |Uploads(items)| == 1 ==> FileOf(items) == Uploads(items)[0].1 && LastName(items) == Uploads(items)[0].0
  {
    if items != [] {
      SoleUpload(items[..|items| - 1]);
    }
  }

  /** What a form of parts comes to: its values, its file, its cost, and whether it is accepted. */
  lemma {:induction false} ItemsMeaning(c: Codec, maximumBytes: nat, items: seq<Item>)
    requires forall item | item in items :: IsItem(c, item)
    ensures
      var h := ItemsEvents(items);
      && Between(h)
      && FileBytes(c, h) == FileOf(items) && Filename(c, h) == LastName(items)
      && Overhead(c, h) == Cost(items)
      && (FirstRefusal(c, maximumBytes, h).None? <==> IsWithinLimits(items, maximumBytes))
    ensures HasValues(Fields(c, ItemsEvents(items)), items)
  {
    if items != [] {
      var n := |items| - 1;
      var front, item := items[..n], items[n];
      assert item in items && forall x | x in front :: x in items;
      ItemsMeaning(c, maximumBytes, front);
      ItemMeaning(c, maximumBytes, ItemsEvents(front), item);
      SoleUpload(front);
      LimitsSnoc(items, maximumBytes);
      AppendHasValues(Fields(c, ItemsEvents(front)), items);
    }
  }

  /** One more part is within the limits if what it adds is. */
  lemma LimitsSnoc(items: seq<Item>, maximumBytes: nat)
    requires items != []
    ensures
      var (front, last) := (items[..|items| - 1], items[|items| - 1]);
      IsWithinLimits(items, maximumBytes) <==>
      && IsWithinLimits(front, maximumBytes) && Cost(items) <= FORM_LIMIT
      && (last.kind.Upload? ==>
            LastName(front) == "" && IsSafe(last.kind.filename) && |FileOf(items)| <= maximumBytes)
  {
    SoleUpload(items[..|items| - 1]);
    SoleUpload(items);
  }

  lemma AppendHasValues(fields: map<string, seq<string>>, items: seq<Item>)
    requires items != [] && HasValues(fields, items[..|items| - 1])
    ensures
      var last := items[|items| - 1].kind;
      HasValues(if last.Value? then Append(fields, last.name, last.text) else fields, items)
  {
  }

  // ---------- cut anywhere ----------

  predicate SameKind(p: Event, e: Event) {
    || (p.HeaderField? && e.HeaderField?) || (p.HeaderValue? && e.HeaderValue?) || (p.PartData? && e.PartData?)
  }

  function DataOf(pieces: History): Bytes {
    if pieces == [] then []
    else DataOf(Front(pieces)) + if IsData(Last(pieces)) then Last(pieces).data else []
  }

  /** One callback, or the callbacks with the pieces of its data: any number of them, none for no data. */
  ghost predicate IsPieces(pieces: History, e: Event) {
    if IsData(e) then (forall p | p in pieces :: SameKind(p, e)) && DataOf(pieces) == e.data
    else pieces == [e]
  }

  /** The callbacks `g`, each cut in pieces. */
  ghost predicate IsCutting(h: History, g: History)
    decreases |g|
  {
    if g == [] then h == []
    else exists k: nat :: k <= |h| && IsCutting(h[..k], Front(g)) && IsPieces(h[k..], Last(g))
  }

  lemma SameFormTransitive(c: Codec, maximumBytes: nat, a: History, b: History, d: History)
    requires SameForm(c, maximumBytes, a, b) && SameForm(c, maximumBytes, b, d)
    ensures SameForm(c, maximumBytes, a, d)
  {
  }

  /** A callback without data changes nothing. */
  lemma EmptyPiece(c: Codec, maximumBytes: nat, h: History, e: Event)
    requires IsData(e) && e.data == []
    ensures SameForm(c, maximumBytes, h + [e], h)
  {
    match e {
      case PartData(_) => MeaningOfData(c, h, []);
      case HeaderField(_) => MeaningOfName(c, h, []);
      case HeaderValue(_) => MeaningOfValue(c, h, []);
    }
    assert NameSoFar(h) + [] == NameSoFar(h) && ValueSoFar(h) + [] == ValueSoFar(h);
    assert FileBytes(c, h) + [] == FileBytes(c, h) && FieldSoFar(c, h) + [] == FieldSoFar(c, h);
    RefusalSnoc(c, maximumBytes, h, e);
    if FirstRefusal(c, maximumBytes, h).None? {
      LawfulIff(c, maximumBytes, h);
      LawfulForm(c, maximumBytes, h);
    }
  }

  lemma {:induction false} PiecesSame(c: Codec, maximumBytes: nat, h: History, e: Event, pieces: History)
    requires IsData(e) && IsPieces(pieces, e)
    ensures SameForm(c, maximumBytes, h + [e], h + pieces)
    decreases |pieces|
  {
    if pieces == [] {
      EmptyPiece(c, maximumBytes, h, e);
      assert h + [] == h;
    } else {
      var front, last := Front(pieces), Last(pieces);
      assert last in pieces && forall p | p in front :: p in pieces;
      var first := e.(data := DataOf(front));
      CutMeaning(c, h, e, DataOf(front), last.data);
      CutRefusal(c, maximumBytes, h, e, DataOf(front), last.data);
      assert e.(data := last.data) == last;
      PiecesSame(c, maximumBytes, h, first, front);
      SameFormStep(c, maximumBytes, h + [first], h + front, last);
      assert h + front + [last] == h + pieces;
      SameFormTransitive(c, maximumBytes, h + [e], h + [first] + [last], h + pieces);
    }
  }

  /** Cutting callbacks, all of them and anywhere, changes neither what a form means nor whether it is accepted. */
  lemma {:induction false} CuttingIsSame(c: Codec, maximumBytes: nat, h: History, g: History)
    requires IsCutting(h, g)
    ensures SameForm(c, maximumBytes, g, h)
    decreases |g|
  {
    if g != [] {
      var k: nat :| k <= |h| && IsCutting(h[..k], Front(g)) && IsPieces(h[k..], Last(g));
      CuttingIsSame(c, maximumBytes, h[..k], Front(g));
      CuttingStep(c, maximumBytes, h[..k], Front(g), h[k..], Last(g));
      assert g == Front(g) + [Last(g)] && h == h[..k] + h[k..];
    }
  }

  lemma CuttingStep(c: Codec, maximumBytes: nat, h: History, g: History, pieces: History, e: Event)
    requires SameForm(c, maximumBytes, g, h) && IsPieces(pieces, e)
    ensures SameForm(c, maximumBytes, g + [e], h + pieces)
  {
    SameFormStep(c, maximumBytes, g, h, e);
    if IsData(e) {
      PiecesSame(c, maximumBytes, h, e, pieces);
      SameFormTransitive(c, maximumBytes, g + [e], h + [e], h + pieces);
    }
  }

  // ---------- the round trip ----------

  /** A form of any parts, one after another and cut anywhere: it is accepted exactly if it is within the limits; every
      name has exactly its values, in order; and the file is the one sent. */
  lemma FormRoundTrip(c: Codec, maximumBytes: nat, items: seq<Item>, h: History)
    requires forall item | item in items :: IsItem(c, item)
    requires IsCutting(h, FormEvents(items))
    ensures Lawful(c, maximumBytes, h) <==> IsWithinLimits(items, maximumBytes)
    ensures Finished(h)
    ensures HasValues(Fields(c, h), items)
    ensures Uploads(items) == [] ==> Filename(c, h) == "" && FileBytes(c, h) == []
    ensures |Uploads(items)| == 1 ==> (Filename(c, h), FileBytes(c, h)) == Uploads(items)[0]
  {
    ItemsMeaning(c, maximumBytes, items);
    MeaningOfEnd(c, ItemsEvents(items));
    RefusalSnoc(c, maximumBytes, ItemsEvents(items), End);
    CuttingIsSame(c, maximumBytes, h, FormEvents(items));
    LawfulIff(c, maximumBytes, h);
    SoleUpload(items);
  }

  /** What an upload must say: the action and the protocol version, once each; digests of the file, at most one of a kind,
      empty or right; no attestations. */
  ghost predicate SaysRight(c: Codec, items: seq<Item>, file: Bytes) {
    var sha256 := ValuesOf(items, "sha256_digest");
    var md5 := ValuesOf(items, "md5_digest");
    var blake2 := ValuesOf(items, "blake2_256_digest");
    && ValuesOf(items, ":action") == ["file_upload"]
    && ValuesOf(items, "protocol_version") == ["1"]
    && (sha256 == [] || (|sha256| == 1 && (sha256[0] == "" || c.lower(sha256[0]) == c.sha256(file))))
    && (md5 == [] || (|md5| == 1 && (md5[0] == "" || md5[0] == c.md5(file) || md5[0] == c.md5Base64(file))))
    && (blake2 == [] || (|blake2| == 1 && (blake2[0] == "" || c.lower(blake2[0]) == c.blake2(file))))
    && ValuesOf(items, "attestations") == []
  }

  lemma ScalarOf(fields: map<string, seq<string>>, items: seq<Item>, name: string)
    requires HasValues(fields, items)
    ensures forall value :: Scalar(fields, name, true) == Some(value) <==> ValuesOf(items, name) == [value]
    ensures Scalar(fields, name, false) ==
            if ValuesOf(items, name) == [] then Some("")
            else if |ValuesOf(items, name)| == 1 then Some(ValuesOf(items, name)[0]) else None
    ensures name in fields <==> ValuesOf(items, name) != []
  {
    var values := ValuesOf(items, name);
    if |values| == 1 {
      assert values == [values[0]];
    }
  }

  lemma ProtocolIs(c: Codec, fields: map<string, seq<string>>, items: seq<Item>, file: Bytes)
    requires HasValues(fields, items)
    ensures FollowsProtocol(c, fields, file) <==> SaysRight(c, items, file)
  {
    ScalarOf(fields, items, ":action");
    ScalarOf(fields, items, "protocol_version");
    ScalarOf(fields, items, "attestations");
    DigestsAre(c, fields, items, file);
  }

  /** A digest: none, or one that is empty or right. */
  predicate NoneOr(values: seq<string>, right: bool) {
    values == [] || (|values| == 1 && (values[0] == "" || right))
  }

  lemma DigestsAre(c: Codec, fields: map<string, seq<string>>, items: seq<Item>, file: Bytes)
    requires HasValues(fields, items)
    ensures
      var sha256 := ValuesOf(items, "sha256_digest");
      Sha256Agrees(c, fields, file) <==> NoneOr(sha256, |sha256| == 1 && c.lower(sha256[0]) == c.sha256(file))
    ensures
      var md5 := ValuesOf(items, "md5_digest");
      Md5Agrees(c, fields, file) <==> NoneOr(md5, |md5| == 1 && (md5[0] == c.md5(file) || md5[0] == c.md5Base64(file)))
    ensures
      var blake2 := ValuesOf(items, "blake2_256_digest");
      Blake2Agrees(c, fields, file) <==> NoneOr(blake2, |blake2| == 1 && c.lower(blake2[0]) == c.blake2(file))
  {
    ScalarOf(fields, items, "sha256_digest");
    ScalarOf(fields, items, "md5_digest");
    ScalarOf(fields, items, "blake2_256_digest");
  }

  /** A body that parses into the callbacks of a form, cut anywhere, is accepted exactly if the form is within the limits,
      holds one file, not empty, and says the right things. */
  lemma BodyAccepted(c: Codec, p: Parser, chunks: seq<Bytes>, maximumBytes: nat, items: seq<Item>)
    requires forall item | item in items :: IsItem(c, item)
    requires Unbroken(p, chunks) && |Concat(chunks)| <= maximumBytes + FORM_LIMIT
    requires IsCutting(AllEvents(p, chunks), FormEvents(items))
    ensures IsAccepted(c, p, chunks, maximumBytes) <==>
            && IsWithinLimits(items, maximumBytes)
            && |Uploads(items)| == 1 && Uploads(items)[0].1 != []
            && SaysRight(c, items, Uploads(items)[0].1)
  {
    var h := AllEvents(p, chunks);
    FormRoundTrip(c, maximumBytes, items, h);
    ProtocolIs(c, Fields(c, h), items, FileBytes(c, h));
  }

  /** A body that is accepted may declare its true length. */
  lemma TrueLengthIsAdmissible(c: Codec, p: Parser, chunks: seq<Bytes>, maximumBytes: nat)
    requires IsAccepted(c, p, chunks, maximumBytes)
    ensures IsAdmissible(Request(true, Length(|Concat(chunks)|), Some(chunks)), maximumBytes)
    ensures IsAdmissible(Request(true, Absent, Some(chunks)), maximumBytes)
  {
  }

  // ---------- an accepted body ----------

  /** A codec of one-byte names and values, for an example. */
  const EXAMPLE: Codec := Codec(
    header => if header == Some([1]) then Field(":action")
              else if header == Some([2]) then Field("protocol_version")
              else if header == Some([3]) then File("content", Some("p.whl")) else Malformed,
    bytes => if bytes == [1] then Some("file_upload") else if bytes == [2] then Some("1") else None,
    name => name, text => text, [0], _ => "", _ => "", _ => "", _ => "")

  /** The usual form: action, protocol version, and the file. */
  const ITEMS: seq<Item> := [
    Item([([0], [1])], [1], Value(":action", "file_upload")),
    Item([([0], [2])], [2], Value("protocol_version", "1")),
    Item([([0], [3])], [7], Upload("p.whl"))]

  /** It reports the whole form at the first chunk. */
  const PARSER: Parser := (before, chunk) => Written(if before == [] then FormEvents(ITEMS) else [], false)

  lemma {:induction false} CuttingOfItself(g: History)
    ensures IsCutting(g, g)
    decreases |g|
  {
    if g != [] {
      CuttingOfItself(Front(g));
      var k := |g| - 1;
      assert g[..k] == Front(g) && g[k..] == [Last(g)];
      assert IsPieces([Last(g)], Last(g)) by {
        assert Front([Last(g)]) == [];
      }
    }
  }

  lemma UsualFormAccepted()
    ensures IsAccepted(EXAMPLE, PARSER, [[0]], 1)
  {
    var chunks: seq<Bytes> := [[0]];
    ExampleItems();
    assert AllEvents(PARSER, chunks) == FormEvents(ITEMS) by {
      assert chunks[..0] == [];
    }
    CuttingOfItself(FormEvents(ITEMS));
    assert Concat(chunks) == [0] + Concat(chunks[1..]);
    ExampleLimits();
    ExampleSays();
    BodyAccepted(EXAMPLE, PARSER, chunks, 1, ITEMS);
  }

  lemma ExampleItems()
    ensures forall item | item in ITEMS :: IsItem(EXAMPLE, item)
  {
    forall item | item in ITEMS ensures IsItem(EXAMPLE, item) {
      assert IsAnnouncement(EXAMPLE, item, 0);
    }
  }

  lemma ExampleLimits()
    ensures IsWithinLimits(ITEMS, 1) && Uploads(ITEMS) == [("p.whl", [7])]
  {
    ThreeItems(ITEMS[0], ITEMS[1], ITEMS[2], "");
    assert ITEMS == [ITEMS[0], ITEMS[1], ITEMS[2]];
    OneItem(ITEMS[0], [0], [1]);
    OneItem(ITEMS[1], [0], [2]);
    OneItem(ITEMS[2], [0], [3]);
  }

  lemma OneItem(item: Item, name: Bytes, value: Bytes)
    requires item.headers == [(name, value)]
    ensures Cost([item]) == 1 + |name| + |value| + if item.kind.Value? then |item.data| else 0
    ensures Uploads([item]) == if item.kind.Upload? then [(item.kind.filename, item.data)] else []
  {
    assert [item][..0] == [] && item.headers[..0] == [];
    assert HeaderCost(item.headers) == HeaderCost(item.headers[..0]) + |name| + |value|;
  }

  lemma ExampleSays()
    ensures SaysRight(EXAMPLE, ITEMS, [7])
  {
    ExampleValues(":action");
    ExampleValues("protocol_version");
    ExampleValues("sha256_digest");
    ExampleValues("md5_digest");
    ExampleValues("blake2_256_digest");
    ExampleValues("attestations");
  }

  lemma ExampleValues(name: string)
    ensures ValuesOf(ITEMS, name) ==
            if name == ":action" then ["file_upload"] else if name == "protocol_version" then ["1"] else []
  {
    ThreeItems(ITEMS[0], ITEMS[1], ITEMS[2], name);
    assert ITEMS == [ITEMS[0], ITEMS[1], ITEMS[2]];
    assert [ITEMS[0]][..0] == [] && [ITEMS[1]][..0] == [] && [ITEMS[2]][..0] == [];
  }

  lemma ThreeItems(x: Item, y: Item, z: Item, name: string)
    ensures Uploads([x, y, z]) == Uploads([x]) + Uploads([y]) + Uploads([z])
    ensures Cost([x, y, z]) == Cost([x]) + Cost([y]) + Cost([z])
    ensures ValuesOf([x, y, z], name) == ValuesOf([x], name) + ValuesOf([y], name) + ValuesOf([z], name)
  {
    assert [x, y, z][..2] == [x, y] && [x, y][..1] == [x];
    assert [x][..0] == [] && [y][..0] == [] && [z][..0] == [];
  }
}
