/** The streaming multipart form of src/wheelguard/upload_form.py.

    `python_multipart` is a parameter: the form only sees its callbacks, here a list of events. The first
    half gives every quantity of the form its meaning over the whole history of events; the class
    `UploadForm` keeps those quantities in mutable fields, one callback at a time. */
module UploadForm {
  import opened Prelude

  const FORM_LIMIT: nat := 1024 * 1024

  /** The callbacks of the multipart parser. */
  datatype Event =
    | PartBegin
    | HeaderField(data: Bytes)
    | HeaderValue(data: Bytes)
    | HeaderEnd
    | HeadersFinished
    | PartData(data: Bytes)
    | PartEnd
    | End

  /** A Content-Disposition header: a form field, a file, or neither. */
  datatype Disposition =
    | Malformed
    | Field(name: string)
    | File(name: string, filename: Option<string>)  // None: the file name is not UTF-8

  /** Library calls the form relies on. */
  datatype Codec = Codec(
    disposition: Option<Bytes> -> Disposition,
    utf8: Bytes -> Option<string>,
    lowerBytes: Bytes -> Bytes,
    lower: string -> string,
    contentDisposition: Bytes,
    sha256: Bytes -> string,
    md5: Bytes -> string,
    md5Base64: Bytes -> string,
    blake2: Bytes -> string)

  // ---------- the meaning of a history of events ----------

  type History = seq<Event>

  function Front(h: History): History
    requires h != []
  {
    h[..|h| - 1]
  }

  function Last(h: History): Event
    requires h != []
  {
    h[|h| - 1]
  }

  /** The header name being received. */
  function NameSoFar(h: History): Bytes {
    if h == [] then []
    else match Last(h)
      case HeaderField(data) => NameSoFar(Front(h)) + data
      case HeaderEnd => []
      case _ => NameSoFar(Front(h))
  }

  function ValueSoFar(h: History): Bytes {
    if h == [] then []
    else match Last(h)
      case HeaderValue(data) => ValueSoFar(Front(h)) + data
      case HeaderEnd => []
      case _ => ValueSoFar(Front(h))
  }

  /** The headers of the current part, by lower-case name. */
  function Headers(c: Codec, h: History): map<Bytes, Bytes> {
    if h == [] then map[]
    else match Last(h)
      case PartBegin => map[]
      case HeaderEnd =>
        var f := Front(h);
        Headers(c, f)[c.lowerBytes(NameSoFar(f)) := ValueSoFar(f)]
      case _ => Headers(c, Front(h))
  }

  function DispositionOf(c: Codec, headers: map<Bytes, Bytes>): Disposition {
    c.disposition(if c.contentDisposition in headers then Some(headers[c.contentDisposition]) else None)
  }

  /** What the current part is, from its last finished headers. */
  function Part(c: Codec, h: History): Disposition {
    if h == [] then Field("")
    else if Last(h).HeadersFinished? then DispositionOf(c, Headers(c, Front(h)))
    else Part(c, Front(h))
  }

  /** The file: all data of file parts, in order. */
  function FileBytes(c: Codec, h: History): Bytes {
    if h == [] then []
    else if Last(h).PartData? && Part(c, Front(h)).File? then FileBytes(c, Front(h)) + Last(h).data
    else FileBytes(c, Front(h))
  }

  /** The data of the current field so far. */
  function FieldSoFar(c: Codec, h: History): Bytes {
    if h == [] then []
    else match Last(h)
      case PartBegin => []
      case PartData(data) =>
        if Part(c, Front(h)).File? then FieldSoFar(c, Front(h)) else FieldSoFar(c, Front(h)) + data
      case _ => FieldSoFar(c, Front(h))
  }

  function Append(fields: map<string, seq<string>>, name: string, value: string): map<string, seq<string>> {
    fields[name := (if name in fields then fields[name] else []) + [value]]
  }

  /** Every value of every field, in order. */
  function Fields(c: Codec, h: History): map<string, seq<string>> {
    if h == [] then map[]
    else
      var f := Front(h);
      if Last(h).PartEnd? && !Part(c, f).File? && c.utf8(FieldSoFar(c, f)).Some? then
        Append(Fields(c, f), PartName(c, f), c.utf8(FieldSoFar(c, f)).value)
      else Fields(c, f)
  }

  /** Everything but file data counts against the form limit. */
  function Overhead(c: Codec, h: History): nat {
    if h == [] then 0
    else Overhead(c, Front(h)) + match Last(h)
                                 case PartBegin => 1
                                 case HeaderField(data) => |data|
                                 case HeaderValue(data) => |data|
                                 case PartData(data) => if Part(c, Front(h)).File? then 0 else |data|
                                 case _ => 0
  }

  /** The name of the part in force. */
  function PartName(c: Codec, h: History): string {
    var part := Part(c, h);
    if part.Malformed? then "" else part.name
  }

  /** The file name a part declares, if it is a file. */
  function FilenameOf(part: Disposition): string {
    if part.File? && part.filename.Some? then part.filename.value else ""
  }

  /** The file name in force: that of the last file part. */
  function Filename(c: Codec, h: History): string {
    if h == [] then ""
    else if Last(h).HeadersFinished? && Part(c, h).File? then FilenameOf(Part(c, h))
    else Filename(c, Front(h))
  }

  predicate Finished(h: History) {
    h != [] && (Last(h).End? || Finished(Front(h)))
  }

  /** How many parts of the form are files. */
  function FileParts(c: Codec, h: History): nat {
    if h == [] then 0
    else FileParts(c, Front(h)) + if Last(h).HeadersFinished? && Part(c, h).File? then 1 else 0
  }

  // ---------- the meaning does not depend on how the parser cuts its callbacks ----------

  ghost predicate SameParts(c: Codec, g: History, h: History) {
    && NameSoFar(g) == NameSoFar(h) && ValueSoFar(g) == ValueSoFar(h)
    && Headers(c, g) == Headers(c, h) && Part(c, g) == Part(c, h)
    && Filename(c, g) == Filename(c, h) && FileParts(c, g) == FileParts(c, h) && Finished(g) == Finished(h)
  }

  ghost predicate SameContents(c: Codec, g: History, h: History) {
    && FileBytes(c, g) == FileBytes(c, h) && FieldSoFar(c, g) == FieldSoFar(c, h)
    && Fields(c, g) == Fields(c, h) && Overhead(c, g) == Overhead(c, h)
  }

  ghost predicate SameMeaning(c: Codec, g: History, h: History) {
    SameParts(c, g, h) && SameContents(c, g, h)
  }

  predicate IsData(e: Event) {
    e.HeaderField? || e.HeaderValue? || e.PartData?
  }

  lemma SamePartsStep(c: Codec, g: History, h: History, e: Event)
    requires SameParts(c, g, h)
    ensures SameParts(c, g + [e], h + [e])
  {
    assert Front(g + [e]) == g && Front(h + [e]) == h;
  }

  lemma SameContentsStep(c: Codec, g: History, h: History, e: Event)
    requires Part(c, g) == Part(c, h) && SameContents(c, g, h)
    ensures SameContents(c, g + [e], h + [e])
  {
    assert Front(g + [e]) == g && Front(h + [e]) == h;
  }

  /** What one more event keeps of two histories, every further history keeps. */
  lemma {:induction false} KeptAfter(same: (History, History) -> bool, g: History, h: History, rest: History)
    requires same(g, h)
    requires forall g, h, e | same(g, h) :: same(g + [e], h + [e])
    ensures same(g + rest, h + rest)
    decreases |rest|
  {
    if rest == [] {
      assert g + rest == g && h + rest == h;
    } else {
      KeptAfter(same, g + [rest[0]], h + [rest[0]], rest[1..]);
      assert g + rest == g + [rest[0]] + rest[1..] && h + rest == h + [rest[0]] + rest[1..];
    }
  }

  /** Cutting one callback in two, at any point of the form. */
  lemma CutMeaning(c: Codec, before: History, e: Event, a: Bytes, b: Bytes)
    requires IsData(e) && e.data == a + b
    ensures SameMeaning(c, before + [e], before + [e.(data := a)] + [e.(data := b)])
  {
    match e {
      case PartData(_) => CutPartData(c, before, a, b);
      case HeaderField(_) => CutName(c, before, a, b);
      case HeaderValue(_) => CutValue(c, before, a, b);
    }
  }

  /** A piece of a header name extends that name, and is counted. */
  lemma MeaningOfName(c: Codec, h: History, data: Bytes)
    ensures
      var g := h + [HeaderField(data)];
      && NameSoFar(g) == NameSoFar(h) + data && ValueSoFar(g) == ValueSoFar(h)
      && Headers(c, g) == Headers(c, h) && Part(c, g) == Part(c, h)
      && FileBytes(c, g) == FileBytes(c, h) && FieldSoFar(c, g) == FieldSoFar(c, h) && Fields(c, g) == Fields(c, h)
      && Overhead(c, g) == Overhead(c, h) + |data| && FileParts(c, g) == FileParts(c, h)
      && Filename(c, g) == Filename(c, h) && Finished(g) == Finished(h)
  {
    assert Front(h + [HeaderField(data)]) == h;
  }

  lemma MeaningOfValue(c: Codec, h: History, data: Bytes)
    ensures
      var g := h + [HeaderValue(data)];
      && NameSoFar(g) == NameSoFar(h) && ValueSoFar(g) == ValueSoFar(h) + data
      && Headers(c, g) == Headers(c, h) && Part(c, g) == Part(c, h)
      && FileBytes(c, g) == FileBytes(c, h) && FieldSoFar(c, g) == FieldSoFar(c, h) && Fields(c, g) == Fields(c, h)
      && Overhead(c, g) == Overhead(c, h) + |data| && FileParts(c, g) == FileParts(c, h)
      && Filename(c, g) == Filename(c, h) && Finished(g) == Finished(h)
  {
    assert Front(h + [HeaderValue(data)]) == h;
  }

  /** A piece of part data belongs to the file or to the field, and only field data is counted. */
  lemma MeaningOfData(c: Codec, h: History, data: Bytes)
    ensures
      var g := h + [PartData(data)];
      && NameSoFar(g) == NameSoFar(h) && ValueSoFar(g) == ValueSoFar(h)
      && Headers(c, g) == Headers(c, h) && Part(c, g) == Part(c, h)
      && FileBytes(c, g) == FileBytes(c, h) + (if Part(c, h).File? then data else [])
      && FieldSoFar(c, g) == FieldSoFar(c, h) + (if Part(c, h).File? then [] else data)
      && Overhead(c, g) == Overhead(c, h) + (if Part(c, h).File? then 0 else |data|)
      && Fields(c, g) == Fields(c, h) && FileParts(c, g) == FileParts(c, h)
      && Filename(c, g) == Filename(c, h) && Finished(g) == Finished(h)
  {
    assert Front(h + [PartData(data)]) == h;
  }

  lemma CutName(c: Codec, h: History, a: Bytes, b: Bytes)
    ensures SameMeaning(c, h + [HeaderField(a + b)], h + [HeaderField(a)] + [HeaderField(b)])
  {
    MeaningOfName(c, h, a + b);
    MeaningOfName(c, h, a);
    MeaningOfName(c, h + [HeaderField(a)], b);
    assert NameSoFar(h) + (a + b) == (NameSoFar(h) + a) + b;
  }

  lemma CutValue(c: Codec, h: History, a: Bytes, b: Bytes)
    ensures SameMeaning(c, h + [HeaderValue(a + b)], h + [HeaderValue(a)] + [HeaderValue(b)])
  {
    MeaningOfValue(c, h, a + b);
    MeaningOfValue(c, h, a);
    MeaningOfValue(c, h + [HeaderValue(a)], b);
    assert ValueSoFar(h) + (a + b) == (ValueSoFar(h) + a) + b;
  }

  lemma CutPartData(c: Codec, h: History, a: Bytes, b: Bytes)
    ensures SameMeaning(c, h + [PartData(a + b)], h + [PartData(a)] + [PartData(b)])
  {
    MeaningOfData(c, h, a + b);
    MeaningOfData(c, h, a);
    MeaningOfData(c, h + [PartData(a)], b);
    assert FileBytes(c, h) + (a + b) == (FileBytes(c, h) + a) + b;
    assert FieldSoFar(c, h) + (a + b) == (FieldSoFar(c, h) + a) + b;
  }

  /** Finished headers decide what the part is. */
  lemma MeaningOfFinish(c: Codec, h: History)
    ensures
      var g := h + [HeadersFinished];
      && NameSoFar(g) == NameSoFar(h) && ValueSoFar(g) == ValueSoFar(h) && Headers(c, g) == Headers(c, h)
      && Part(c, g) == DispositionOf(c, Headers(c, h))
      && FileBytes(c, g) == FileBytes(c, h) && FieldSoFar(c, g) == FieldSoFar(c, h) && Fields(c, g) == Fields(c, h)
      && Overhead(c, g) == Overhead(c, h)
      && FileParts(c, g) == FileParts(c, h) + (if Part(c, g).File? then 1 else 0)
      && Filename(c, g) == (if Part(c, g).File? then FilenameOf(Part(c, g)) else Filename(c, h))
      && Finished(g) == Finished(h)
  {
    assert Front(h + [HeadersFinished]) == h;
  }

  // ---------- which callbacks a form accepts ----------

  /** The headers of a part must be those of a field, or of the one and only file. */
  predicate MayBegin(c: Codec, h: History, part: Disposition) {
    match part
    case Malformed => false
    case Field(name) => name != "content"
    case File(name, filename) =>
      name == "content" && filename.Some? && SafeFilename(filename.value) && Filename(c, h) == ""
  }

  /** Callback `e` raises no error after history `h`. */
  predicate Passes(c: Codec, maximumBytes: nat, h: History, e: Event) {
    match e
    case HeaderEnd => c.lowerBytes(NameSoFar(h)) !in Headers(c, h)
    case HeadersFinished => MayBegin(c, h, DispositionOf(c, Headers(c, h)))
    case PartData(data) =>
      if Part(c, h).File? then |FileBytes(c, h)| + |data| <= maximumBytes
      else Overhead(c, h) + |data| <= FORM_LIMIT
    case PartEnd => Part(c, h).File? || c.utf8(FieldSoFar(c, h)).Some?
    case PartBegin => Overhead(c, h) + 1 <= FORM_LIMIT
    case HeaderField(data) => Overhead(c, h) + |data| <= FORM_LIMIT
    case HeaderValue(data) => Overhead(c, h) + |data| <= FORM_LIMIT
    case End => true
  }

  predicate Lawful(c: Codec, maximumBytes: nat, h: History) {
    h == [] || (Lawful(c, maximumBytes, Front(h)) && Passes(c, maximumBytes, Front(h), Last(h)))
  }

  /** The status of a refused callback. */
  function RefusalOf(e: Event): Status {
    if e.PartBegin? || e.HeaderField? || e.HeaderValue? || e.PartData? then 413 else 400
  }

  /** The status of the first callback of a history that is refused. */
  function FirstRefusal(c: Codec, maximumBytes: nat, h: History): Option<Status> {
    if h == [] then None
    else
      var before := FirstRefusal(c, maximumBytes, Front(h));
      if before.Some? then before
      else if Passes(c, maximumBytes, Front(h), Last(h)) then None
      else Some(RefusalOf(Last(h)))
  }

  lemma {:induction false} LawfulIff(c: Codec, maximumBytes: nat, h: History)
    ensures Lawful(c, maximumBytes, h) <==> FirstRefusal(c, maximumBytes, h).None?
  {
    if h != [] {
      LawfulIff(c, maximumBytes, Front(h));
    }
  }

  lemma RefusalSnoc(c: Codec, maximumBytes: nat, h: History, e: Event)
    ensures
      FirstRefusal(c, maximumBytes, h + [e]) ==
      if FirstRefusal(c, maximumBytes, h).Some? then FirstRefusal(c, maximumBytes, h)
      else if Passes(c, maximumBytes, h, e) then None else Some(RefusalOf(e))
  {
    assert Front(h + [e]) == h;
  }

  /** A refusal is final. */
  lemma {:induction false} RefusalStays(c: Codec, maximumBytes: nat, h: History, rest: History)
    requires FirstRefusal(c, maximumBytes, h).Some?
    ensures FirstRefusal(c, maximumBytes, h + rest) == FirstRefusal(c, maximumBytes, h)
    decreases |rest|
  {
    if rest == [] {
      assert h + rest == h;
    } else {
      RefusalStays(c, maximumBytes, h, Front(rest));
      RefusalSnoc(c, maximumBytes, h + Front(rest), Last(rest));
      assert h + rest == h + Front(rest) + [Last(rest)];
    }
  }

  // ---------- neither meaning nor acceptance depends on the parser's cuts ----------

  /** The same quantities, and the same fate. */
  ghost predicate SameForm(c: Codec, maximumBytes: nat, g: History, h: History) {
    SameMeaning(c, g, h) && FirstRefusal(c, maximumBytes, g) == FirstRefusal(c, maximumBytes, h)
  }

  lemma SameFormStep(c: Codec, maximumBytes: nat, g: History, h: History, e: Event)
    requires SameForm(c, maximumBytes, g, h)
    ensures SameForm(c, maximumBytes, g + [e], h + [e])
  {
    SamePartsStep(c, g, h, e);
    SameContentsStep(c, g, h, e);
    RefusalSnoc(c, maximumBytes, g, e);
    RefusalSnoc(c, maximumBytes, h, e);
  }

  lemma SameAfter(c: Codec, maximumBytes: nat, g: History, h: History, rest: History)
    requires SameForm(c, maximumBytes, g, h)
    ensures SameForm(c, maximumBytes, g + rest, h + rest)
  {
    forall g, h, e | SameForm(c, maximumBytes, g, h) ensures SameForm(c, maximumBytes, g + [e], h + [e]) {
      SameFormStep(c, maximumBytes, g, h, e);
    }
    KeptAfter((g: History, h: History) => SameForm(c, maximumBytes, g, h), g, h, rest);
  }

  /** A callback is refused exactly if one of its two halves is, and with the same status. */
  lemma CutRefusal(c: Codec, maximumBytes: nat, before: History, e: Event, a: Bytes, b: Bytes)
    requires IsData(e) && e.data == a + b
    ensures
      FirstRefusal(c, maximumBytes, before + [e]) ==
      FirstRefusal(c, maximumBytes, before + [e.(data := a)] + [e.(data := b)])
  {
    var half := before + [e.(data := a)];
    RefusalSnoc(c, maximumBytes, before, e);
    RefusalSnoc(c, maximumBytes, before, e.(data := a));
    RefusalSnoc(c, maximumBytes, half, e.(data := b));
    match e {
      case PartData(_) => MeaningOfData(c, before, a);
      case HeaderField(_) => MeaningOfName(c, before, a);
      case HeaderValue(_) => MeaningOfValue(c, before, a);
    }
  }

  /** The parser may cut a name, a value, a field or the file anywhere, at any point of the form: file bytes, fields,
      headers and the overhead counted are the same, and so is whether the form is accepted, or with which status it
      is refused. */
  lemma CutsDoNotMatter(
      c: Codec, maximumBytes: nat, before: History, e: Event, a: Bytes, b: Bytes, after: History)
    requires IsData(e) && e.data == a + b
    ensures
      var (g, h) := (before + [e] + after, before + [e.(data := a)] + [e.(data := b)] + after);
      && SameMeaning(c, g, h)
      && FirstRefusal(c, maximumBytes, g) == FirstRefusal(c, maximumBytes, h)
      && (Lawful(c, maximumBytes, g) <==> Lawful(c, maximumBytes, h))
  {
    CutMeaning(c, before, e, a, b);
    CutRefusal(c, maximumBytes, before, e, a, b);
    SameAfter(c, maximumBytes, before + [e], before + [e.(data := a)] + [e.(data := b)], after);
    LawfulIff(c, maximumBytes, before + [e] + after);
    LawfulIff(c, maximumBytes, before + [e.(data := a)] + [e.(data := b)] + after);
  }

  lemma {:induction false} LawfulPrefix(c: Codec, maximumBytes: nat, h: History, rest: History)
    requires Lawful(c, maximumBytes, h + rest)
    ensures Lawful(c, maximumBytes, h)
    decreases |rest|
  {
    if rest == [] {
      assert h + rest == h;
    } else {
      assert Front(h + rest) == h + Front(rest);
      LawfulPrefix(c, maximumBytes, h, Front(rest));
    }
  }

  /** What lawful histories have in common: the limits hold, and there is at most one file, safely named. */
  lemma {:induction false} LawfulForm(c: Codec, maximumBytes: nat, h: History)
    requires Lawful(c, maximumBytes, h)
    ensures |FileBytes(c, h)| <= maximumBytes && Overhead(c, h) <= FORM_LIMIT
    ensures FileParts(c, h) == if Filename(c, h) == "" then 0 else 1
    ensures Filename(c, h) == "" ==> FileBytes(c, h) == [] && !Part(c, h).File?
    ensures Filename(c, h) != "" ==> SafeFilename(Filename(c, h))
    ensures !Part(c, h).Malformed?
  {
    if h != [] {
      LawfulForm(c, maximumBytes, Front(h));
    }
  }

  // ---------- acceptance ----------

  predicate SafeCharacter(ch: char) {
    'A' <= ch <= 'Z' || 'a' <= ch <= 'z' || '0' <= ch <= '9' || ch in "_.+-"
  }

  predicate SafeFilename(name: string) {
    0 < |name| <= 255 && forall i | 0 <= i < |name| :: SafeCharacter(name[i])
  }

  /** One unambiguous scalar field. */
  function Scalar(fields: map<string, seq<string>>, name: string, required: bool): Option<string> {
    var values := if name in fields then fields[name] else [];
    if values == [] && !required then Some("")
    else if |values| != 1 then None
    else Some(values[0])
  }

  /** A supplied digest must be a single value that names the file. */
  predicate Sha256Agrees(c: Codec, fields: map<string, seq<string>>, file: Bytes) {
    var digest := Scalar(fields, "sha256_digest", false);
    digest.Some? && (digest.value == "" || c.lower(digest.value) == c.sha256(file))
  }

  predicate Md5Agrees(c: Codec, fields: map<string, seq<string>>, file: Bytes) {
    var digest := Scalar(fields, "md5_digest", false);
    digest.Some? && (digest.value == "" || digest.value in {c.md5(file), c.md5Base64(file)})
  }

  predicate Blake2Agrees(c: Codec, fields: map<string, seq<string>>, file: Bytes) {
    var digest := Scalar(fields, "blake2_256_digest", false);
    digest.Some? && (digest.value == "" || c.lower(digest.value) == c.blake2(file))
  }

  /** The protocol a complete upload must follow. */
  predicate FollowsProtocol(c: Codec, fields: map<string, seq<string>>, file: Bytes) {
    && Scalar(fields, ":action", true) == Some("file_upload")
    && Scalar(fields, "protocol_version", true) == Some("1")
    && Sha256Agrees(c, fields, file) && Md5Agrees(c, fields, file) && Blake2Agrees(c, fields, file)
    && "attestations" !in fields
  }

  // ---------- the form ----------

  predicate IsSuffix(a: Bytes, b: Bytes) {
    |a| <= |b| && a == b[|b| - |a|..]
  }

  lemma SuffixGrows(b: Bytes, a: Bytes, data: Bytes)
    requires IsSuffix(a, b)
    ensures IsSuffix(a + data, b + data)
  {
  }

  type Status = nat  // of the UploadError raised

  class UploadForm {
    const codec: Codec
    const maximumBytes: nat
    ghost var history: History
    var fields: map<string, seq<string>>
    var filename: string
    var size: nat
    var hashed: Bytes   // what the three digests have been fed
    var pending: Bytes  // file bytes not yet handed to storage
    var finished: bool
    var name: string
    var file: bool
    var field: Bytes
    var headerName: Bytes
    var headerValue: Bytes
    var headers: map<Bytes, Bytes>
    var overhead: nat

    /** Every field has the value its history means. */
    ghost predicate Valid()
      reads this
    {
      && headerName == NameSoFar(history) && headerValue == ValueSoFar(history)
      && headers == Headers(codec, history)
      && file == Part(codec, history).File? && name == PartName(codec, history)
      && filename == Filename(codec, history)
      && fields == Fields(codec, history) && field == FieldSoFar(codec, history)
      && hashed == FileBytes(codec, history) && size == |hashed| && IsSuffix(pending, hashed)
      && overhead == Overhead(codec, history)
      && finished == Finished(history)
    }

    constructor (codec: Codec, maximumBytes: nat)
      ensures Valid() && history == [] && pending == []
      ensures this.codec == codec && this.maximumBytes == maximumBytes
    {
      this.codec, this.maximumBytes, history := codec, maximumBytes, [];
      fields, filename, size, hashed, pending, finished := map[], "", 0, [], [], false;
      name, file, field, headerName, headerValue, headers, overhead := "", false, [], [], [], map[], 0;
    }

    /** _part_begin */
    method BeginPart() returns (r: Outcome<Status>)
      requires Valid()
      modifies this
      ensures r.Pass? ==> Valid() && history == old(history) + [PartBegin] && pending == old(pending)
      ensures r.Pass? <==> Passes(codec, maximumBytes, old(history), PartBegin)
      ensures r.Fail? ==> r.error == 413
    {
      history := history + [PartBegin];
      assert Front(history) == old(history);
      overhead := overhead + 1;
      if overhead > FORM_LIMIT {
        return Fail(413);
      }
      headers := map[];
      field := [];
      return Pass;
    }

    /** _header_field */
    method HeaderName(data: Bytes) returns (r: Outcome<Status>)
      requires Valid()
      modifies this
      ensures r.Pass? ==> Valid() && history == old(history) + [HeaderField(data)] && pending == old(pending)
      ensures r.Pass? <==> Passes(codec, maximumBytes, old(history), HeaderField(data))
      ensures r.Fail? ==> r.error == 413
    {
      MeaningOfName(codec, history, data);
      history := history + [HeaderField(data)];
      overhead := overhead + |data|;
      if overhead > FORM_LIMIT {
        return Fail(413);
      }
      headerName := headerName + data;
      return Pass;
    }

    /** _header_data */
    method HeaderData(data: Bytes) returns (r: Outcome<Status>)
      requires Valid()
      modifies this
      ensures r.Pass? ==> Valid() && history == old(history) + [HeaderValue(data)] && pending == old(pending)
      ensures r.Pass? <==> Passes(codec, maximumBytes, old(history), HeaderValue(data))
      ensures r.Fail? ==> r.error == 413
    {
      MeaningOfValue(codec, history, data);
      history := history + [HeaderValue(data)];
      overhead := overhead + |data|;
      if overhead > FORM_LIMIT {
        return Fail(413);
      }
      headerValue := headerValue + data;
      return Pass;
    }

    /** _header_end: a header may occur once per part. */
    method EndHeader() returns (r: Outcome<Status>)
      requires Valid()
      modifies this
      ensures r.Pass? <==> Passes(codec, maximumBytes, old(history), HeaderEnd)
      ensures r.Fail? ==> r.error == 400
      ensures r.Pass? ==> Valid() && history == old(history) + [HeaderEnd] && pending == old(pending)
    {
      var lowered := codec.lowerBytes(headerName);
      if lowered in headers {
        return Fail(400);
      }
      history := history + [HeaderEnd];
      assert Front(history) == old(history);
      headers := headers[lowered := headerValue];
      headerName, headerValue := [], [];
      return Pass;
    }

    /** _headers_finished: a field, or the one and only file. */
    method FinishHeaders() returns (r: Outcome<Status>)
      requires Valid()
      modifies this
      ensures r.Pass? ==> Valid() && history == old(history) + [HeadersFinished] && pending == old(pending)
      ensures r.Pass? <==> Passes(codec, maximumBytes, old(history), HeadersFinished)
      ensures r.Fail? ==> r.error == 400
    {
      MeaningOfFinish(codec, history);
      history := history + [HeadersFinished];
      match DispositionOf(codec, headers) {
      case Malformed => return Fail(400);
      case Field(n) =>
        name, file := n, false;
        if n == "content" {
          return Fail(400);
        }
      case File(n, f) =>
        name, file := n, true;
        if n != "content" || filename != "" || f.None? || !SafeFilename(f.value) {
          return Fail(400);
        }
        filename := f.value;
      }
      return Pass;
    }

    /** _part_data: file data is hashed and kept for storage, field data is counted. */
    method Data(data: Bytes) returns (r: Outcome<Status>)
      requires Valid()
      modifies this
      ensures r.Pass? ==>
        && Valid() && history == old(history) + [PartData(data)]
        && pending == old(pending) + (if Part(codec, old(history)).File? then data else [])
      ensures r.Pass? <==> Passes(codec, maximumBytes, old(history), PartData(data))
      ensures r.Fail? ==> r.error == 413
    {
      if file {
        r := FileData(data);
      } else {
        r := FieldData(data);
      }
    }

    method FileData(data: Bytes) returns (r: Outcome<Status>)
      requires Valid() && file
      modifies this
      ensures r.Pass? ==> Valid() && history == old(history) + [PartData(data)] && pending == old(pending) + data
      ensures r.Pass? <==> Passes(codec, maximumBytes, old(history), PartData(data))
      ensures r.Fail? ==> r.error == 413
    {
      size := size + |data|;
      if size > maximumBytes {
        return Fail(413);
      }
      SuffixGrows(hashed, pending, data);
      hashed := hashed + data;
      pending := pending + data;
      MeaningOfData(codec, history, data);
      history := history + [PartData(data)];
      return Pass;
    }

    method FieldData(data: Bytes) returns (r: Outcome<Status>)
      requires Valid() && !file
      modifies this
      ensures r.Pass? ==> Valid() && history == old(history) + [PartData(data)] && pending == old(pending)
      ensures r.Pass? <==> Passes(codec, maximumBytes, old(history), PartData(data))
      ensures r.Fail? ==> r.error == 413
    {
      overhead := overhead + |data|;
      if overhead > FORM_LIMIT {
        return Fail(413);
      }
      field := field + data;
      MeaningOfData(codec, history, data);
      history := history + [PartData(data)];
      return Pass;
    }

    /** _part_end: a complete field must be UTF-8. */
    method EndPart() returns (r: Outcome<Status>)
      requires Valid()
      modifies this
      ensures r.Pass? ==> Valid() && history == old(history) + [PartEnd] && pending == old(pending)
      ensures r.Pass? <==> Passes(codec, maximumBytes, old(history), PartEnd)
      ensures r.Fail? ==> r.error == 400
    {
      history := history + [PartEnd];
      assert Front(history) == old(history);
      if !file {
        var value := codec.utf8(field);
        if value.None? {
          return Fail(400);
        }
        fields := Append(fields, name, value.value);
      }
      return Pass;
    }

    /** Any callback: it is accepted exactly if the history allows it, and adds its file data to the hash. */
    method Handle(e: Event) returns (r: Outcome<Status>, ghost added: Bytes)
      requires Valid()
      modifies this
      ensures r.Pass? <==> Passes(codec, maximumBytes, old(history), e)
      ensures r.Fail? ==> r.error == RefusalOf(e)
      ensures r.Pass? ==>
        && Valid() && history == old(history) + [e]
        && pending == old(pending) + added && hashed == old(hashed) + added
    {
      ghost var before := history;
      added := if e.PartData? && Part(codec, history).File? then e.data else [];
      match e
      case PartBegin => r := BeginPart();
      case HeaderField(data) => r := HeaderName(data);
      case HeaderValue(data) => r := HeaderData(data);
      case HeaderEnd => r := EndHeader();
      case HeadersFinished => r := FinishHeaders();
      case PartData(data) => r := Data(data);
      case PartEnd => r := EndPart();
      case End =>
        history := history + [End];
        finished := true;
        r := Pass;
      assert Front(before + [e]) == before;
    }

    /** Storage takes the first `count` pending bytes. */
    method Take(count: nat) returns (data: Bytes)
      requires Valid() && count <= |pending|
      modifies this`pending
      ensures Valid() && data == old(pending)[..count] && pending == old(pending)[count..]
    {
      data := pending[..count];
      pending := pending[count..];
    }

    /** validate */
    method Validate() returns (r: Outcome<Status>)
      requires Valid()
      ensures r.Pass? <==>
        && Finished(history)
        && Filename(codec, history) != ""
        && FileBytes(codec, history) != []
        && FollowsProtocol(codec, Fields(codec, history), FileBytes(codec, history))
      ensures r.Fail? ==> r.error == 400
    {
      if !finished || filename == "" || size == 0 {
        return Fail(400);
      }
      if !(Scalar(fields, ":action", true) == Some("file_upload")) || !(Scalar(fields, "protocol_version", true) == Some("1")) {
        return Fail(400);
      }
      var digest := Scalar(fields, "sha256_digest", false);
      if digest.None? || (digest.value != "" && codec.lower(digest.value) != codec.sha256(hashed)) {
        return Fail(400);
      }
      var md5 := Scalar(fields, "md5_digest", false);
      if md5.None? || (md5.value != "" && md5.value !in {codec.md5(hashed), codec.md5Base64(hashed)}) {
        return Fail(400);
      }
      var blake2 := Scalar(fields, "blake2_256_digest", false);
      if blake2.None? || (blake2.value != "" && codec.lower(blake2.value) != codec.blake2(hashed)) {
        return Fail(400);
      }
      if "attestations" in fields {
        return Fail(400);
      }
      return Pass;
    }
  }
}
