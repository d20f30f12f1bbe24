/** receive_upload: a request body is re-sliced twice, into chunks for the multipart parser and into
    parts for storage, while it is hashed. What ends up in the bucket is exactly what was hashed. */
module ReceiveUpload {
  import opened Prelude
  import opened UploadForm

  const CHUNK_SIZE: nat := 64 * 1024
  const PART_SIZE: nat := 5 * 1024 * 1024

  // ---------- stream_bytes ----------

  /** The reads of a stream, sliced so that no chunk exceeds the bound; no byte is lost, added or moved. */
  method StreamBytes(values: seq<Bytes>) returns (chunks: seq<Bytes>)
    ensures Concat(chunks) == Concat(values)
    ensures forall chunk | chunk in chunks :: 0 < |chunk| <= 65_536
  {
    chunks := [];
    assert values[..0] == [];
    for i := 0 to |values|
      invariant Concat(chunks) == Concat(values[..i])
      invariant forall chunk | chunk in chunks :: 0 < |chunk| <= CHUNK_SIZE
    {
      var value, offset := values[i], 0;
      while offset < |value|
        invariant 0 <= offset
        invariant Concat(chunks) == Concat(values[..i]) + value[..Min(offset, |value|)]
        invariant forall chunk | chunk in chunks :: 0 < |chunk| <= CHUNK_SIZE
      {
        var chunk := value[offset..Min(offset + CHUNK_SIZE, |value|)];
        ConcatSnoc(chunks, chunk);
        TakeMore(Concat(values[..i]), value, offset, Min(offset + CHUNK_SIZE, |value|));
        chunks := chunks + [chunk];
        offset := offset + CHUNK_SIZE;
      }
      assert value[..Min(offset, |value|)] == value;
      ConcatSnoc(values[..i], value);
      assert values[..i + 1] == values[..i] + [value];
    }
    assert values[..|values|] == values;
  }

  lemma TakeMore(before: Bytes, value: Bytes, i: nat, j: nat)
    requires i <= j <= |value|
    ensures before + value[..i] + value[i..j] == before + value[..j]
  {
  }

  // ---------- the multipart parser, as a parameter ----------

  /** What one write reports: callbacks in order, and then possibly a parse error. */
  datatype Written = Written(events: seq<Event>, broken: bool)

  /** A parser may hold bytes back, so a write depends on every chunk before it. */
  type Parser = (seq<Bytes>, Bytes) -> Written

  /** All callbacks of a body fed chunk by chunk. */
  function AllEvents(p: Parser, chunks: seq<Bytes>): History {
    if chunks == [] then []
    else
      var front := chunks[..|chunks| - 1];
      AllEvents(p, front) + p(front, chunks[|chunks| - 1]).events
  }

  /** No write of the body is a parse error. */
  predicate Unbroken(p: Parser, chunks: seq<Bytes>) {
    chunks == [] ||
    var front := chunks[..|chunks| - 1];
    Unbroken(p, front) && !p(front, chunks[|chunks| - 1]).broken
  }

  // ---------- storage ----------

  function Numbers(n: nat): seq<nat> {
    seq(n, i => i + 1)
  }

  function Pieces(parts: map<nat, Bytes>, numbers: seq<nat>): seq<Bytes>
    requires forall n | n in numbers :: n in parts
  {
    seq(|numbers|, i requires 0 <= i < |numbers| => parts[numbers[i]])
  }

  datatype Stored = Open | Complete(bytes: Bytes) | Aborted

  /** How the completion ends for its caller: `Lost` takes effect, but the caller sees an exception. */
  datatype Answer = Applied | Lost | Failed

  /** A multipart object: it holds nothing until it is completed from a list of part numbers. Which parts can be
      uploaded, and how the completion ends, is up to the storage. */
  class MultipartUpload {
    const works: nat -> bool
    const answer: Answer
    var parts: map<nat, Bytes>
    var stored: Stored

    constructor (works: nat -> bool, answer: Answer)
      ensures parts == map[] && stored == Open && this.works == works && this.answer == answer
    {
      this.works, this.answer := works, answer;
      parts, stored := map[], Open;
    }

    method UploadPart(number: nat, data: Bytes) returns (ok: bool)
      requires stored == Open
      modifies this
      ensures ok == works(number) && stored == Open
      ensures parts == if ok then old(parts)[number := data] else old(parts)
    {
      ok := works(number);
      if ok {
        parts := parts[number := data];
      }
    }

    method Complete(numbers: seq<nat>) returns (ok: bool)
      requires stored == Open && forall n | n in numbers :: n in parts
      modifies this
      ensures ok <==> answer == Applied
      ensures parts == old(parts)
      ensures stored == if answer == Failed then Open else Stored.Complete(Concat(Pieces(parts, numbers)))
    {
      if answer != Failed {
        stored := Stored.Complete(Concat(Pieces(parts, numbers)));
      }
      ok := answer == Applied;
    }

    /** A completed object stays. */
    method Abort()
      modifies this
      ensures stored == (if old(stored) == Open then Aborted else old(stored)) && parts == old(parts)
    {
      if stored == Open {
        stored := Aborted;
      }
    }
  }

  /** Some part of a file of `size` bytes cannot be uploaded. */
  ghost predicate Starved(works: nat -> bool, size: nat) {
    exists k: nat :: 1 <= k && (k - 1) * PART_SIZE < size && !works(k)
  }

  /** Parts 1..n, every one full. */
  ghost predicate FullParts(parts: map<nat, Bytes>, n: nat) {
    && (forall k :: k in parts <==> 1 <= k <= n)
    && (forall k | 1 <= k <= n :: |parts[k]| == PART_SIZE)
  }

  /** What well cut means in figures: 5 MiB, except for the last part. */
  lemma WellCutInFigures(parts: map<nat, Bytes>, n: nat)
    ensures WellCut(parts, n) <==>
            && n >= 1
            && (forall k :: k in parts <==> 1 <= k <= n)
            && (forall k: nat | 1 <= k < n :: |parts[k]| == 5_242_880)
            && 1 <= |parts[n]| <= 5_242_880
  {
  }

  /** Parts 1..n: all but the last full, the last neither empty nor oversized. */
  ghost predicate WellCut(parts: map<nat, Bytes>, n: nat) {
    && n >= 1
    && (forall k :: k in parts <==> 1 <= k <= n)
    && (forall k | 1 <= k < n :: |parts[k]| == PART_SIZE)
    && 0 < |parts[n]| <= PART_SIZE
  }

  /** The first `n` parts, in order. */
  function Upto(parts: map<nat, Bytes>, n: nat): Bytes
    requires forall k | 1 <= k <= n :: k in parts
  {
    if n == 0 then [] else Upto(parts, n - 1) + parts[n]
  }

  lemma {:induction false} UptoSame(p: map<nat, Bytes>, q: map<nat, Bytes>, n: nat)
    requires forall k | 1 <= k <= n :: k in p && k in q && p[k] == q[k]
    ensures Upto(p, n) == Upto(q, n)
  {
    if n > 0 {
      UptoSame(p, q, n - 1);
    }
  }

  lemma NextPart(parts: map<nat, Bytes>, n: nat, data: Bytes)
    requires FullParts(parts, n)
    ensures
      var after := parts[n + 1 := data];
      && (|data| == PART_SIZE ==> FullParts(after, n + 1))
      && (0 < |data| <= PART_SIZE ==> WellCut(after, n + 1))
      && (forall k | 1 <= k <= n + 1 :: k in after) && Upto(after, n + 1) == Upto(parts, n) + data
  {
    UptoSame(parts, parts[n + 1 := data], n);
  }

  lemma PartNeeded(works: nat -> bool, n: nat, size: nat, pending: nat)
    requires size == n * PART_SIZE + pending && pending > 0
    ensures !works(n + 1) ==> Starved(works, size)
  {
    assert (n + 1 - 1) * PART_SIZE < size;
  }

  /** With `n` full parts stored, at most one more is needed. */
  lemma PartsSuffice(works: nat -> bool, n: nat, size: nat, pending: nat)
    requires size == n * PART_SIZE + pending && pending < PART_SIZE
    requires forall k: nat | 1 <= k <= n :: works(k)
    ensures Starved(works, size) <==> pending > 0 && !works(n + 1)
  {
    if pending > 0 {
      PartNeeded(works, n, size, pending);
    }
    if Starved(works, size) {
      var k: nat :| 1 <= k && (k - 1) * PART_SIZE < size && !works(k);
      assert k > n;
    }
  }

  lemma {:induction false} FullSize(parts: map<nat, Bytes>, n: nat)
    requires forall k | 1 <= k <= n :: k in parts && |parts[k]| == PART_SIZE
    ensures |Upto(parts, n)| == n * PART_SIZE
  {
    if n > 0 {
      FullSize(parts, n - 1);
    }
  }

  /** Parts 1..n, all full, are stored, and `pending` is what follows them in the file. */
  ghost predicate PartsHold(works: nat -> bool, parts: map<nat, Bytes>, n: nat, all: Bytes, pending: Bytes) {
    && FullParts(parts, n)
    && (forall k: nat | 1 <= k <= n :: works(k))
    && all == Upto(parts, n) + pending
  }

  /** A full part moves from the pending bytes to storage. */
  lemma MovePart(works: nat -> bool, parts: map<nat, Bytes>, n: nat, all: Bytes, pending: Bytes)
    requires PartsHold(works, parts, n, all, pending) && |pending| >= PART_SIZE
    ensures works(n + 1) ==>
              PartsHold(works, parts[n + 1 := pending[..PART_SIZE]], n + 1, all, pending[PART_SIZE..])
    ensures !works(n + 1) ==> Starved(works, |all|)
  {
    FullSize(parts, n);
    PartNeeded(works, n, |all|, |pending|);
    NextPart(parts, n, pending[..PART_SIZE]);
    assert pending == pending[..PART_SIZE] + pending[PART_SIZE..];
  }

  lemma {:induction false} UptoIsConcat(parts: map<nat, Bytes>, n: nat)
    requires forall k | 1 <= k <= n :: k in parts
    ensures Upto(parts, n) == Concat(Pieces(parts, Numbers(n)))
  {
    if n == 0 {
      assert Pieces(parts, Numbers(0)) == [];
    } else {
      UptoIsConcat(parts, n - 1);
      ConcatSnoc(Pieces(parts, Numbers(n - 1)), parts[n]);
      assert Pieces(parts, Numbers(n)) == Pieces(parts, Numbers(n - 1)) + [parts[n]];
    }
  }

  // ---------- receive_upload ----------

  /** A Content-Length header: absent, not a number, or a number. */
  datatype Declared = Absent | Unreadable | Length(size: int)

  datatype Request = Request(multipart: bool, declared: Declared, body: Option<seq<Bytes>>)

  /** The body parses without error, every callback is lawful, and the complete form follows the protocol. */
  ghost predicate IsAccepted(c: Codec, p: Parser, chunks: seq<Bytes>, maximumBytes: nat) {
    var h := AllEvents(p, chunks);
    && IsStreamed(c, p, chunks, maximumBytes)
    && Finished(h)
    && Filename(c, h) != ""
    && FileBytes(c, h) != []
    && FollowsProtocol(c, Fields(c, h), FileBytes(c, h))
  }

  /** What the caller holds when an upload was received. */
  ghost predicate IsReceived(c: Codec, p: Parser, chunks: seq<Bytes>, form: UploadForm, u: MultipartUpload)
    reads form, u
  {
    var h := AllEvents(p, chunks);
    && form.codec == c && form.history == h
    && form.hashed == FileBytes(c, h) && form.size == |form.hashed| && form.fields == Fields(c, h)
    && form.filename == Filename(c, h) && SafeFilename(form.filename) && FileParts(c, h) == 1
    && form.size <= form.maximumBytes
    && u.stored == Complete(form.hashed)
    && exists n: nat :: WellCut(u.parts, n) && Upto(u.parts, n) == form.hashed
  }

  function Verdict(refusal: Option<Status>): Outcome<Status> {
    if refusal.Some? then Fail(refusal.value) else Pass
  }

  /** The refusal of event `i` is that of the whole write. */
  lemma RefusedAt(c: Codec, maximumBytes: nat, h: History, events: seq<Event>, i: nat)
    requires i < |events| && FirstRefusal(c, maximumBytes, h + events[..i]).None?
    requires !Passes(c, maximumBytes, h + events[..i], events[i])
    ensures FirstRefusal(c, maximumBytes, h + events) == Some(RefusalOf(events[i]))
  {
    RefusalSnoc(c, maximumBytes, h + events[..i], events[i]);
    RefusalStays(c, maximumBytes, h + events[..i] + [events[i]], events[i + 1..]);
    CutAt(h, events, i);
  }

  lemma CutAt(h: History, events: seq<Event>, i: nat)
    requires i < |events|
    ensures h + events == h + events[..i] + [events[i]] + events[i + 1..]
  {
  }

  lemma Regroup(start: History, events: seq<Event>, i: nat)
    requires i < |events|
    ensures start + events[..i] + [events[i]] == start + events[..i + 1]
  {
  }

  lemma RegroupBytes(a: Bytes, b: Bytes, c: Bytes)
    ensures a + b + c == a + (b + c)
  {
  }

  /** Events of one write, one callback at a time; `added` is the file data among them. */
  method Feed(form: UploadForm, events: seq<Event>) returns (r: Outcome<Status>, ghost added: Bytes)
    requires form.Valid() && FirstRefusal(form.codec, form.maximumBytes, form.history).None?
    modifies form
    ensures r == Verdict(FirstRefusal(form.codec, form.maximumBytes, old(form.history) + events))
    ensures r.Pass? ==>
      && form.Valid() && form.history == old(form.history) + events
      && form.hashed == old(form.hashed) + added && form.pending == old(form.pending) + added
  {
    ghost var start, hashed, pending := form.history, form.hashed, form.pending;
    added := [];
    for i := 0 to |events|
      invariant form.Valid() && form.history == start + events[..i]
      invariant FirstRefusal(form.codec, form.maximumBytes, form.history).None?
      invariant form.hashed == hashed + added && form.pending == pending + added
    {
      ghost var more;
      RefusalSnoc(form.codec, form.maximumBytes, form.history, events[i]);
      r, more := form.Handle(events[i]);
      if r.Fail? {
        RefusedAt(form.codec, form.maximumBytes, start, events, i);
        return;
      }
      Regroup(start, events, i);
      RegroupBytes(hashed, added, more);
      RegroupBytes(pending, added, more);
      added := added + more;
    }
    assert events[..|events|] == events;
    r := Pass;
  }

  /** Hand every full part to storage, as long as storage takes them. */
  method Flush(form: UploadForm, u: MultipartUpload, sent: nat) returns (ok: bool, n: nat)
    requires form.Valid() && Synced(form, u, sent)
    modifies form`pending, u
    ensures form.Valid() && u.stored == Open
    ensures ok ==> Synced(form, u, n) && |form.pending| < PART_SIZE
    ensures !ok ==> Starved(u.works, |form.hashed|)
  {
    n := sent;
    while |form.pending| >= PART_SIZE
      invariant form.Valid() && Synced(form, u, n)
      decreases |form.pending|
    {
      ok := FlushPart(form, u, n);
      if !ok {
        return;
      }
      n := n + 1;
    }
    ok := true;
  }

  method FlushPart(form: UploadForm, u: MultipartUpload, n: nat) returns (ok: bool)
    requires form.Valid() && Synced(form, u, n) && |form.pending| >= PART_SIZE
    modifies form`pending, u
    ensures form.Valid() && u.stored == Open
    ensures ok ==> Synced(form, u, n + 1)
    ensures !ok ==> Starved(u.works, |form.hashed|)
    ensures form.pending == old(form.pending)[PART_SIZE..]
  {
    MovePart(u.works, u.parts, n, form.hashed, form.pending);
    ghost var after := u.parts[n + 1 := form.pending[..PART_SIZE]];
    var data := form.Take(PART_SIZE);
    ok := u.UploadPart(n + 1, data);
    assert ok ==> u.parts == after;
  }

  /** `n` full parts are stored, and the rest of the hashed file is pending. */
  ghost predicate Synced(form: UploadForm, u: MultipartUpload, n: nat)
    reads form, u
  {
    u.stored == Open && PartsHold(u.works, u.parts, n, form.hashed, form.pending)
  }

  /** Storage is out of order: the exception is answered with this status. */
  const STORAGE: Status := 503

  /** One chunk: parse, hash and flush. */
  method Digest(form: UploadForm, events: seq<Event>, u: MultipartUpload, sent: nat)
    returns (r: Outcome<Status>, n: nat)
    requires form.Valid() && Synced(form, u, sent)
    requires FirstRefusal(form.codec, form.maximumBytes, form.history).None?
    modifies form, u
    ensures u.stored == Open
    ensures
      var refusal := FirstRefusal(form.codec, form.maximumBytes, old(form.history) + events);
      && (refusal.Some? ==> r == Fail(refusal.value))
      && (refusal.None? && r.Fail? ==>
            r.error == STORAGE && Starved(u.works, |FileBytes(form.codec, old(form.history) + events)|))
    ensures r.Pass? ==>
      && form.Valid() && form.history == old(form.history) + events
      && Synced(form, u, n) && |form.pending| < PART_SIZE
  {
    n := sent;
    ghost var pending, added := form.pending, [];
    r, added := Feed(form, events);
    if r.Fail? {
      return;
    }
    assert Upto(u.parts, sent) + pending + added == Upto(u.parts, sent) + (pending + added);
    var ok;
    ok, n := Flush(form, u, sent);
    if !ok {
      return Fail(STORAGE), n;
    }
  }

  /** The streaming loop: every chunk is parsed, hashed and flushed before the next is read. */
  method Stream(form: UploadForm, p: Parser, pieces: seq<Bytes>, u: MultipartUpload)
    returns (r: Outcome<Status>, sent: nat)
    requires form.Valid() && form.history == [] && Synced(form, u, 0) && form.pending == []
    modifies form, u
    ensures u.stored == Open
    ensures r.Pass? ==> BodyRefusal(form.codec, p, pieces, form.maximumBytes).None?
    ensures r.Fail? ==>
      || Some(r.error) == BodyRefusal(form.codec, p, pieces, form.maximumBytes)
      || (r.error == STORAGE && Starved(u.works, |FileBytes(form.codec, AllEvents(p, pieces))|))
    ensures r.Pass? ==>
      && form.Valid() && form.history == AllEvents(p, pieces)
      && Synced(form, u, sent) && |form.pending| < PART_SIZE
  {
    var total := 0;
    sent := 0;
    assert pieces[..0] == [];
    for i := 0 to |pieces|
      invariant form.Valid() && form.history == AllEvents(p, pieces[..i])
      invariant Synced(form, u, sent) && |form.pending| < PART_SIZE
      invariant total == |Concat(pieces[..i])|
      invariant BodyRefusal(form.codec, p, pieces[..i], form.maximumBytes).None?
    {
      NextChunk(form.codec, p, pieces, i, form.maximumBytes);
      total := total + |pieces[i]|;
      if total > form.maximumBytes + FORM_LIMIT {
        RefusalIsFinal(form.codec, p, pieces, i + 1, form.maximumBytes);
        return Fail(413), sent;
      }
      var written := p(pieces[..i], pieces[i]);
      r, sent := Digest(form, written.events, u, sent);
      if r.Fail? {
        if FirstRefusal(form.codec, form.maximumBytes, AllEvents(p, pieces[..i + 1])).Some? {
          RefusalIsFinal(form.codec, p, pieces, i + 1, form.maximumBytes);
        } else {
          StarvedLater(form.codec, p, pieces, i + 1, u.works);
        }
        return;
      }
      if written.broken {
        RefusalIsFinal(form.codec, p, pieces, i + 1, form.maximumBytes);
        return Fail(400), sent;
      }
    }
    assert pieces[..|pieces|] == pieces;
    r := Pass;
  }

  /** The body can be streamed to its end. */
  predicate IsStreamed(c: Codec, p: Parser, chunks: seq<Bytes>, maximumBytes: nat) {
    && Unbroken(p, chunks)
    && |Concat(chunks)| <= maximumBytes + FORM_LIMIT
    && Lawful(c, maximumBytes, AllEvents(p, chunks))
  }

  /** The status with which the first fault of a body is refused: too long a body, a refused callback, or a parse
      error after the callbacks of its write. */
  function BodyRefusal(c: Codec, p: Parser, chunks: seq<Bytes>, maximumBytes: nat): Option<Status> {
    if chunks == [] then None
    else
      var front, last := chunks[..|chunks| - 1], chunks[|chunks| - 1];
      var before := BodyRefusal(c, p, front, maximumBytes);
      var refused := FirstRefusal(c, maximumBytes, AllEvents(p, chunks));
      if before.Some? then before
      else if |Concat(chunks)| > maximumBytes + FORM_LIMIT then Some(413)
      else if refused.Some? then refused
      else if p(front, last).broken then Some(400)
      else None
  }

  lemma NextChunk(c: Codec, p: Parser, pieces: seq<Bytes>, i: nat, maximumBytes: nat)
    requires i < |pieces|
    ensures
      var written := p(pieces[..i], pieces[i]);
      var before := BodyRefusal(c, p, pieces[..i], maximumBytes);
      var refused := FirstRefusal(c, maximumBytes, AllEvents(p, pieces[..i]) + written.events);
      && AllEvents(p, pieces[..i + 1]) == AllEvents(p, pieces[..i]) + written.events
      && |Concat(pieces[..i + 1])| == |Concat(pieces[..i])| + |pieces[i]|
      && BodyRefusal(c, p, pieces[..i + 1], maximumBytes) ==
         if before.Some? then before
         else if |Concat(pieces[..i + 1])| > maximumBytes + FORM_LIMIT then Some(413)
         else if refused.Some? then refused
         else if written.broken then Some(400)
         else None
  {
    assert pieces[..i + 1] == pieces[..i] + [pieces[i]] && pieces[..i + 1][..i] == pieces[..i];
    ConcatSnoc(pieces[..i], pieces[i]);
  }

  /** The first fault decides, whatever follows. */
  lemma {:induction false} RefusalIsFinal(c: Codec, p: Parser, pieces: seq<Bytes>, i: nat, maximumBytes: nat)
    requires i <= |pieces| && BodyRefusal(c, p, pieces[..i], maximumBytes).Some?
    ensures BodyRefusal(c, p, pieces, maximumBytes) == BodyRefusal(c, p, pieces[..i], maximumBytes)
    decreases |pieces| - i
  {
    if i == |pieces| {
      assert pieces[..i] == pieces;
    } else {
      NextChunk(c, p, pieces, i, maximumBytes);
      RefusalIsFinal(c, p, pieces, i + 1, maximumBytes);
    }
  }

  lemma {:induction false} FileGrows(c: Codec, h: History, rest: History)
    ensures |FileBytes(c, h)| <= |FileBytes(c, h + rest)|
    decreases |rest|
  {
    if rest == [] {
      assert h + rest == h;
    } else {
      FileGrows(c, h, Front(rest));
      assert Front(h + rest) == h + Front(rest);
    }
  }

  /** A part that is missing for some chunks is missing for the whole body. */
  lemma {:induction false} StarvedLater(c: Codec, p: Parser, pieces: seq<Bytes>, i: nat, works: nat -> bool)
    requires i <= |pieces| && Starved(works, |FileBytes(c, AllEvents(p, pieces[..i]))|)
    ensures Starved(works, |FileBytes(c, AllEvents(p, pieces))|)
    decreases |pieces| - i
  {
    if i == |pieces| {
      assert pieces[..i] == pieces;
    } else {
      assert pieces[..i + 1][..i] == pieces[..i];
      FileGrows(c, AllEvents(p, pieces[..i]), p(pieces[..i], pieces[i]).events);
      StarvedLater(c, p, pieces, i + 1, works);
    }
  }

  /** A body is not refused exactly if it can be streamed to its end. */
  lemma {:induction false} StreamedIff(c: Codec, p: Parser, chunks: seq<Bytes>, maximumBytes: nat)
    ensures BodyRefusal(c, p, chunks, maximumBytes).None? <==> IsStreamed(c, p, chunks, maximumBytes)
  {
    if chunks != [] {
      var n := |chunks| - 1;
      var before, events := AllEvents(p, chunks[..n]), p(chunks[..n], chunks[n]).events;
      assert chunks[..n + 1] == chunks;
      StreamedIff(c, p, chunks[..n], maximumBytes);
      NextChunk(c, p, chunks, n, maximumBytes);
      LawfulIff(c, maximumBytes, before + events);
      if Lawful(c, maximumBytes, before + events) {
        LawfulPrefix(c, maximumBytes, before, events);
      }
    }
  }

  /** Store what is left as the last part, and complete the object from parts 1..n. */
  method Seal(form: UploadForm, u: MultipartUpload, sent: nat) returns (ok: bool)
    requires form.Valid() && form.hashed != []
    requires Synced(form, u, sent) && |form.pending| < PART_SIZE
    modifies form`pending, u
    ensures ok <==> !Starved(u.works, |form.hashed|) && u.answer == Applied
    ensures u.stored ==
            if Starved(u.works, |form.hashed|) || u.answer == Failed then Open else Complete(form.hashed)
    ensures ok ==> exists n: nat :: WellCut(u.parts, n) && Upto(u.parts, n) == form.hashed
  {
    FullSize(u.parts, sent);
    PartsSuffice(u.works, sent, |form.hashed|, |form.pending|);
    var n;
    ok, n := LastPart(form, u, sent);
    if ok {
      UptoIsConcat(u.parts, n);
      ok := u.Complete(Numbers(n));
    }
  }

  method LastPart(form: UploadForm, u: MultipartUpload, sent: nat) returns (ok: bool, n: nat)
    requires form.Valid() && form.hashed != []
    requires Synced(form, u, sent) && |form.pending| < PART_SIZE
    modifies form`pending, u
    ensures u.stored == Open
    ensures ok <==> old(form.pending) == [] || u.works(sent + 1)
    ensures ok ==> WellCut(u.parts, n) && Upto(u.parts, n) == form.hashed
  {
    ok, n := true, sent;
    if form.pending != [] {
      NextPart(u.parts, sent, form.pending);
      n := sent + 1;
      var data := form.pending;
      form.pending := [];
      ok := u.UploadPart(n, data);
    }
  }

  /** Validate the complete form, then complete the object or abort it. */
  method Conclude(form: UploadForm, p: Parser, pieces: seq<Bytes>, u: MultipartUpload, sent: nat)
    returns (r: Outcome<Status>)
    requires form.Valid() && form.history == AllEvents(p, pieces)
    requires Synced(form, u, sent) && |form.pending| < PART_SIZE
    requires IsStreamed(form.codec, p, pieces, form.maximumBytes)
    modifies form`pending, u
    ensures
      var accepted := IsAccepted(form.codec, p, pieces, form.maximumBytes);
      var starved := Starved(u.works, |FileBytes(form.codec, AllEvents(p, pieces))|);
      && (r.Pass? <==> accepted && !starved && u.answer == Applied)
      && (r.Fail? ==> r.error == if accepted then STORAGE else 400)
      && u.stored == if accepted && !starved && u.answer != Failed
                     then Complete(FileBytes(form.codec, AllEvents(p, pieces))) else Aborted
    ensures r.Pass? ==> IsReceived(form.codec, p, pieces, form, u)
  {
    r := form.Validate();
    if r.Fail? {
      u.Abort();
      return;
    }
    LawfulForm(form.codec, form.maximumBytes, form.history);
    var ok := Seal(form, u, sent);
    if !ok {
      u.Abort();
      return Fail(STORAGE);
    }
  }

  /** The status of a body that is not accepted: one that is streamed to its end can only fail validation. */
  function StatusOfBody(c: Codec, p: Parser, chunks: seq<Bytes>, maximumBytes: nat): Status {
    var refusal := BodyRefusal(c, p, chunks, maximumBytes);
    if refusal.Some? then refusal.value else 400
  }

  /** What becomes of a body and of its object. With reliable storage only the body decides; a part that storage
      refuses fails the upload; a lost completion fails it although the object is there. */
  ghost predicate IsTransferred(
    c: Codec, p: Parser, chunks: seq<Bytes>, maximumBytes: nat, works: nat -> bool, answer: Answer,
    r: Outcome<Status>, stored: Stored)
  {
    var accepted := IsAccepted(c, p, chunks, maximumBytes);
    var file := FileBytes(c, AllEvents(p, chunks));
    var starved := Starved(works, |file|);
    && (r.Pass? <==> accepted && !starved && answer == Applied)
    && (r.Fail? && accepted ==> r.error == STORAGE)
    && (r.Fail? && !starved && !accepted ==> r.error == StatusOfBody(c, p, chunks, maximumBytes))
    && (r.Fail? && !accepted ==> r.error in {STORAGE, StatusOfBody(c, p, chunks, maximumBytes)})
    && stored == if accepted && !starved && answer != Failed then Complete(file) else Aborted
  }

  /** Stream and conclude; whatever fails, the object is aborted. */
  method Transfer(form: UploadForm, p: Parser, pieces: seq<Bytes>, u: MultipartUpload) returns (r: Outcome<Status>)
    requires form.Valid() && form.history == [] && form.pending == [] && u.stored == Open && u.parts == map[]
    modifies form, u
    ensures IsTransferred(form.codec, p, pieces, form.maximumBytes, u.works, u.answer, r, u.stored)
    ensures r.Pass? ==> IsReceived(form.codec, p, pieces, form, u)
  {
    StreamedIff(form.codec, p, pieces, form.maximumBytes);
    var sent;
    r, sent := Stream(form, p, pieces, u);
    if r.Fail? {
      u.Abort();
      return;
    }
    r := Conclude(form, p, pieces, u, sent);
  }

  predicate IsAdmissible(request: Request, maximumBytes: nat) {
    && request.multipart && request.body.Some? && !request.declared.Unreadable?
    && (request.declared.Length? ==> 0 <= request.declared.size <= maximumBytes + FORM_LIMIT)
  }

  /** Checks made before a byte is read. */
  method Admit(request: Request, maximumBytes: nat) returns (r: Outcome<Status>)
    ensures r.Pass? <==> IsAdmissible(request, maximumBytes)
    ensures r == Fail(415) <==> !request.multipart
    ensures r == Fail(413) <==>
            request.multipart && request.declared.Length? && !(0 <= request.declared.size <= maximumBytes + FORM_LIMIT)
    ensures r.Fail? ==> r.error in {400, 413, 415}
  {
    if !request.multipart {
      return Fail(415);
    }
    if request.declared.Unreadable? {
      return Fail(400);
    }
    if request.declared.Length? && (request.declared.size < 0 || request.declared.size > maximumBytes + FORM_LIMIT) {
      return Fail(413);
    }
    if request.body.None? {
      return Fail(400);
    }
    return Pass;
  }

  /** Stream a request into a multipart object. On success the object is exactly the hashed file, cut into
      well-formed parts. On failure there is no object, unless everything was in order and only the response of the
      completion was lost. */
  method ReceiveUpload(c: Codec, p: Parser, request: Request, maximumBytes: nat, u: MultipartUpload)
    returns (r: Result<UploadForm, Status>, ghost chunks: seq<Bytes>)
    requires u.stored == Open && u.parts == map[]
    modifies u
    ensures request.body.Some? ==> Concat(chunks) == Concat(request.body.value)
    ensures !IsAdmissible(request, maximumBytes) ==> r.Failure? && u.stored == Open
    ensures IsAdmissible(request, maximumBytes) ==>
      IsTransferred(c, p, chunks, maximumBytes, u.works, u.answer,
                    if r.Success? then Pass else Fail(r.error), u.stored)
    ensures r.Success? ==> fresh(r.value) && r.value.maximumBytes == maximumBytes && IsReceived(c, p, chunks, r.value, u)
  {
    chunks := if request.body.Some? then request.body.value else [];
    var admitted := Admit(request, maximumBytes);
    if admitted.Fail? {
      return Failure(admitted.error), chunks;
    }
    var form := new UploadForm(c, maximumBytes);
    var pieces := StreamBytes(request.body.value);
    chunks := pieces;
    var transferred := Transfer(form, p, pieces, u);
    return if transferred.Pass? then Success(form) else Failure(transferred.error), chunks;
  }
}
