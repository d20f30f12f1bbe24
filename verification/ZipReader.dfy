/** `_zip_metadata` of src/wheelguard/distributions.py: the sequence of range reads. */
module ZipReader {
  import opened Prelude
  import opened ZipArchive
  import opened ZipMetadata

  /** `_range`: a missing object and a short answer are errors; an empty range is never requested. */
  function Range(stored: Option<Bytes>, offset: int, length: int): (r: Result<Bytes, ZipError>)
    ensures r.Success? ==> |r.value| == Max(0, length)
  {
    if length <= 0 then Success([])
    else if stored.None? then Failure(Unavailable)
    else if 0 <= offset && offset + length <= |stored.value| then Success(stored.value[offset..offset + length])
    else Failure(Truncated)
  }

  /** Reads the tail and checks the end record; `record` is the tail from there on. */
  method ReadEnd(stored: Option<Bytes>, size: nat) returns (r: Result<nat, ZipError>, record: Bytes)
    ensures stored.None? && size > 0 ==> r == Failure(Unavailable)
    ensures stored.Some? && |stored.value| < size ==> r == Failure(Truncated)
    ensures r.Success? ==> stored.Some? && size <= |stored.value|
    ensures r == Failure(Unavailable) ==> stored.None?
    ensures stored.Some? && size <= |stored.value| ==>
              var file := stored.value[..size];
              && (r == Failure(NoEndRecord) <==>
                    !exists e :: TailOffset(size) <= e <= size - END_SIZE && LastAt(file, e))
              && (r.Failure? ==> r.error in {NoEndRecord, BadDirectory})
              && (r.Success? <==> exists e: nat :: EndOk(file, e))
              && (r.Success? ==> EndOk(file, r.value) && record == file[r.value..])
  {
    record := [];
    var tailOffset := TailOffset(size);
    var read := Range(stored, tailOffset, size - tailOffset);
    if read.Failure? {
      return Failure(read.error), [];
    }
    var tail := read.value;
    r, record := FindRecord(tail, tailOffset, if stored.Some? then stored.value[..size] else []);
  }

  /** Searches the tail of `file` and checks what is found. */
  method FindRecord(tail: Bytes, tailOffset: nat, ghost file: Bytes)
      returns (r: Result<nat, ZipError>, record: Bytes)
    requires tailOffset == TailOffset(|file|) && tail == file[tailOffset..]
    ensures r == Failure(NoEndRecord) <==> !exists e :: tailOffset <= e <= |file| - END_SIZE && LastAt(file, e)
    ensures r.Failure? ==> r.error in {NoEndRecord, BadDirectory}
    ensures r.Success? <==> exists e: nat :: EndOk(file, e)
    ensures r.Success? ==> EndOk(file, r.value) && record == file[r.value..]
  {
    var end := RFind(tail, |tail|);
    SearchDecides(file);
    if end.None? || |tail| - end.value < END_SIZE {
      return Failure(NoEndRecord), [];
    }
    record := tail[end.value..];
    assert record == file[tailOffset + end.value..];
    if !RecordOk(Unpack(record), tailOffset + end.value, |tail| - end.value) {
      return Failure(BadDirectory), record;
    }
    assert EndOk(file, tailOffset + end.value);
    return Success(tailOffset + end.value), record;
  }

  /** Only the record at which the search of the window stops can be the end record. */
  lemma SearchDecides(file: Bytes)
    ensures var t := TailOffset(|file|);
            var r := RFind(file[t..], |file| - t);
            && (r.Some? ==> LastAt(file, t + r.value))
            && (forall e | e >= t && LastAt(file, e) :: r == Some(e - t))
            && (forall e: nat | EndOk(file, e) :: r == Some(e - t))
  {
    var t := TailOffset(|file|);
    WindowSearch(file, t);
    forall e: nat | EndOk(file, e) ensures e >= t && LastAt(file, e) {
      EndInWindow(file, e);
    }
  }

  /** The entries that look like the metadata file. */
  function Candidates(entries: seq<Entry>, wheel: bool): seq<Entry> {
    if entries == [] then []
    else
      var last := entries[|entries| - 1];
      Candidates(entries[..|entries| - 1], wheel) + if IsCandidate(last.filename, wheel) then [last] else []
  }

  lemma {:induction false} CandidatesDecide(entries: seq<Entry>, wheel: bool)
    ensures var found := Candidates(entries, wheel);
            && (|found| == 0 ==> forall k :: !IsCandidateAt(entries, wheel, k))
            && (|found| == 1 ==> exists k :: IsOnly(entries, wheel, k) && entries[k] == found[0])
            && (|found| > 0 ==> exists k :: IsCandidateAt(entries, wheel, k))
            && (|found| > 1 ==> exists i, j :: i < j && IsCandidateAt(entries, wheel, i) && IsCandidateAt(entries, wheel, j))
  {
    if entries != [] {
      var n := |entries| - 1;
      var front := entries[..n];
      CandidatesDecide(front, wheel);
      forall k
        ensures IsCandidateAt(entries, wheel, k) <==>
                IsCandidateAt(front, wheel, k) || (k == n && IsCandidate(entries[n].filename, wheel))
      {
      }
      if IsCandidateAt(entries, wheel, n) && Candidates(front, wheel) != [] {
        var i :| IsCandidateAt(front, wheel, i);
        assert i < n && IsCandidateAt(entries, wheel, i);
      }
    }
  }

  /** Exactly one listed entry may be the metadata file. */
  method PickSole(entries: seq<Entry>, wheel: bool) returns (r: Result<Entry, ZipError>)
    ensures r.Success? ==> IsSole(entries, wheel, r.value)
    ensures r.Failure? ==> r.error == NotExactlyOne && forall info :: !IsSole(entries, wheel, info)
  {
    var candidates := Candidates(entries, wheel);
    CandidatesDecide(entries, wheel);
    if |candidates| != 1 {
      forall k ensures !IsOnly(entries, wheel, k) {
        assert IsOnly(entries, wheel, k) ==> IsCandidateAt(entries, wheel, k);
      }
      return Failure(NotExactlyOne);
    }
    return Success(candidates[0]);
  }

  ghost predicate HasMember(lib: Libraries, file: Bytes, limit: nat, info: Entry, content: Bytes) {
    exists n, x :: MemberOk(lib, file, limit, info, n, x, content)
  }

  /** Inflating, then checking length and checksum. */
  function Extract(lib: Libraries, info: Entry, data: Bytes): (r: Result<Bytes, ZipError>)
    ensures forall content :: r == Success(content) <==> Unpacks(lib, info, data, content)
    ensures r.Failure? ==> r.error in {BadCompression, Unsupported, Mismatch}
    ensures r == Failure(Unsupported) <==> info.compression !in {0, 8}
    ensures r == Failure(BadCompression) <==>
            info.compression == 8 && !exists content :: lib.inflate(data) == Inflation(content, true, [])
  {
    var unpacked :=
      if info.compression == 0 then Success(data)
      else if info.compression == 8 then
        match lib.inflate(data)
        case Corrupt => Failure(BadCompression)
        case Inflation(content, ended, unused) =>
          if !ended || unused != [] then Failure(BadCompression) else Success(content)
      else Failure(Unsupported);
    match unpacked
    case Failure(error) => Failure(error)
    case Success(content) =>
      if |content| != info.fileSize || lib.crc32(content) != info.crc then Failure(Mismatch) else Success(content)
  }

  /** There is a local header where the directory says, and its member ends before the directory. */
  ghost predicate IsPlaced(file: Bytes, limit: nat, info: Entry) {
    exists n, x :: HeaderSays(file, limit, info, n, x)
  }

  predicate HeaderSays(file: Bytes, limit: nat, info: Entry, n: nat, x: nat) {
    LocalOk(file, info.headerOffset + limit, n, x, info.compressSize, limit)
  }

  lemma NoMember(lib: Libraries, file: Bytes, limit: nat, info: Entry)
    requires !IsPlaced(file, limit, info)
    ensures forall content :: !HasMember(lib, file, limit, info, content)
  {
    forall content, n: nat, x: nat ensures MemberOk(lib, file, limit, info, n, x, content) ==> HeaderSays(file, limit, info, n, x) {
    }
  }

  /** ... and carries the name of the entry. */
  ghost predicate IsNamed(lib: Libraries, file: Bytes, limit: nat, info: Entry) {
    exists n, x ::
      && HeaderSays(file, limit, info, n, x)
      && var at := info.headerOffset + limit + LOCAL_SIZE;
      && file[at..at + n] == Encoded(lib, info)
  }

  /** The local header: where name and data are. */
  method ReadHeader(stored: Bytes, size: nat, limit: nat, info: Entry)
      returns (r: Result<(nat, nat), ZipError>)
    requires limit <= size <= |stored|
    ensures r.Success? <==> IsPlaced(stored[..size], limit, info)
    ensures r.Success? ==>
      HeaderSays(stored[..size], limit, info, r.value.0, r.value.1)
    ensures r.Failure? ==> r.error in {Truncated, BadHeader, BadOffset}
  {
    var offset := info.headerOffset + limit;
    var header := Range(Some(stored), offset, LOCAL_SIZE);
    if header.Failure? {
      return Failure(header.error);
    }
    HeaderRead(stored, size, offset, header.value);
    if header.value[..4] != LOCAL_SIGNATURE {
      return Failure(BadHeader);
    }
    var nameSize, extraSize := Number(header.value[26..28]), Number(header.value[28..30]);
    if offset + LOCAL_SIZE + nameSize + extraSize + info.compressSize > limit {
      return Failure(BadOffset);
    }
    assert HeaderSays(stored[..size], limit, info, nameSize, extraSize);
    return Success((nameSize, extraSize));
  }

  /** The reads that follow the directory: local header, name and data. */
  method ReadMember(lib: Libraries, stored: Bytes, size: nat, limit: nat, info: Entry)
      returns (r: Result<Bytes, ZipError>)
    requires limit <= size <= |stored|
    ensures forall content :: r == Success(content) <==> HasMember(lib, stored[..size], limit, info, content)
    ensures
      var file := stored[..size];
      && r != Failure(Unavailable)
      && (r == Failure(Oversized) <==> !IsReadable(info))
      && (r.Failure? && r.error in {Truncated, BadHeader, BadOffset} <==>
            IsReadable(info) && !IsPlaced(file, limit, info))
      && (r == Failure(NamesDiffer) <==>
            IsReadable(info) && IsPlaced(file, limit, info) && !IsNamed(lib, file, limit, info))
  {
    if info.fileSize > METADATA_LIMIT || info.compressSize > METADATA_LIMIT || info.flags % 2 == 1 {
      return Failure(Oversized);
    }
    ghost var file := stored[..size];
    var lengths := ReadHeader(stored, size, limit, info);
    if lengths.Failure? {
      NoMember(lib, file, limit, info);
      return Failure(lengths.error);
    }
    var (nameSize, extraSize) := lengths.value;
    var offset := info.headerOffset + limit;
    var start := offset + LOCAL_SIZE + nameSize + extraSize;
    var name := Range(Some(stored), offset + LOCAL_SIZE, nameSize);
    Within(stored, size, offset + LOCAL_SIZE, nameSize);
    assert name == Success(file[offset + LOCAL_SIZE..offset + LOCAL_SIZE + nameSize]);
    if name.value != Encoded(lib, info) {
      return Failure(NamesDiffer);
    }
    var data := Range(Some(stored), start, info.compressSize);
    Within(stored, size, start, info.compressSize);
    assert data == Success(file[start..start + info.compressSize]);
    r := Extract(lib, info, data.value);
    assert forall content ::
        Unpacks(lib, info, data.value, content) ==> MemberOk(lib, file, limit, info, nameSize, extraSize, content);
  }

  lemma HeaderRead(stored: Bytes, size: nat, offset: nat, header: Bytes)
    requires size <= |stored| && offset + LOCAL_SIZE <= |stored| && header == stored[offset..offset + LOCAL_SIZE]
    ensures offset + LOCAL_SIZE <= size ==>
              var file := stored[..size];
              && file[offset..offset + 4] == header[..4]
              && file[offset + 26..offset + 28] == header[26..28]
              && file[offset + 28..offset + 30] == header[28..30]
  {
    if offset + LOCAL_SIZE <= size {
      Within(stored, size, offset, LOCAL_SIZE);
      HeaderAt(stored[..size], offset, header);
    }
  }

  /** A range of the object inside the first `size` bytes is that range of those bytes. */
  lemma Within(stored: Bytes, size: nat, offset: nat, length: nat)
    requires offset + length <= size <= |stored|
    ensures Range(Some(stored), offset, length) == Success(stored[..size][offset..offset + length])
    ensures stored[offset..offset + length] == stored[..size][offset..offset + length]
  {
    assert stored[offset..offset + length] == stored[..size][offset..offset + length];
    if length == 0 {
      assert stored[..size][offset..offset] == [];
    }
  }

  /** What is left to decide once the directory is read. */
  ghost predicate Decides(lib: Libraries, wheel: bool, file: Bytes, entries: Option<seq<Entry>>, d: nat) {
    forall content :: HasMetadata(lib, wheel, file, content) <==> HasListed(lib, wheel, file, entries, d, content)
  }

  ghost predicate HasListed(
    lib: Libraries, wheel: bool, file: Bytes, entries: Option<seq<Entry>>, d: nat, content: Bytes)
  {
    && entries.Some?
    && exists info :: IsSole(entries.value, wheel, info) && HasMember(lib, file, d, info, content)
  }

  lemma Remaining(lib: Libraries, wheel: bool, file: Bytes, e: nat, f: EndFields)
    requires EndOk(file, e) && f == Unpack(file[e..])
    ensures f.offset + f.size == e
    ensures Decides(lib, wheel, file, lib.directory(file[f.offset..e] + file[e..]), f.offset)
  {
    var entries := lib.directory(file[f.offset..e] + file[e..]);
    forall content ensures HasMetadata(lib, wheel, file, content) <==>
                           HasListed(lib, wheel, file, entries, f.offset, content)
    {
      ListedIff(lib, wheel, file, e, f, content);
    }
  }

  lemma ListedIff(lib: Libraries, wheel: bool, file: Bytes, e: nat, f: EndFields, content: Bytes)
    requires EndOk(file, e) && f == Unpack(file[e..])
    ensures HasMetadata(lib, wheel, file, content) <==>
            HasListed(lib, wheel, file, lib.directory(file[f.offset..e] + file[e..]), f.offset, content)
  {
    CheckedIff(lib, wheel, file, content);
    if e', info, n, x :| Checked(lib, wheel, file, e', info, n, x, content) {
      LastUnique(file, e, e');
      assert HasMember(lib, file, f.offset, info, content);
    }
    var entries := lib.directory(file[f.offset..e] + file[e..]);
    if HasListed(lib, wheel, file, entries, f.offset, content) {
      var info :| IsSole(entries.value, wheel, info) && HasMember(lib, file, f.offset, info, content);
      var n, x :| MemberOk(lib, file, f.offset, info, n, x, content);
      assert Checked(lib, wheel, file, e, info, n, x, content);
    }
  }

  lemma NothingToRead(lib: Libraries, wheel: bool, file: Bytes)
    requires !exists e: nat :: EndOk(file, e)
    ensures forall content :: !HasMetadata(lib, wheel, file, content)
  {
    forall content ensures !HasMetadata(lib, wheel, file, content) {
      CheckedIff(lib, wheel, file, content);
    }
  }

  lemma SoleDecides(lib: Libraries, wheel: bool, file: Bytes, entries: seq<Entry>, d: nat, info: Entry)
    requires Decides(lib, wheel, file, Some(entries), d) && IsSole(entries, wheel, info)
    ensures forall content :: HasMetadata(lib, wheel, file, content) <==> HasMember(lib, file, d, info, content)
  {
    forall content
      ensures HasListed(lib, wheel, file, Some(entries), d, content) <==> HasMember(lib, file, d, info, content)
    {
      if info' :| IsSole(entries, wheel, info') && HasMember(lib, file, d, info', content) {
        SoleUnique(entries, wheel, info, info');
      }
    }
  }

  /** `_zip_metadata`: the answer is the content of the metadata member of the archive that the object, up to `size`,
      is as a whole file; there is an answer exactly when it is one. */
  method ReadMetadata(lib: Libraries, stored: Option<Bytes>, size: nat, wheel: bool)
      returns (r: Result<Bytes, ZipError>)
    ensures stored.None? && size > 0 ==> r == Failure(Unavailable)
    ensures stored.Some? && |stored.value| < size ==> r == Failure(Truncated)
    ensures r == Failure(Unavailable) ==> stored.None?
    ensures stored.Some? && size <= |stored.value| ==>
              forall content :: r == Success(content) <==> HasMetadata(lib, wheel, stored.value[..size], content)
  {
    var end, record := ReadEnd(stored, size);
    if end.Failure? {
      if stored.Some? && size <= |stored.value| {
        NothingToRead(lib, wheel, stored.value[..size]);
      }
      return Failure(end.error);
    }
    r := ReadFrom(lib, stored.value, size, wheel, end.value, record);
  }

  /** With the end record found. */
  method ReadFrom(lib: Libraries, stored: Bytes, size: nat, wheel: bool, end: nat, record: Bytes)
      returns (r: Result<Bytes, ZipError>)
    requires size <= |stored| && EndOk(stored[..size], end) && record == stored[..size][end..]
    ensures forall content :: r == Success(content) <==> HasMetadata(lib, wheel, stored[..size], content)
    ensures r != Failure(Unavailable)
  {
    var f := Unpack(record);
    Remaining(lib, wheel, stored[..size], end, f);
    r := ReadListed(lib, stored, size, wheel, f.offset, f.size, record);
  }

  /** The directory, once its record is found. */
  method ReadListed(lib: Libraries, stored: Bytes, size: nat, wheel: bool, d: nat, length: nat, record: Bytes)
      returns (r: Result<Bytes, ZipError>)
    requires d + length <= size <= |stored|
    requires Decides(lib, wheel, stored[..size], lib.directory(stored[..size][d..d + length] + record), d)
    ensures forall content :: r == Success(content) <==> HasMetadata(lib, wheel, stored[..size], content)
    ensures r != Failure(Unavailable)
  {
    var directory := Range(Some(stored), d, length);
    Within(stored, size, d, length);
    var entries := lib.directory(directory.value + record);
    if entries.None? {
      return Failure(Unreadable);
    }
    var info := PickSole(entries.value, wheel);
    if info.Failure? {
      return Failure(info.error);
    }
    SoleDecides(lib, wheel, stored[..size], entries.value, d, info.value);
    r := ReadMember(lib, stored, size, d, info.value);
  }
}
