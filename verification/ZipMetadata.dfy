/** Reading one member of a ZIP distribution by byte ranges, as src/wheelguard/distributions.py does: a tail window,
    the directory, a local header and the member, never the whole object. `IsMetadata` says what the answer means
    for the whole file: the file is some archive as a writer lays it out. */
module ZipMetadata {
  import opened Prelude
  import opened ZipArchive
  import TarScanner

  const METADATA_LIMIT: nat := TarScanner.METADATA_LIMIT

  const TAIL: nat := 65_557

  datatype Entry = Entry(
    filename: string, headerOffset: int, compressSize: nat, fileSize: nat, flags: nat, compression: nat, crc: nat)

  /** `decompress` with an output limit: what came out, whether the stream ended, and what was left over. */
  datatype Inflation = Inflation(content: Bytes, ended: bool, unused: Bytes) | Corrupt

  /** The libraries: directory parsing with offsets relative to the directory, file name encoding (UTF-8 or code
      page 437), raw inflation and CRC-32. */
  datatype Libraries = Libraries(
    directory: Bytes -> Option<seq<Entry>>,
    encode: (string, bool) -> Bytes,
    inflate: Bytes -> Inflation,
    crc32: Bytes -> nat)

  datatype ZipError =
    | Unavailable
    | Truncated
    | NoEndRecord
    | BadDirectory
    | Unreadable
    | NotExactlyOne
    | Oversized
    | BadHeader
    | BadOffset
    | NamesDiffer
    | BadCompression
    | Unsupported
    | Mismatch

  // ---------------------------------------------------------------- Searching for the end record

  predicate Occurs(s: Bytes, i: int) {
    0 <= i <= |s| - 4 && s[i..i + 4] == END_SIGNATURE
  }

  /** `s.rfind(END_SIGNATURE)` restricted to starts below `bound`. */
  function RFind(s: Bytes, bound: nat): (r: Option<nat>)
    ensures r.None? ==> forall i | i < bound :: !Occurs(s, i)
    ensures r.Some? ==> Occurs(s, r.value) && r.value < bound && forall i | r.value < i < bound :: !Occurs(s, i)
  {
    if bound == 0 then None
    else if Occurs(s, bound - 1) then Some(bound - 1)
    else RFind(s, bound - 1)
  }

  ghost predicate LastAt(s: Bytes, e: int) {
    Occurs(s, e) && forall i | i > e :: !Occurs(s, i)
  }

  function TailOffset(size: nat): nat {
    Max(0, size - TAIL)
  }

  lemma Shifted(file: Bytes, t: nat, i: int)
    requires t <= |file| && i >= t
    ensures Occurs(file[t..], i - t) <==> Occurs(file, i)
  {
    if i <= |file| - 4 {
      assert file[t..][i - t..i - t + 4] == file[i..i + 4];
    }
  }

  /** Searching the window is searching the file, as far as the window reaches. */
  lemma WindowSearch(file: Bytes, t: nat)
    requires t <= |file|
    ensures var r := RFind(file[t..], |file| - t);
            && (r.Some? ==> LastAt(file, t + r.value))
            && (r.None? ==> forall i | i >= t :: !Occurs(file, i))
  {
    var r := RFind(file[t..], |file| - t);
    forall i | i >= t ensures Occurs(file, i) ==> r.Some? && i <= t + r.value {
      Shifted(file, t, i);
    }
    if r.Some? {
      Shifted(file, t, t + r.value);
    }
  }

  /** The window holds the whole end record of every archive, whatever its comment, and the search stops at it
      exactly when the signature does not occur again in the record or the comment. */
  lemma WindowHoldsRecord(a: Archive)
    requires a.WellFormed()
    ensures var file := a.Written();
            var t := TailOffset(|file|);
            && TAIL == END_SIZE + COMMENT_LIMIT
            && t <= a.EndAt()
            && file[t..][a.EndAt() - t..] == a.End()
            && (RFind(file[t..], |file| - t) == Some(a.EndAt() - t) <==>
                forall i | i > a.EndAt() :: !Occurs(file, i))
  {
    var file := a.Written();
    var t := TailOffset(|file|);
    assert |file| == a.EndAt() + |a.End()|;
    assert file[t..][a.EndAt() - t..] == file[a.EndAt()..] == a.End();
    assert file[a.EndAt()..a.EndAt() + 4] == a.End()[..4];
    assert Occurs(file, a.EndAt());
    WindowSearch(file, t);
    assert (forall i | i > a.EndAt() :: !Occurs(file, i)) <==> LastAt(file, a.EndAt());
  }

  // ---------------------------------------------------------------- What the answer means

  predicate EndsWith(s: string, suffix: string) {
    |s| >= |suffix| && s[|s| - |suffix|..] == suffix
  }

  function Slashes(s: string): nat {
    if s == "" then 0 else Slashes(s[1..]) + if s[0] == '/' then 1 else 0
  }

  /** `<dir>.dist-info/METADATA` or `<dir>/PKG-INFO`, one level deep. */
  predicate IsCandidate(filename: string, wheel: bool) {
    && EndsWith(filename, if wheel then ".dist-info/METADATA" else "/PKG-INFO")
    && Slashes(filename) == 1
  }

  ghost predicate IsSole(entries: seq<Entry>, wheel: bool, info: Entry) {
    exists k :: 0 <= k < |entries| && entries[k] == info && IsOnly(entries, wheel, k)
  }

  predicate IsCandidateAt(entries: seq<Entry>, wheel: bool, k: int) {
    0 <= k < |entries| && IsCandidate(entries[k].filename, wheel)
  }

  ghost predicate IsOnly(entries: seq<Entry>, wheel: bool, k: int) {
    IsCandidateAt(entries, wheel, k) && forall j | IsCandidateAt(entries, wheel, j) :: j == k
  }

  function Encoded(lib: Libraries, info: Entry): Bytes {
    lib.encode(info.filename, info.flags / 0x800 % 2 == 1)
  }

  predicate IsReadable(info: Entry) {
    info.fileSize <= METADATA_LIMIT && info.compressSize <= METADATA_LIMIT && info.flags % 2 == 0
  }

  /** `content` is the member stored as `data`: stored or deflated, of the recorded length and checksum. */
  predicate Unpacks(lib: Libraries, info: Entry, data: Bytes, content: Bytes) {
    && info.compression in {0, 8}
    && (info.compression == 0 ==> content == data)
    && (info.compression == 8 ==> lib.inflate(data) == Inflation(content, true, []))
    && |content| == info.fileSize
    && lib.crc32(content) == info.crc
  }

  /** The file is the archive `a`, within the limits, and no later signature hides its end record. */
  ghost predicate IsWritten(file: Bytes, a: Archive) {
    && a.WellFormed() && a.entries < 65535 && |a.directory| <= METADATA_LIMIT
    && file == a.Written()
    && forall i | i > a.EndAt() :: !Occurs(file, i)
  }

  /** The directory of `a` lists one metadata member; that member is the one shown, and unpacks to `content`. */
  ghost predicate IsMember(lib: Libraries, wheel: bool, a: Archive, info: Entry, content: Bytes)
    requires a.WellFormed()
  {
    && lib.directory(a.directory + a.End()).Some?
    && IsSole(lib.directory(a.directory + a.End()).value, wheel, info)
    && info.headerOffset == |a.before| - |a.Files()|
    && a.name == Encoded(lib, info)
    && |a.data| == info.compressSize
    && IsReadable(info)
    && Unpacks(lib, info, a.data, content)
  }

  ghost predicate IsMetadata(lib: Libraries, wheel: bool, file: Bytes, a: Archive, info: Entry, content: Bytes) {
    IsWritten(file, a) && IsMember(lib, wheel, a, info, content)
  }

  ghost predicate HasMetadata(lib: Libraries, wheel: bool, file: Bytes, content: Bytes) {
    exists a, info :: IsMetadata(lib, wheel, file, a, info, content)
  }

  // ---------------------------------------------------------------- The same, slice by slice

  /** The checks on an end record at `e`, with `length` bytes from there to the end of the file. */
  predicate RecordOk(f: EndFields, e: nat, length: nat) {
    && f.disk == 0 && f.directoryDisk == 0 && f.diskEntries == f.entries && f.entries != 65535
    && f.size <= METADATA_LIMIT
    && f.offset + f.size == e
    && length == END_SIZE + f.comment
  }

  ghost predicate EndOk(file: Bytes, e: nat) {
    && e + END_SIZE <= |file|
    && LastAt(file, e)
    && RecordOk(Unpack(file[e..]), e, |file| - e)
  }

  /** The member at `o`, with lengths `n` and `x` in its header, ends before the directory. */
  predicate LocalOk(file: Bytes, o: int, n: nat, x: nat, size: nat, limit: nat) {
    && limit <= |file|
    && 0 <= o && o + LOCAL_SIZE <= |file|
    && file[o..o + 4] == LOCAL_SIGNATURE
    && n == Number(file[o + 26..o + 28]) && x == Number(file[o + 28..o + 30])
    && o + LOCAL_SIZE + n + x + size <= limit
  }

  predicate MemberOk(lib: Libraries, file: Bytes, limit: nat, info: Entry, n: nat, x: nat, content: Bytes) {
    var o := info.headerOffset + limit;
    var start := o + LOCAL_SIZE + n + x;
    && IsReadable(info)
    && LocalOk(file, o, n, x, info.compressSize, limit)
    && file[o + LOCAL_SIZE..o + LOCAL_SIZE + n] == Encoded(lib, info)
    && Unpacks(lib, info, file[start..start + info.compressSize], content)
  }

  function DirectoryAt(file: Bytes, e: nat): nat
    requires e + END_SIZE <= |file|
  {
    Unpack(file[e..]).offset
  }

  /** What the directory lists, given the end record at `e`. */
  ghost predicate Lists(lib: Libraries, wheel: bool, file: Bytes, d: nat, e: nat, info: Entry)
    requires d <= e <= |file|
  {
    && lib.directory(file[d..e] + file[e..]).Some?
    && IsSole(lib.directory(file[d..e] + file[e..]).value, wheel, info)
  }

  ghost predicate Checked(
    lib: Libraries, wheel: bool, file: Bytes, e: nat, info: Entry, n: nat, x: nat, content: Bytes)
  {
    && EndOk(file, e)
    && Lists(lib, wheel, file, DirectoryAt(file, e), e, info)
    && MemberOk(lib, file, DirectoryAt(file, e), info, n, x, content)
  }

  /** At most one end record, one member and one content pass the checks. */
  lemma CheckedUnique(
    lib: Libraries, wheel: bool, file: Bytes,
    e: nat, info: Entry, n: nat, x: nat, content: Bytes,
    e': nat, info': Entry, n': nat, x': nat, content': Bytes)
    requires Checked(lib, wheel, file, e, info, n, x, content)
    requires Checked(lib, wheel, file, e', info', n', x', content')
    ensures e == e' && info == info' && content == content'
  {
    LastUnique(file, e, e');
    ListsUnique(lib, wheel, file, DirectoryAt(file, e), e, info, info');
    assert content == content' by {
      UnpacksUnique(lib, file, DirectoryAt(file, e), info, n, x, content, n', x', content');
    }
  }

  lemma ListsUnique(lib: Libraries, wheel: bool, file: Bytes, d: nat, e: nat, info: Entry, info': Entry)
    requires d <= e <= |file| && Lists(lib, wheel, file, d, e, info) && Lists(lib, wheel, file, d, e, info')
    ensures info == info'
  {
    SoleUnique(lib.directory(file[d..e] + file[e..]).value, wheel, info, info');
  }

  lemma UnpacksUnique(
    lib: Libraries, file: Bytes, limit: nat, info: Entry,
    n: nat, x: nat, content: Bytes, n': nat, x': nat, content': Bytes)
    requires MemberOk(lib, file, limit, info, n, x, content) && MemberOk(lib, file, limit, info, n', x', content')
    ensures content == content'
  {
  }

  lemma LastUnique(file: Bytes, e: nat, e': nat)
    requires LastAt(file, e) && LastAt(file, e')
    ensures e == e'
  {
  }

  lemma SoleUnique(entries: seq<Entry>, wheel: bool, info: Entry, info': Entry)
    requires IsSole(entries, wheel, info) && IsSole(entries, wheel, info')
    ensures info == info'
  {
  }

  // ---------------------------------------------------------------- From slices to archives and back

  /** The archive that a checked file is. */
  function Sliced(file: Bytes, e: nat, f: EndFields, o: nat, n: nat, x: nat, size: nat): Archive
    requires f.offset <= e && e + END_SIZE <= |file|
    requires LocalOk(file, o, n, x, size, f.offset)
  {
    var start := o + LOCAL_SIZE + n + x;
    Archive(file[..o], file[o + 4..o + 26], file[o + LOCAL_SIZE..o + LOCAL_SIZE + n],
            file[o + LOCAL_SIZE + n..start], file[start..start + size], file[start + size..f.offset],
            file[f.offset..e], f.entries, file[e + END_SIZE..])
  }

  lemma LocalSlices(file: Bytes, o: nat, n: nat, x: nat, size: nat, limit: nat)
    requires LocalOk(file, o, n, x, size, limit)
    ensures n < 0x1_0000 && x < 0x1_0000
    ensures file[o..o + LOCAL_SIZE] == LocalHeader(file[o + 4..o + 26], n, x)
  {
    var h := file[o..o + LOCAL_SIZE];
    HeaderAt(file, o, h);
    Two(h[26..28], n);
    Two(h[28..30], x);
    LocalHeaderIff(h, n, x);
  }

  lemma SlicedWellFormed(file: Bytes, e: nat, f: EndFields, o: nat, n: nat, x: nat, size: nat)
    requires EndOk(file, e) && f == Unpack(file[e..]) && LocalOk(file, o, n, x, size, f.offset)
    ensures Sliced(file, e, f, o, n, x, size).WellFormed()
    ensures Sliced(file, e, f, o, n, x, size).entries < 65535
  {
    LocalSlices(file, o, n, x, size, f.offset);
    UnpackFields(file[e..], f);
    UnpackLengths(file[e..], f);
  }

  lemma SlicedFiles(file: Bytes, e: nat, f: EndFields, o: nat, n: nat, x: nat, size: nat)
    requires f.offset <= e && e + END_SIZE <= |file| && LocalOk(file, o, n, x, size, f.offset)
    requires Sliced(file, e, f, o, n, x, size).WellFormed()
    ensures Sliced(file, e, f, o, n, x, size).Files() == file[..f.offset]
  {
    LocalSlices(file, o, n, x, size, f.offset);
    FilesAround(Sliced(file, e, f, o, n, x, size), file[o..o + LOCAL_SIZE]);
    SlicesJoin(file, o, o + LOCAL_SIZE, o + LOCAL_SIZE + n, o + LOCAL_SIZE + n + x, o + LOCAL_SIZE + n + x + size,
               f.offset);
  }

  lemma FilesAround(a: Archive, header: Bytes)
    requires a.WellFormed() && header == LocalHeader(a.middle, |a.name|, |a.extra|)
    ensures a.Files() == a.before + (header + a.name + a.extra + a.data) + a.between
  {
  }

  lemma SlicesJoin(s: Bytes, i: nat, j: nat, k: nat, l: nat, m: nat, n: nat)
    requires i <= j <= k <= l <= m <= n <= |s|
    ensures s[..i] + (s[i..j] + s[j..k] + s[k..l] + s[l..m]) + s[m..n] == s[..n]
  {
    assert s[i..j] + s[j..k] == s[i..k];
    assert s[i..k] + s[k..l] == s[i..l];
    assert s[i..l] + s[l..m] == s[i..m];
    assert s[..i] + s[i..m] == s[..m];
  }

  lemma SlicedWritten(file: Bytes, e: nat, f: EndFields, o: nat, n: nat, x: nat, size: nat)
    requires EndOk(file, e) && f == Unpack(file[e..]) && LocalOk(file, o, n, x, size, f.offset)
    ensures var a := Sliced(file, e, f, o, n, x, size);
            a.WellFormed() && a.EndAt() == e && a.End() == file[e..] && a.Written() == file
  {
    SlicedWellFormed(file, e, f, o, n, x, size);
    SlicedFiles(file, e, f, o, n, x, size);
    EndSliced(file, e, f);
    WrittenFrom(Sliced(file, e, f, o, n, x, size), file, f.offset, e);
  }

  lemma WrittenFrom(a: Archive, file: Bytes, d: nat, e: nat)
    requires a.WellFormed() && d <= e <= |file|
    requires a.Files() == file[..d] && a.directory == file[d..e] && a.End() == file[e..]
    ensures a.Written() == file && a.EndAt() == e
  {
    assert file[..d] + file[d..e] == file[..e];
    assert file[..e] + file[e..] == file;
  }

  lemma EndSliced(file: Bytes, e: nat, f: EndFields)
    requires EndOk(file, e) && f == Unpack(file[e..])
    ensures file[e..] == EndRecord(f.entries, f.size, f.offset, file[e + END_SIZE..])
  {
    UnpackIff(file[e..], f);
    assert file[e..][END_SIZE..] == file[e + END_SIZE..];
    assert file[e..][..4] == file[e..e + 4];
  }

  lemma CheckedIsArchive(
    lib: Libraries, wheel: bool, file: Bytes, e: nat, info: Entry, n: nat, x: nat, content: Bytes)
    requires Checked(lib, wheel, file, e, info, n, x, content)
    ensures HasMetadata(lib, wheel, file, content)
  {
    var f := Unpack(file[e..]);
    var o := info.headerOffset + f.offset;
    SlicedWellFormed(file, e, f, o, n, x, info.compressSize);
    SlicedFiles(file, e, f, o, n, x, info.compressSize);
    SlicedWritten(file, e, f, o, n, x, info.compressSize);
    SlicedIsMetadata(lib, wheel, file, e, f, info, n, x, content);
  }

  lemma SlicedIsMetadata(
    lib: Libraries, wheel: bool, file: Bytes, e: nat, f: EndFields, info: Entry, n: nat, x: nat, content: Bytes)
    requires LastAt(file, e) && f.offset + f.size == e <= |file| - END_SIZE
    requires f.entries < 65535 && f.size <= METADATA_LIMIT
    requires Lists(lib, wheel, file, f.offset, e, info)
    requires MemberOk(lib, file, f.offset, info, n, x, content)
    requires var a := Sliced(file, e, f, info.headerOffset + f.offset, n, x, info.compressSize);
             && a.WellFormed() && a.Files() == file[..f.offset]
             && a.EndAt() == e && a.End() == file[e..] && a.Written() == file
    ensures HasMetadata(lib, wheel, file, content)
  {
    var a := Sliced(file, e, f, info.headerOffset + f.offset, n, x, info.compressSize);
    assert IsWritten(file, a);
    assert IsMember(lib, wheel, a, info, content);
    assert IsMetadata(lib, wheel, file, a, info, content);
  }

  lemma ArchiveEnd(a: Archive)
    requires a.WellFormed() && a.entries < 65535 && |a.directory| <= METADATA_LIMIT
    requires forall i | i > a.EndAt() :: !Occurs(a.Written(), i)
    ensures var file := a.Written();
            && EndOk(file, a.EndAt()) && file[a.EndAt()..] == a.End()
            && Unpack(a.End()).offset == |a.Files()|
            && file[|a.Files()|..a.EndAt()] == a.directory
  {
    var file := a.Written();
    assert file[a.EndAt()..] == a.End();
    assert file[a.EndAt()..a.EndAt() + 4] == a.End()[..4];
    assert |a.Files()| == |a.before| + LOCAL_SIZE + |a.name| + |a.extra| + |a.data| + |a.between|;
    UnpackWritten(a.entries, |a.directory|, |a.Files()|, a.comment);
  }

  lemma Middle(file: Bytes, before: Bytes, s: Bytes, after: Bytes)
    requires file == before + s + after
    ensures file[|before|..|before| + |s|] == s
  {
  }

  lemma Regroup(b: Bytes, h: Bytes, n: Bytes, x: Bytes, d: Bytes, t: Bytes)
    ensures b + (h + n + x + d) + t == b + h + (n + x + d + t)
    ensures b + (h + n + x + d) + t == (b + h) + n + (x + d + t)
    ensures b + (h + n + x + d) + t == (b + h + n + x) + d + t
  {
  }

  function Rest(a: Archive): Bytes
    requires a.WellFormed()
  {
    a.between + a.directory + a.End()
  }

  lemma WrittenAround(a: Archive)
    requires a.WellFormed()
    ensures a.Written() == a.before + a.Member() + Rest(a)
  {
  }

  lemma HeaderFields(h: Bytes, middle: Bytes, n: nat, x: nat)
    requires |middle| == 22 && h == LocalHeader(middle, n, x) && n < 0x1_0000 && x < 0x1_0000
    ensures h[..4] == LOCAL_SIGNATURE && Number(h[26..28]) == n && Number(h[28..30]) == x
  {
    assert h[4..26] == middle;
    LocalHeaderIff(h, n, x);
  }

  lemma ArchiveHeader(a: Archive)
    requires a.WellFormed()
    ensures LocalOk(a.Written(), |a.before|, |a.name|, |a.extra|, |a.data|, |a.Files()|)
  {
    var file := a.Written();
    var o := |a.before|;
    var h := LocalHeader(a.middle, |a.name|, |a.extra|);
    WrittenAround(a);
    Regroup(a.before, h, a.name, a.extra, a.data, Rest(a));
    Middle(file, a.before, h, a.name + a.extra + a.data + Rest(a));
    HeaderFields(h, a.middle, |a.name|, |a.extra|);
    HeaderAt(file, o, h);
  }

  lemma HeaderAt(file: Bytes, o: nat, h: Bytes)
    requires o + LOCAL_SIZE <= |file| && |h| == LOCAL_SIZE && file[o..o + LOCAL_SIZE] == h
    ensures file[o..o + 4] == h[..4]
    ensures file[o + 4..o + 26] == h[4..26]
    ensures file[o + 26..o + 28] == h[26..28]
    ensures file[o + 28..o + 30] == h[28..30]
  {
  }

  lemma ArchiveMember(a: Archive)
    requires a.WellFormed()
    ensures var file := a.Written();
            var o := |a.before|;
            var start := o + LOCAL_SIZE + |a.name| + |a.extra|;
            && o <= start <= start + |a.data| <= |file|
            && file[o + LOCAL_SIZE..o + LOCAL_SIZE + |a.name|] == a.name
            && file[start..start + |a.data|] == a.data
  {
    var file := a.Written();
    var h := LocalHeader(a.middle, |a.name|, |a.extra|);
    WrittenAround(a);
    Regroup(a.before, h, a.name, a.extra, a.data, Rest(a));
    Middle(file, a.before + h, a.name, a.extra + a.data + Rest(a));
    Middle(file, a.before + h + a.name + a.extra, a.data, Rest(a));
  }

  lemma ArchiveMemberOk(lib: Libraries, a: Archive, info: Entry, content: Bytes)
    requires a.WellFormed() && info.headerOffset == |a.before| - |a.Files()|
    requires a.name == Encoded(lib, info) && |a.data| == info.compressSize
    requires IsReadable(info) && Unpacks(lib, info, a.data, content)
    ensures MemberOk(lib, a.Written(), |a.Files()|, info, |a.name|, |a.extra|, content)
  {
    ArchiveHeader(a);
    ArchiveMember(a);
  }

  lemma ArchiveIsChecked(lib: Libraries, wheel: bool, file: Bytes, a: Archive, info: Entry, content: Bytes)
    requires IsMetadata(lib, wheel, file, a, info, content)
    ensures Checked(lib, wheel, file, a.EndAt(), info, |a.name|, |a.extra|, content)
  {
    ArchiveEnd(a);
    ArchiveMemberOk(lib, a, info, content);
  }

  /** The checks, all passed, say exactly that the file is an archive as written. */
  lemma CheckedIff(lib: Libraries, wheel: bool, file: Bytes, content: Bytes)
    ensures HasMetadata(lib, wheel, file, content) <==>
            exists e, info, n, x :: Checked(lib, wheel, file, e, info, n, x, content)
  {
    if a, info :| IsMetadata(lib, wheel, file, a, info, content) {
      ArchiveIsChecked(lib, wheel, file, a, info, content);
    }
    if e, info, n, x :| Checked(lib, wheel, file, e, info, n, x, content) {
      CheckedIsArchive(lib, wheel, file, e, info, n, x, content);
    }
  }

  /** Where everything lies in a file that is read: the directory ends at its record, the record with its comment
      ends the file, and the local header, name and data end before the directory starts. */
  lemma Geometry(lib: Libraries, wheel: bool, file: Bytes, e: nat, info: Entry, n: nat, x: nat, content: Bytes)
    requires Checked(lib, wheel, file, e, info, n, x, content)
    ensures var f := Unpack(file[e..]);
            var o := info.headerOffset + f.offset;
            && TailOffset(|file|) <= e
            && f.offset + f.size == e
            && e + END_SIZE + f.comment == |file|
            && 0 <= o < o + LOCAL_SIZE + n + x + info.compressSize <= f.offset
            && |content| == info.fileSize <= METADATA_LIMIT
  {
    EndInWindow(file, e);
  }

  lemma EndInWindow(file: Bytes, e: nat)
    requires EndOk(file, e)
    ensures TailOffset(|file|) <= e
  {
    UnpackLengths(file[e..], Unpack(file[e..]));
  }

  /** A legal archive the reader misses: a comment that ends in the signature hides the record before it. */
  lemma CommentHidesRecord(lib: Libraries, wheel: bool, a: Archive, content: Bytes)
    requires a.WellFormed() && |a.comment| >= 4 && a.comment[|a.comment| - 4..] == END_SIGNATURE
    ensures !HasMetadata(lib, wheel, a.Written(), content)
  {
    var file := a.Written();
    assert a.End()[END_SIZE..] == a.comment;
    var at := |file| - 4;
    assert file[at..] == a.comment[|a.comment| - 4..];
    assert Occurs(file, at);
    CheckedIff(lib, wheel, file, content);
    if e: nat, info, n: nat, x: nat :| Checked(lib, wheel, file, e, info, n, x, content) {
      assert false;
    }
  }

  /** A written archive is the slices of its file. */
  lemma ArchiveIsSliced(a: Archive, f: EndFields)
    requires a.WellFormed() && f.offset == |a.Files()| && f.entries == a.entries
    requires LocalOk(a.Written(), |a.before|, |a.name|, |a.extra|, |a.data|, f.offset)
    ensures a == Sliced(a.Written(), a.EndAt(), f, |a.before|, |a.name|, |a.extra|, |a.data|)
  {
    OuterParts(a);
    MiddlePart(a);
    InnerParts(a);
    ArchiveMember(a);
  }

  lemma OuterParts(a: Archive)
    requires a.WellFormed()
    ensures
      var file := a.Written();
      && file[..|a.before|] == a.before
      && file[|a.Files()|..a.EndAt()] == a.directory
      && a.EndAt() + END_SIZE <= |file| && file[a.EndAt() + END_SIZE..] == a.comment
  {
    var file := a.Written();
    WrittenAround(a);
    assert file[a.EndAt()..] == a.End();
    assert file[a.EndAt() + END_SIZE..] == a.End()[END_SIZE..] == a.comment;
  }

  lemma MiddlePart(a: Archive)
    requires a.WellFormed()
    ensures |a.before| + 26 <= |a.Written()| && a.Written()[|a.before| + 4..|a.before| + 26] == a.middle
  {
    var h := LocalHeader(a.middle, |a.name|, |a.extra|);
    WrittenAround(a);
    Regroup(a.before, h, a.name, a.extra, a.data, Rest(a));
    Middle(a.Written(), a.before, h, a.name + a.extra + a.data + Rest(a));
    HeaderAt(a.Written(), |a.before|, h);
    assert h[4..26] == a.middle;
  }

  lemma InnerParts(a: Archive)
    requires a.WellFormed()
    ensures
      var file := a.Written();
      var x := |a.before| + LOCAL_SIZE + |a.name|;
      var start := x + |a.extra|;
      && start + |a.data| <= |a.Files()| <= |file|
      && file[x..start] == a.extra
      && file[start + |a.data|..|a.Files()|] == a.between
  {
    var head := a.before + LocalHeader(a.middle, |a.name|, |a.extra|) + a.name;
    FilesSize(a);
    WrittenFromExtra(a);
    ExtraAndRest(head, a.extra, a.data, a.between, a.directory + a.End(), a.Written());
  }

  lemma WrittenFromExtra(a: Archive)
    requires a.WellFormed()
    ensures a.Written() == a.before + LocalHeader(a.middle, |a.name|, |a.extra|) + a.name
                           + (a.extra + a.data + (a.between + (a.directory + a.End())))
  {
    var h := LocalHeader(a.middle, |a.name|, |a.extra|);
    WrittenAround(a);
    Regroup(a.before, h, a.name, a.extra, a.data, Rest(a));
    assert a.between + a.directory + a.End() == a.between + (a.directory + a.End());
  }

  lemma ExtraAndRest(head: Bytes, extra: Bytes, data: Bytes, between: Bytes, tail: Bytes, file: Bytes)
    requires file == head + (extra + data + (between + tail))
    ensures file[|head|..|head| + |extra|] == extra
    ensures var k := |head| + |extra| + |data|; file[k..k + |between|] == between
  {
    assert file == head + extra + (data + (between + tail));
    Middle(file, head, extra, data + (between + tail));
    assert file == (head + extra + data) + between + tail;
    Middle(file, head + extra + data, between, tail);
  }

  /** A file is read in at most one way: the archive it is, its member and its content are determined. */
  lemma ArchiveUnique(
    lib: Libraries, wheel: bool, file: Bytes, a: Archive, info: Entry, content: Bytes,
    b: Archive, info': Entry, content': Bytes)
    requires IsMetadata(lib, wheel, file, a, info, content) && IsMetadata(lib, wheel, file, b, info', content')
    ensures a == b && info == info' && content == content'
  {
    ArchiveIsChecked(lib, wheel, file, a, info, content);
    ArchiveIsChecked(lib, wheel, file, b, info', content');
    CheckedUnique(lib, wheel, file, a.EndAt(), info, |a.name|, |a.extra|, content,
                  b.EndAt(), info', |b.name|, |b.extra|, content');
    EndDetermines(a, b);
    var f := Unpack(a.End());
    ArchiveHeader(a);
    ArchiveHeader(b);
    ArchiveIsSliced(a, f);
    ArchiveIsSliced(b, f);
  }

  /** Archives that are the same file with the same end record agree on what the record says. */
  lemma EndDetermines(a: Archive, b: Archive)
    requires a.WellFormed() && b.WellFormed() && a.Written() == b.Written() && a.EndAt() == b.EndAt()
    ensures a.End() == b.End() && |a.Files()| == |b.Files()| && a.entries == b.entries
    ensures Unpack(a.End()).offset == |a.Files()| && Unpack(a.End()).entries == a.entries
  {
    assert a.Written()[a.EndAt()..] == a.End();
    assert b.Written()[b.EndAt()..] == b.End();
    FilesSize(a);
    FilesSize(b);
    UnpackWritten(a.entries, |a.directory|, |a.Files()|, a.comment);
    UnpackWritten(b.entries, |b.directory|, |b.Files()|, b.comment);
  }

  lemma FilesSize(a: Archive)
    requires a.WellFormed()
    ensures |a.Files()| == |a.before| + LOCAL_SIZE + |a.name| + |a.extra| + |a.data| + |a.between| < 0x1_0000_0000
  {
  }
}
