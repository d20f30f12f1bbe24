/** What a source distribution is, as a whole: the layout of a tar archive with one top-level
    `PKG-INFO`, independent of how the scanner gets there. The scanner accepts exactly these archives. */
module SourceArchive {
  import opened Prelude
  import opened TarScanner

  /** One member: header block, content, and zero or more padding bytes of any value. */
  datatype Entry = Entry(header: Bytes, content: Bytes, pad: Bytes)

  datatype Layout = Layout(entries: seq<Entry>, zeros: nat, residue: Bytes)

  function EntryBytes(e: Entry): Bytes {
    e.header + (e.content + e.pad)
  }

  function EntriesBytes(entries: seq<Entry>): Bytes {
    if entries == [] then [] else EntryBytes(entries[0]) + EntriesBytes(entries[1..])
  }

  function LayoutBytes(l: Layout): Bytes {
    EntriesBytes(l.entries) + (Zeros(BLOCK * l.zeros) + l.residue)
  }

  predicate EntryFits(d: Decoder, e: Entry) {
    && |e.header| == BLOCK
    && e.header != Zeros(BLOCK)
    && d(e.header).Some?
    && d(e.header).value.size == |e.content|
    && |e.pad| == Padding(|e.content|)
  }

  predicate IsCandidate(d: Decoder, e: Entry) {
    d(e.header).Some? && IsMetadataName(d(e.header).value.name)
  }

  predicate IsMetadata(d: Decoder, e: Entry) {
    && IsCandidate(d, e)
    && d(e.header).value.regular
    && 0 < |e.content| <= METADATA_LIMIT
  }

  /** Members, then at least one zero block, then only zero blocks and less than a block of anything. */
  ghost predicate IsLayoutOf(d: Decoder, l: Layout, stream: Bytes) {
    && stream == LayoutBytes(l)
    && (forall e | e in l.entries :: EntryFits(d, e))
    && l.zeros >= 1
    && |l.residue| < BLOCK
  }

  /** Entry `i` is the only one named like metadata, and it is acceptable metadata. */
  ghost predicate IsSoleMetadata(d: Decoder, entries: seq<Entry>, i: nat) {
    && i < |entries|
    && IsMetadata(d, entries[i])
    && forall j | 0 <= j < |entries| && j != i :: !IsCandidate(d, entries[j])
  }

  ghost predicate IsSourceArchive(d: Decoder, stream: Bytes, l: Layout, i: nat, content: Bytes) {
    && IsLayoutOf(d, l, stream)
    && IsSoleMetadata(d, l.entries, i)
    && content == l.entries[i].content
  }

  /** The acceptance test applied to the scanner once the stream is exhausted. */
  function Conclude(r: Result<Scan, ScanError>): Option<Bytes> {
    match r
    case Failure(_) => None
    case Success(s) =>
      if s.remaining > 0 || !s.ended then None else s.metadata
  }

  function Inspect(d: Decoder, stream: Bytes): Option<Bytes> {
    Conclude(Absorb(d, INITIAL, stream))
  }

  // ---------- the metadata a list of entries yields, threaded left to right ----------

  /** Scanning `entries` in order turns metadata `before` into `after` without an error. */
  ghost predicate Yields(d: Decoder, entries: seq<Entry>, before: Option<Bytes>, after: Option<Bytes>) {
    if entries == [] then before == after
    else if IsCandidate(d, entries[0]) then
      before.None? && IsMetadata(d, entries[0]) && Yields(d, entries[1..], Some(entries[0].content), after)
    else Yields(d, entries[1..], before, after)
  }

  lemma {:induction false} YieldsNothingMore(d: Decoder, entries: seq<Entry>, c: Bytes, after: Option<Bytes>)
    ensures Yields(d, entries, Some(c), after) <==>
            after == Some(c) && forall e | e in entries :: !IsCandidate(d, e)
  {
    if entries != [] {
      YieldsNothingMore(d, entries[1..], c, after);
      assert entries == [entries[0]] + entries[1..];
    }
  }

  lemma {:induction false} YieldsSole(d: Decoder, entries: seq<Entry>, content: Bytes)
    ensures Yields(d, entries, None, Some(content)) <==>
            exists i: nat :: IsSoleMetadata(d, entries, i) && content == entries[i].content
  {
    if entries != [] {
      var rest := entries[1..];
      if IsCandidate(d, entries[0]) {
        YieldsNothingMore(d, rest, entries[0].content, Some(content));
        if Yields(d, entries, None, Some(content)) {
          assert forall j | 1 <= j < |entries| :: entries[j] == rest[j - 1] && rest[j - 1] in rest;
          assert IsSoleMetadata(d, entries, 0);
        }
        if i: nat :| IsSoleMetadata(d, entries, i) && content == entries[i].content {
          assert i == 0;
          forall e | e in rest ensures !IsCandidate(d, e) {
            var j :| 0 <= j < |rest| && rest[j] == e;
            assert entries[j + 1] == e;
          }
        }
      } else {
        YieldsSole(d, rest, content);
        if i: nat :| IsSoleMetadata(d, rest, i) && content == rest[i].content {
          forall j | 0 <= j < |entries| && j != i + 1 ensures !IsCandidate(d, entries[j]) {
            assert j > 0 ==> entries[j] == rest[j - 1];
          }
          assert IsSoleMetadata(d, entries, i + 1);
        }
        if i: nat :| IsSoleMetadata(d, entries, i) && content == entries[i].content {
          assert i > 0;
          forall j | 0 <= j < |rest| && j != i - 1 ensures !IsCandidate(d, rest[j]) {
            assert entries[j + 1] == rest[j];
          }
          assert IsSoleMetadata(d, rest, i - 1);
        }
      }
    }
  }

  // ---------- the scanner at member boundaries ----------

  /** A scanner that stands between members and has found `metadata` so far. */
  predicate AtBoundary(s: Scan, metadata: Option<Bytes>) {
    && s.buffer == [] && s.remaining == 0 && s.padding == 0 && !s.ended
    && s.metadata == metadata
  }

  /** Scanning one whole member, from boundary to boundary. */
  lemma AbsorbEntry(d: Decoder, s: Scan, e: Entry, before: Option<Bytes>)
    requires AtBoundary(s, before) && EntryFits(d, e)
    requires IsCandidate(d, e) ==> before.None? && IsMetadata(d, e)
    ensures
      var r := Absorb(d, s, EntryBytes(e));
      r.Success? && AtBoundary(r.value, if IsCandidate(d, e) then Some(e.content) else before)
  {
    AbsorbHeader(d, s, e.header);
    var began := OpenMember(d, s, e.header).value;
    AbsorbSplit(d, s, e.header, e.content + e.pad);
    AbsorbContent(d, began, e.content);
    AbsorbSplit(d, began, e.content, e.pad);
    var read := AfterContent(began, e.content);
    AbsorbPadding(d, read, e.pad);
    assert began.member + e.content == e.content;
  }

  lemma {:induction false} AbsorbEntries(
      d: Decoder, s: Scan, entries: seq<Entry>, before: Option<Bytes>, after: Option<Bytes>)
    requires AtBoundary(s, before)
    requires forall e | e in entries :: EntryFits(d, e)
    requires Yields(d, entries, before, after)
    ensures
      var r := Absorb(d, s, EntriesBytes(entries));
      r.Success? && AtBoundary(r.value, after)
    decreases entries
  {
    if entries != [] {
      var next := if IsCandidate(d, entries[0]) then Some(entries[0].content) else before;
      AbsorbEntry(d, s, entries[0], before);
      AbsorbSplit(d, s, EntryBytes(entries[0]), EntriesBytes(entries[1..]));
      AbsorbEntries(d, Absorb(d, s, EntryBytes(entries[0])).value, entries[1..], next, after);
    }
  }

  /** Once the end marker has been read, only zero blocks keep the scan alive. */
  lemma {:induction false} AbsorbZeros(d: Decoder, s: Scan, zeros: nat, residue: Bytes)
    requires s.buffer == [] && s.remaining == 0 && s.padding == 0 && |residue| < BLOCK
    ensures Absorb(d, s, Zeros(BLOCK * zeros) + residue) ==
            Success(s.(ended := s.ended || zeros > 0, buffer := residue))
    decreases zeros
  {
    var tail := Zeros(BLOCK * zeros) + residue;
    if zeros == 0 {
      assert tail == residue && [] + residue == residue;
      AbsorbPartial(d, s, residue);
    } else {
      TakeHeader(d, s, tail);
      assert tail[..BLOCK] == Zeros(BLOCK);
      assert tail[BLOCK..] == Zeros(BLOCK * (zeros - 1)) + residue;
      AbsorbZeros(d, s.(ended := true), zeros - 1, residue);
    }
  }

  /** Conversely, an accepted rest of the stream after the end marker is zero blocks and a residue. */
  lemma {:induction false} ZerosOfAccepted(d: Decoder, s: Scan, data: Bytes) returns (zeros: nat, residue: Bytes)
    requires s.buffer == [] && s.remaining == 0 && s.padding == 0 && s.ended
    requires Absorb(d, s, data).Success?
    ensures data == Zeros(BLOCK * zeros) + residue && |residue| < BLOCK
    decreases data
  {
    if |data| < BLOCK {
      zeros, residue := 0, data;
    } else {
      TakeHeader(d, s, data);
      assert data[..BLOCK] == Zeros(BLOCK);
      zeros, residue := ZerosOfAccepted(d, s, data[BLOCK..]);
      zeros := zeros + 1;
      assert data == data[..BLOCK] + data[BLOCK..];
    }
  }

  lemma EndLayout(d: Decoder, zeros: nat, residue: Bytes)
    requires |residue| < BLOCK
    ensures IsLayoutOf(d, Layout([], zeros + 1, residue), Zeros(BLOCK) + (Zeros(BLOCK * zeros) + residue))
  {
    assert Zeros(BLOCK * (zeros + 1)) == Zeros(BLOCK) + Zeros(BLOCK * zeros);
    assert LayoutBytes(Layout([], zeros + 1, residue)) == Zeros(BLOCK) + (Zeros(BLOCK * zeros) + residue);
  }

  lemma Prepend(d: Decoder, e: Entry, tail: Layout, rest: Bytes) returns (l: Layout)
    requires EntryFits(d, e) && IsLayoutOf(d, tail, rest)
    ensures IsLayoutOf(d, l, EntryBytes(e) + rest)
    ensures l.entries != [] && l.entries[0] == e && l.entries[1..] == tail.entries
  {
    l := Layout([e] + tail.entries, tail.zeros, tail.residue);
    assert l.entries[0] == e && l.entries[1..] == tail.entries;
    assert LayoutBytes(l) == EntryBytes(e) + LayoutBytes(tail);
  }

  /** An accepted stream is cut into entries by following the scanner. */
  lemma {:induction false} LayoutOfAccepted(d: Decoder, s: Scan, data: Bytes, before: Option<Bytes>)
    returns (l: Layout)
    requires AtBoundary(s, before) && Absorb(d, s, data).Success?
    requires Absorb(d, s, data).value.ended
    ensures IsLayoutOf(d, l, data)
    ensures Yields(d, l.entries, before, Absorb(d, s, data).value.metadata)
    decreases data
  {
    if |data| < BLOCK {
      AbsorbPartial(d, s, data);
      assert false;
    } else {
      var header, rest := data[..BLOCK], data[BLOCK..];
      TakeHeader(d, s, data);
      assert data == header + rest;
      var began := OpenMember(d, s, header).value;
      if header == Zeros(BLOCK) {
        var zeros, residue := ZerosOfAccepted(d, began, rest);
        AbsorbZeros(d, began, zeros, residue);
        l := Layout([], zeros + 1, residue);
        EndLayout(d, zeros, residue);
      } else {
        var e := CutEntry(d, s, header, rest, before);
        var size := |e.content| + |e.pad|;
        AbsorbEntry(d, s, e, before);
        var next := if IsCandidate(d, e) then Some(e.content) else before;
        assert data == EntryBytes(e) + rest[size..];
        AbsorbSplit(d, s, EntryBytes(e), rest[size..]);
        var tail := LayoutOfAccepted(d, Absorb(d, s, EntryBytes(e)).value, rest[size..], next);
        l := Prepend(d, e, tail, rest[size..]);
      }
    }
  }

  /** A stream accepted after opening a member holds all of the member and its padding. */
  lemma CutEntry(d: Decoder, s: Scan, header: Bytes, rest: Bytes, before: Option<Bytes>) returns (e: Entry)
    requires AtBoundary(s, before) && |header| == BLOCK && header != Zeros(BLOCK)
    requires OpenMember(d, s, header).Success?
    requires
      var r := Absorb(d, OpenMember(d, s, header).value, rest);
      r.Success? && r.value.ended
    ensures EntryFits(d, e) && e.header == header
    ensures |e.content| + |e.pad| <= |rest| && e.content + e.pad == rest[..|e.content| + |e.pad|]
    ensures IsCandidate(d, e) ==> before.None? && IsMetadata(d, e)
  {
    var began := OpenMember(d, s, header).value;
    var size, padding := began.remaining, began.padding;
    if |rest| < size {
      AbsorbContent(d, began, rest);
      assert false;
    } else {
      TakeContent(d, began, rest, size);
      var read := AfterContent(began, rest[..size]);
      if |rest| - size < padding {
        AbsorbPadding(d, read, rest[size..]);
        assert false;
      } else {
        e := Entry(header, rest[..size], rest[size..size + padding]);
        assert e.content + e.pad == rest[..size + padding];
      }
    }
  }

  // ---------- the main theorem ----------

  /** A stream is accepted with `content` exactly when it is a source archive whose metadata is `content`. */
  lemma AcceptsIffSourceArchive(d: Decoder, stream: Bytes, content: Bytes)
    ensures Inspect(d, stream) == Some(content) <==>
            exists l: Layout, i: nat :: IsSourceArchive(d, stream, l, i, content)
  {
    if Inspect(d, stream) == Some(content) {
      var l := LayoutOfAccepted(d, INITIAL, stream, None);
      YieldsSole(d, l.entries, content);
      var i: nat :| IsSoleMetadata(d, l.entries, i) && content == l.entries[i].content;
      assert IsSourceArchive(d, stream, l, i, content);
    }
    if l: Layout, i: nat :| IsSourceArchive(d, stream, l, i, content) {
      YieldsSole(d, l.entries, content);
      var tail := Zeros(BLOCK * l.zeros) + l.residue;
      AbsorbEntries(d, INITIAL, l.entries, None, Some(content));
      AbsorbSplit(d, INITIAL, EntriesBytes(l.entries), tail);
      AbsorbZeros(d, Absorb(d, INITIAL, EntriesBytes(l.entries)).value, l.zeros, l.residue);
    }
  }

  /** The layout is determined by the bytes: no stream can be read as two different archives. */
  lemma {:induction false} LayoutUnique(d: Decoder, stream: Bytes, l: Layout, m: Layout)
    requires IsLayoutOf(d, l, stream) && IsLayoutOf(d, m, stream)
    ensures l == m
    decreases |l.entries|
  {
    var lTail, mTail := Zeros(BLOCK * l.zeros) + l.residue, Zeros(BLOCK * m.zeros) + m.residue;
    if l.entries == [] && m.entries == [] {
      assert stream == lTail && stream == mTail;
      assert l.zeros == m.zeros by {
        assert |stream| == BLOCK * l.zeros + |l.residue| == BLOCK * m.zeros + |m.residue|;
      }
      assert l.residue == stream[BLOCK * l.zeros..] == m.residue;
    } else if l.entries == [] {
      HeadOf(d, stream, m);
      ZeroHead(d, stream, l);
      assert false;
    } else if m.entries == [] {
      HeadOf(d, stream, l);
      ZeroHead(d, stream, m);
      assert false;
    } else {
      HeadOf(d, stream, l);
      HeadOf(d, stream, m);
      var e, f := l.entries[0], m.entries[0];
      var size := |e.content| + |e.pad|;
      assert e.content == stream[BLOCK..BLOCK + |e.content|] == f.content;
      assert e.pad == stream[BLOCK + |e.content|..BLOCK + size] == f.pad;
      LayoutUnique(d, stream[BLOCK + size..], l.(entries := l.entries[1..]), m.(entries := m.entries[1..]));
      assert l.entries == [e] + l.entries[1..] && m.entries == [f] + m.entries[1..];
    }
  }

  lemma ZeroHead(d: Decoder, stream: Bytes, l: Layout)
    requires IsLayoutOf(d, l, stream) && l.entries == []
    ensures |stream| >= BLOCK && stream[..BLOCK] == Zeros(BLOCK)
  {
    assert stream == Zeros(BLOCK * l.zeros) + l.residue;
  }

  lemma HeadOf(d: Decoder, stream: Bytes, l: Layout)
    requires IsLayoutOf(d, l, stream) && l.entries != []
    ensures
      var e := l.entries[0];
      var size := BLOCK + |e.content| + |e.pad|;
      && size <= |stream|
      && EntryFits(d, e)
      && stream[..BLOCK] == e.header
      && stream[BLOCK..BLOCK + |e.content|] == e.content
      && stream[BLOCK + |e.content|..size] == e.pad
      && IsLayoutOf(d, l.(entries := l.entries[1..]), stream[size..])
  {
    var e := l.entries[0];
    var tail := l.(entries := l.entries[1..]);
    assert e in l.entries;
    assert stream == EntryBytes(e) + LayoutBytes(tail);
    Slices(stream, e.header, e.content, e.pad, LayoutBytes(tail));
  }

  lemma Slices(s: Bytes, a: Bytes, b: Bytes, c: Bytes, rest: Bytes)
    requires s == a + b + c + rest
    ensures s[..|a|] == a && s[|a|..|a| + |b|] == b && s[|a| + |b|..|a| + |b| + |c|] == c
    ensures s[|a| + |b| + |c|..] == rest
  {
  }
  // ---------- the same in terms of names ----------

  /** A file named `PKG-INFO` in some directory at the top. */
  ghost predicate IsTopLevel(name: string) {
    exists dir: string :: '/' !in dir && name == dir + "/PKG-INFO"
  }

  lemma TopLevelIff(name: string)
    ensures IsMetadataName(name) <==> IsTopLevel(name)
  {
    if IsMetadataName(name) {
      var dir := name[..|name| - 9];
      assert name == dir + "/PKG-INFO";
    }
    if dir: string :| '/' !in dir && name == dir + "/PKG-INFO" {
      assert name[|name| - 9..] == "/PKG-INFO" && name[..|name| - 9] == dir;
    }
  }

  ghost predicate NamedTopLevel(d: Decoder, e: Entry) {
    d(e.header).Some? && IsTopLevel(d(e.header).value.name)
  }

  /** An archive is accepted with `content` exactly if one member is named `<dir>/PKG-INFO`, with no slash in `<dir>`, is
      a regular file of 1 byte to 1 MiB and holds `content`, and no other member has a name of that form; members named
      deeper do not matter. */
  lemma NamesDecide(d: Decoder, stream: Bytes, l: Layout, content: Bytes)
    requires IsLayoutOf(d, l, stream)
    ensures Inspect(d, stream) == Some(content) <==>
            exists i: nat ::
              && i < |l.entries| && NamedTopLevel(d, l.entries[i])
              && (forall j | 0 <= j < |l.entries| && NamedTopLevel(d, l.entries[j]) :: j == i)
              && d(l.entries[i].header).value.regular
              && 1 <= |l.entries[i].content| <= 1_048_576
              && l.entries[i].content == content
  {
    AcceptsIffSourceArchive(d, stream, content);
    forall e: Entry ensures IsCandidate(d, e) <==> NamedTopLevel(d, e) {
      if d(e.header).Some? {
        TopLevelIff(d(e.header).value.name);
      }
    }
    if Inspect(d, stream) == Some(content) {
      var m: Layout, i: nat :| IsSourceArchive(d, stream, m, i, content);
      LayoutUnique(d, stream, l, m);
      assert NamedTopLevel(d, l.entries[i]);
    }
    if i: nat :| && i < |l.entries| && NamedTopLevel(d, l.entries[i])
                 && (forall j | 0 <= j < |l.entries| && NamedTopLevel(d, l.entries[j]) :: j == i)
                 && d(l.entries[i].header).value.regular
                 && 1 <= |l.entries[i].content| <= 1_048_576
                 && l.entries[i].content == content {
      assert IsSoleMetadata(d, l.entries, i);
      assert IsSourceArchive(d, stream, l, i, content);
    }
  }

  /** Without a member of that name there is no metadata. */
  lemma NoNameNoMetadata(d: Decoder, stream: Bytes, l: Layout)
    requires IsLayoutOf(d, l, stream) && forall e | e in l.entries :: !NamedTopLevel(d, e)
    ensures Inspect(d, stream).None?
  {
    assert forall i | 0 <= i < |l.entries| :: l.entries[i] in l.entries;
    if Inspect(d, stream).Some? {
      NamesDecide(d, stream, l, Inspect(d, stream).value);
    }
  }
}
