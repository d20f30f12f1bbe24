/** `_register_and_rewrite` of src/wheelguard/cloudflare_index.py: a listing upserts one row per artifact and one per
    metadata sidecar, under folded digest and file name. Of several records with one key the last one stays, and the
    gate decides a link by that row. */
module Registration {
  import opened Prelude
  import opened ReleasePolicy
  import opened Vulnerabilities
  import opened DownloadGate
  import AdvisoryCache

  const BATCH: nat := 500

  type RowKey = (string, string)  // primary key of artifacts: digest and file name

  type Table = map<RowKey, Row>

  /** How records are made: file name parsing, case folding, and the checks of URL, name, digest and size. */
  datatype Registrar = Registrar(parsing: Parsing, fold: string -> string, safe: File -> bool, project: string)

  function KeyOfRow(row: Row): RowKey {
    (row.sha256, row.filename)
  }

  /** Files that are registered; all others are dropped from the listing. */
  predicate IsRegistered(g: Registrar, f: File) {
    f.Dict? && f.filename.Some? && f.sha256.Some? && g.safe(f)
  }

  function OwnRow(g: Registrar, f: File): Row
    requires IsRegistered(g, f)
  {
    ArtifactRow(g.parsing, g.fold, g.project, f)
  }

  function SidecarRow(g: Registrar, f: File): Row
    requires IsRegistered(g, f) && f.metadata.Some?
  {
    MetadataRow(g.parsing, g.fold, g.project, f)
  }

  function Records(g: Registrar, f: File): seq<Row> {
    if !IsRegistered(g, f) then []
    else [OwnRow(g, f)] + if f.metadata.Some? then [SidecarRow(g, f)] else []
  }

  function RecordsOf(g: Registrar, files: seq<File>): seq<Row> {
    if files == [] then []
    else RecordsOf(g, files[..|files| - 1]) + Records(g, files[|files| - 1])
  }

  /** Upserting records one after the other. */
  function Upserted(table: Table, records: seq<Row>): Table {
    if records == [] then table
    else
      var last := records[|records| - 1];
      Upserted(table, records[..|records| - 1])[KeyOfRow(last) := last]
  }

  // ---------- _register_and_rewrite ----------

  lemma UpsertedSnoc(table: Table, records: seq<Row>, i: nat)
    requires i < |records|
    ensures Upserted(table, records[..i + 1]) == Upserted(table, records[..i])[KeyOfRow(records[i]) := records[i]]
  {
    assert records[..i + 1][..i] == records[..i];
  }

  /** Upserting in batches is upserting. */
  lemma {:induction false} UpsertedAppend(table: Table, a: seq<Row>, b: seq<Row>)
    ensures Upserted(table, a + b) == Upserted(Upserted(table, a), b)
  {
    if b == [] {
      assert a + b == a;
    } else {
      var n := |b| - 1;
      assert (a + b)[..|a + b| - 1] == a + b[..n];
      UpsertedAppend(table, a, b[..n]);
    }
  }

  class ArtifactTable {
    var rows: Table

    constructor ()
      ensures rows == map[]
    {
      rows := map[];
    }

    /** One statement: a row that is not there is inserted, one that differs is updated. */
    method RegisterRecords(batch: seq<Row>)
      modifies this
      ensures rows == Upserted(old(rows), batch)
    {
      for i := 0 to |batch|
        invariant rows == Upserted(old(rows), batch[..i])
      {
        UpsertedSnoc(old(rows), batch, i);
        var key := KeyOfRow(batch[i]);
        if key !in rows || rows[key] != batch[i] {
          rows := rows[key := batch[i]];
        }
      }
      assert batch[..|batch|] == batch;
    }

    /** Records, in batches of 500. */
    method RegisterAll(records: seq<Row>)
      modifies this
      ensures rows == Upserted(old(rows), records)
    {
      var start := 0;
      while start < |records|
        invariant 0 <= start
        invariant rows == Upserted(old(rows), records[..Min(start, |records|)])
      {
        var end := Min(start + BATCH, |records|);
        UpsertedAppend(old(rows), records[..start], records[start..end]);
        assert records[..start] + records[start..end] == records[..end];
        RegisterRecords(records[start..end]);
        start := start + BATCH;
      }
      assert records[..|records|] == records;
    }

    /** The records of all listed files are registered, in order; the files kept are those that pass the checks. */
    method RegisterAndRewrite(g: Registrar, files: seq<File>) returns (visible: seq<File>)
      modifies this
      ensures rows == Upserted(old(rows), RecordsOf(g, files))
      ensures visible == Filter(files, f => IsRegistered(g, f))
      ensures forall f :: f in visible <==> f in files && f.Dict? && f.filename.Some? && f.sha256.Some? && g.safe(f)
    {
      var records: seq<Row> := [];
      visible := [];
      for i := 0 to |files|
        invariant rows == old(rows)
        invariant records == RecordsOf(g, files[..i])
        invariant visible == Filter(files[..i], f => IsRegistered(g, f))
        invariant forall f :: f in visible <==> f in files[..i] && IsRegistered(g, f)
      {
        assert files[..i + 1] == files[..i] + [files[i]];
        FilterSnoc(files, i, f => IsRegistered(g, f));
        RecordsSnoc(g, files, i);
        var file := files[i];
        if IsRegistered(g, file) {
          visible := visible + [file];
          records := records + [OwnRow(g, file)];
          if file.metadata.Some? {
            records := records + [SidecarRow(g, file)];
          }
        }
      }
      assert files[..|files|] == files;
      RegisterAll(records);
    }
  }

  lemma RecordsSnoc(g: Registrar, files: seq<File>, i: nat)
    requires i < |files|
    ensures
      var (before, f) := (RecordsOf(g, files[..i]), files[i]);
      RecordsOf(g, files[..i + 1]) ==
      if !IsRegistered(g, f) then before
      else if f.metadata.Some? then before + [OwnRow(g, f)] + [SidecarRow(g, f)]
      else before + [OwnRow(g, f)]
  {
    assert files[..i + 1][..i] == files[..i];
  }

  // ---------- which record stays ----------

  predicate Has(records: seq<Row>, key: RowKey) {
    exists r :: r in records && KeyOfRow(r) == key
  }

  /** Of the records with one key the last stays. */
  lemma {:induction false} LastStays(table: Table, records: seq<Row>, j: nat)
    requires j < |records| && forall k | j < k < |records| :: KeyOfRow(records[k]) != KeyOfRow(records[j])
    ensures KeyOfRow(records[j]) in Upserted(table, records)
    ensures Upserted(table, records)[KeyOfRow(records[j])] == records[j]
  {
    var n := |records| - 1;
    if j < n {
      assert forall k | 0 <= k < n :: records[..n][k] == records[k];
      LastStays(table, records[..n], j);
    }
  }

  /** A row is one of the records with its key, if there are any, and otherwise what it was. */
  lemma {:induction false} StaysAmong(table: Table, records: seq<Row>, key: RowKey)
    ensures
      var t := Upserted(table, records);
      if Has(records, key) then key in t && t[key] in records && KeyOfRow(t[key]) == key
      else (key in t <==> key in table) && (key in t ==> t[key] == table[key])
  {
    if records != [] {
      var n := |records| - 1;
      assert records == records[..n] + [records[n]];
      StaysAmong(table, records[..n], key);
      if Has(records[..n], key) {
        var r :| r in records[..n] && KeyOfRow(r) == key;
        assert r in records;
      }
      assert records[n] in records;
    }
  }

  /** Every record is made from some file. */
  ghost predicate MadeFrom(g: Registrar, f: File, r: Row) {
    IsRegistered(g, f) && (r == OwnRow(g, f) || (f.metadata.Some? && r == SidecarRow(g, f)))
  }

  lemma {:induction false} RecordsAreMade(g: Registrar, files: seq<File>, r: Row)
    ensures r in RecordsOf(g, files) <==> exists f :: f in files && MadeFrom(g, f, r)
  {
    if files != [] {
      var n := |files| - 1;
      assert files == files[..n] + [files[n]];
      RecordsAreMade(g, files[..n], r);
      assert r in Records(g, files[n]) <==> MadeFrom(g, files[n], r);
    }
  }

  /** No row is written for a file that fails the checks. */
  lemma RowsAreOfCheckedFiles(g: Registrar, files: seq<File>, r: Row)
    requires r in RecordsOf(g, files)
    ensures exists f ::
              && f in files && f.Dict? && f.filename.Some? && f.sha256.Some? && g.safe(f)
              && r.sha256 == g.fold(f.sha256.value)
              && r.filename in {f.filename.value, f.filename.value + ".metadata"}
  {
    RecordsAreMade(g, files, r);
    var f :| f in files && MadeFrom(g, f, r);
  }

  /** The table after a listing. */
  function Registered(g: Registrar, before: Table, files: seq<File>): Table {
    Upserted(before, RecordsOf(g, files))
  }

  /** The row stored under the key of a record of a listed file was made from a listed file. */
  lemma StoredIsMade(g: Registrar, before: Table, files: seq<File>, f: File, r: Row) returns (h: File)
    requires f in files && MadeFrom(g, f, r)
    ensures
      var t := Registered(g, before, files);
      KeyOfRow(r) in t && h in files && MadeFrom(g, h, t[KeyOfRow(r)]) && KeyOfRow(t[KeyOfRow(r)]) == KeyOfRow(r)
  {
    var records := RecordsOf(g, files);
    RecordsAreMade(g, files, r);
    assert Has(records, KeyOfRow(r));
    StaysAmong(before, records, KeyOfRow(r));
    var stored := Registered(g, before, files)[KeyOfRow(r)];
    RecordsAreMade(g, files, stored);
    h :| h in files && MadeFrom(g, h, stored);
  }

  /** A sidecar of some listed file has this key. */
  ghost predicate TakenBySidecar(g: Registrar, files: seq<File>, key: RowKey) {
    exists h :: h in files && IsRegistered(g, h) && h.metadata.Some? && KeyOfRow(SidecarRow(g, h)) == key
  }

  /** The row of an artifact is its own, unless a sidecar takes its key: all records of one artifact coincide. */
  lemma ArtifactStored(g: Registrar, before: Table, files: seq<File>, f: File)
    requires f in files && IsRegistered(g, f) && !TakenBySidecar(g, files, KeyOfRow(OwnRow(g, f)))
    ensures
      var t := Registered(g, before, files);
      KeyOfRow(OwnRow(g, f)) in t && t[KeyOfRow(OwnRow(g, f))] == OwnRow(g, f)
  {
    var h := StoredIsMade(g, before, files, f, OwnRow(g, f));
  }

  /** What the row of an artifact says, field by field; its verification digest is its own folded digest. */
  lemma ArtifactFields(g: Registrar, before: Table, files: seq<File>, f: File)
    requires f in files && IsRegistered(g, f) && !TakenBySidecar(g, files, KeyOfRow(OwnRow(g, f)))
    ensures
      var (t, name, digest) := (Registered(g, before, files), f.filename.value, g.fold(f.sha256.value));
      var version := g.parsing.filename(name);
      && (digest, name) in t
      && t[(digest, name)].project == Some(g.project)
      && t[(digest, name)].version == (if version.Some? then Some(version.value.text) else None)
      && t[(digest, name)].filename == name
      && t[(digest, name)].sha256 == digest
      && t[(digest, name)].verification == Some(digest)
  {
    ArtifactStored(g, before, files, f);
  }

  /** The row of a sidecar has the artifact's digest, and to verify its bytes the metadata digest of a listed file of
      that name and digest; only a file named like the sidecar may have put its own row there, without a version. */
  lemma SidecarFields(g: Registrar, before: Table, files: seq<File>, f: File)
    requires SidecarsUnparsed(g.parsing) && f in files && IsRegistered(g, f) && f.metadata.Some?
    ensures
      var (t, name, digest) := (Registered(g, before, files), f.filename.value, g.fold(f.sha256.value));
      var key := (digest, name + ".metadata");
      && key in t
      && t[key].project == Some(g.project) && t[key].filename == name + ".metadata" && t[key].sha256 == digest
      && (|| (t[key].version.None? && t[key].verification == Some(digest))
          || exists h :: h in files && h.Dict? && h.filename == Some(name) && h.sha256.Some?
                         && g.fold(h.sha256.value) == digest && h.metadata.Some? && t[key].verification == h.metadata)
  {
    var h := StoredIsMade(g, before, files, f, SidecarRow(g, f));
    var row := Registered(g, before, files)[KeyOfRow(SidecarRow(g, f))];
    SidecarMade(g, f, h, row);
  }

  /** No sidecar takes the key of a file with a version. */
  lemma NotTaken(g: Registrar, files: seq<File>, f: File)
    requires SidecarsUnparsed(g.parsing) && IsRegistered(g, f) && VersionOf(g.parsing, f).Some?
    ensures !TakenBySidecar(g, files, KeyOfRow(OwnRow(g, f)))
  {
    forall h | h in files && IsRegistered(g, h) && h.metadata.Some? ensures KeyOfRow(SidecarRow(g, h)) != KeyOfRow(OwnRow(g, f)) {
      SidecarParent(h.filename.value);
    }
  }

  // ---------- links ----------

  /** The files of a listing, and the project at the instant it was rendered. */
  ghost predicate IsListing(
    i: Instant, versions: seq<string>, status: AdvisoryCache.Status, adv: Advisories, g: Registrar, files: seq<File>)
  {
    && OnlyAllowOrBlock(i.overrides) && SidecarsUnparsed(i.setting.parsing) && g.parsing == i.setting.parsing
    && IsEvaluated(i, versions, status, adv)
    && forall f | f in files :: ShownWith(i, adv, f)
  }

  /** The link of a registered file with a lower-case digest, by the row that is stored for it: it works exactly when
      the name is not claimed, its version parses, and the release is allowed or has a clean, strictly fresh scan. */
  lemma ListedLinkWorks(
    i: Instant, versions: seq<string>, status: AdvisoryCache.Status, adv: Advisories, g: Registrar,
    before: Table, files: seq<File>, f: File)
    requires IsListing(i, versions, status, adv, g, files)
    requires f in files && IsRegistered(g, f) && IsLinked(g.fold, f)
    requires !TakenBySidecar(g, files, KeyOfRow(OwnRow(g, f)))
    ensures
      var t := Registered(g, before, files);
      var key := KeyOfRow(OwnRow(g, f));
      key in t && (Permitted(i, t[key]) <==> LinkWorks(i, f))
  {
    ArtifactStored(g, before, files, f);
    RowLinkWorks(i, versions, status, adv, g.fold, g.project, f);
  }

  /** A file the gate's policy shows, of this name and digest, with this metadata digest. */
  ghost predicate ShowsSidecar(i: Instant, filename: string, digest: string, metadata: Option<string>) {
    exists h ::
      && ShownWith(i, GateAdvisories(i), h)
      && h.Dict? && h.filename == Some(filename) && h.sha256 == Some(digest) && h.metadata == metadata
  }

  /** The link of a metadata sidecar, by the row that is stored for it. Another file of the same name and digest may
      have taken over that row with its own metadata digest, and so may a file that is named like the sidecar, with no
      version. The link works exactly if the artifact's conditions hold, the row still carries the file's version,
      and, unless the release is allowed, a file is shown that has the folded digest and the metadata digest stored. */
  lemma SidecarLinkWorks(
    i: Instant, versions: seq<string>, status: AdvisoryCache.Status, adv: Advisories, g: Registrar,
    before: Table, files: seq<File>, f: File)
    requires IsListing(i, versions, status, adv, g, files)
    requires f in files && IsRegistered(g, f) && f.metadata.Some?
    ensures
      var t := Registered(g, before, files);
      var key := KeyOfRow(SidecarRow(g, f));
      && key in t
      && (Permitted(i, t[key]) <==>
            && LinkWorks(i, f)
            && t[key].version == FileText(g.parsing, f)
            && (|| OverrideOn(i, t[key].version.value) == Some(Allow)
                || ShowsSidecar(i, f.filename.value, g.fold(f.sha256.value), t[key].verification)))
  {
    var h := StoredIsMade(g, before, files, f, SidecarRow(g, f));
    var row := Registered(g, before, files)[KeyOfRow(SidecarRow(g, f))];
    SidecarParent(f.filename.value);
    SidecarMade(g, f, h, row);
    if VersionOf(g.parsing, f).Some? {
      ListedForGate(i, versions, status, adv, f);
      SidecarPermitted(i, row, f.filename.value, g.fold(f.sha256.value));
    }
  }

  /** The row of a sidecar comes from a file of the same name, or carries no version. */
  lemma SidecarMade(g: Registrar, f: File, h: File, row: Row)
    requires SidecarsUnparsed(g.parsing)
    requires IsRegistered(g, f) && f.metadata.Some? && KeyOfRow(row) == KeyOfRow(SidecarRow(g, f)) && MadeFrom(g, h, row)
    ensures row.project == Some(g.project)
    ensures row.version == None || row.version == FileText(g.parsing, f)
    ensures h.metadata.Some? && row == SidecarRow(g, h) ==> h.filename == f.filename
    ensures row == OwnRow(g, h) ==> row.version == None
  {
    SidecarParent(f.filename.value);
    if h.metadata.Some? && row == SidecarRow(g, h) {
      SidecarParent(h.filename.value);
    }
  }

  lemma SidecarPermitted(i: Instant, row: Row, filename: string, digest: string)
    requires row.project.Some? && row.filename == filename + SUFFIX && row.sha256 == digest
    ensures Permitted(i, row) <==>
            && row.version.Some? && !i.claimed
            && (|| OverrideOn(i, row.version.value) == Some(Allow)
                || (&& OverrideOn(i, row.version.value).None?
                    && (i.osvEnabled ==> CleanScan(i, row.version.value))
                    && ShowsSidecar(i, filename, digest, row.verification)))
  {
    SidecarParent(filename);
    if ShowsSidecar(i, filename, digest, row.verification) {
      var h :| && ShownWith(i, GateAdvisories(i), h)
               && h.Dict? && h.filename == Some(filename) && h.sha256 == Some(digest) && h.metadata == row.verification;
      assert Matches(row, h);
    }
  }

  /** Nothing in the listing disputes the sidecar of `f`. */
  ghost predicate Undisputed(g: Registrar, files: seq<File>, f: File)
    requires IsRegistered(g, f)
  {
    forall h | h in files && IsRegistered(g, h) && g.fold(h.sha256.value) == g.fold(f.sha256.value) ::
      && h.filename.value != f.filename.value + SUFFIX
      && (h.filename == f.filename ==> h.metadata in {None, f.metadata})
  }

  /** Then the sidecar of a file with a lower-case digest works exactly when the file's own link does. */
  lemma UndisputedSidecarWorks(
    i: Instant, versions: seq<string>, status: AdvisoryCache.Status, adv: Advisories, g: Registrar,
    before: Table, files: seq<File>, f: File)
    requires IsListing(i, versions, status, adv, g, files)
    requires f in files && IsRegistered(g, f) && IsLinked(g.fold, f) && f.metadata.Some?
    requires Undisputed(g, files, f)
    ensures
      var t := Registered(g, before, files);
      var key := KeyOfRow(SidecarRow(g, f));
      key in t && t[key] == SidecarRow(g, f) && (Permitted(i, t[key]) <==> LinkWorks(i, f))
  {
    var h := StoredIsMade(g, before, files, f, SidecarRow(g, f));
    var row := Registered(g, before, files)[KeyOfRow(SidecarRow(g, f))];
    if h.metadata.Some? && row == SidecarRow(g, h) {
      SameSuffix(h.filename.value, f.filename.value);
    }
    RowLinkWorks(i, versions, status, adv, g.fold, g.project, f);
  }

  lemma SameSuffix(a: string, b: string)
    requires a + SUFFIX == b + SUFFIX
    ensures a == b
  {
    SidecarParent(a);
    SidecarParent(b);
  }

  // ---------- two listings whose sidecar link fails although the artifact's works ----------

  const EXAMPLES: Registrar := Registrar(EXAMPLE, d => if d == "Ab" then "ab" else d, _ => true, "p")

  function ExampleEntry(filename: string, sha256: string, metadata: Option<string>): File {
    Dict(Some(filename), Some(0), Some(sha256), metadata, None, {})
  }

  const FIRST: File := ExampleEntry("p-2.whl", "ab", Some("m1"))

  /** Two old files on a fresh, clean scan. */
  function ExamplePair(second: File): Instant {
    Instant(Setting(EXAMPLE, 100, 50, 10), false, true, 60, false, map[],
            Some(KeyedScan(["2"], AdvisoryCache.Scan(map["2" := {}], 90))), Some(Payload(Some([FIRST, second]), None)))
  }

  lemma ExampleListing(second: File)
    requires second.Dict? && second.uploaded == Some(0) && FileText(EXAMPLE, second) in {None, Some("2")}
    ensures IsListing(ExamplePair(second), ["2"], AdvisoryCache.Hit, map["2" := {}], EXAMPLES, [FIRST, second])
    ensures LinkWorks(ExamplePair(second), FIRST)
  {
    var i := ExamplePair(second);
    assert FilesAt(i)[0] == FIRST && FilesAt(i)[1] == second;
    assert FileText(EXAMPLE, FIRST) == Some("2") && HasText(EXAMPLE, FilesAt(i), "2");
    ShownAnyway(i, map["2" := {}], FIRST);
    ShownAnyway(i, map["2" := {}], second);
  }

  /** The last of the records decides. */
  lemma LastRecord(before: Table, second: File, r: Row)
    requires IsRegistered(EXAMPLES, second) && Records(EXAMPLES, second)[|Records(EXAMPLES, second)| - 1] == r
    ensures KeyOfRow(r) in Registered(EXAMPLES, before, [FIRST, second])
    ensures Registered(EXAMPLES, before, [FIRST, second])[KeyOfRow(r)] == r
  {
    assert [FIRST, second][..1] == [FIRST];
    var records := RecordsOf(EXAMPLES, [FIRST, second]);
    assert records == RecordsOf(EXAMPLES, [FIRST]) + Records(EXAMPLES, second);
    LastStays(before, records, |records| - 1);
  }

  /** The same file again, with its digest in mixed case and other metadata: the sidecar's row is the second one's. */
  lemma SidecarReplaced(before: Table)
    ensures
      var second := ExampleEntry("p-2.whl", "Ab", Some("m2"));
      var (i, t) := (ExamplePair(second), Registered(EXAMPLES, before, [FIRST, second]));
      && IsListing(i, ["2"], AdvisoryCache.Hit, map["2" := {}], EXAMPLES, [FIRST, second])
      && LinkWorks(i, FIRST)
      && KeyOfRow(SidecarRow(EXAMPLES, FIRST)) in t
      && !Permitted(i, t[KeyOfRow(SidecarRow(EXAMPLES, FIRST))])
  {
    var second := ExampleEntry("p-2.whl", "Ab", Some("m2"));
    var i := ExamplePair(second);
    ExampleListing(second);
    LastRecord(before, second, SidecarRow(EXAMPLES, second));
    assert !ShowsSidecar(i, "p-2.whl", "ab", Some("m2"));
    SidecarLinkWorks(i, ["2"], AdvisoryCache.Hit, map["2" := {}], EXAMPLES, before, [FIRST, second], FIRST);
  }

  /** A file named like the sidecar: its row has no version, and is denied for that. */
  lemma SidecarUnnamed(before: Table)
    ensures
      var second := ExampleEntry("p-2.whl.metadata", "ab", None);
      var (i, t) := (ExamplePair(second), Registered(EXAMPLES, before, [FIRST, second]));
      && IsListing(i, ["2"], AdvisoryCache.Hit, map["2" := {}], EXAMPLES, [FIRST, second])
      && LinkWorks(i, FIRST)
      && KeyOfRow(SidecarRow(EXAMPLES, FIRST)) in t
      && !Permitted(i, t[KeyOfRow(SidecarRow(EXAMPLES, FIRST))])
  {
    var second := ExampleEntry("p-2.whl.metadata", "ab", None);
    ExampleListing(second);
    assert "p-2.whl" + SUFFIX == "p-2.whl.metadata";
    LastRecord(before, second, OwnRow(EXAMPLES, second));
  }
}
