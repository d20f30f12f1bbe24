/** Which entry of a ZIP distribution is its metadata, and what is read of it, in terms of names and recorded fields. */
module ZipNames {
  import opened Prelude
  import opened ZipArchive
  import opened ZipMetadata

  /** A file of this name in some directory at the top. */
  ghost predicate IsTopLevel(filename: string, suffix: string) {
    exists dir: string :: '/' !in dir && filename == dir + suffix
  }

  lemma {:induction false} SlashesAdd(a: string, b: string)
    ensures Slashes(a + b) == Slashes(a) + Slashes(b)
  {
    if a == "" {
      assert a + b == b;
    } else {
      assert (a + b)[1..] == a[1..] + b;
      SlashesAdd(a[1..], b);
    }
  }

  lemma {:induction false} NoSlash(s: string)
    ensures Slashes(s) == 0 <==> '/' !in s
  {
    if s != "" {
      NoSlash(s[1..]);
      assert s == [s[0]] + s[1..];
    }
  }

  lemma OneSlashIn(before: string, after: string)
    requires '/' !in before && '/' !in after
    ensures Slashes(before + "/" + after) == 1
  {
    NoSlash(before);
    NoSlash(after);
    SlashesAdd(before + "/", after);
    SlashesAdd(before, "/");
    assert "/"[1..] == "";
  }

  lemma SuffixHasOneSlash(wheel: bool)
    ensures Slashes(if wheel then ".dist-info/METADATA" else "/PKG-INFO") == 1
  {
    if wheel {
      assert ".dist-info" + "/" + "METADATA" == ".dist-info/METADATA";
      OneSlashIn(".dist-info", "METADATA");
    } else {
      assert "" + "/" + "PKG-INFO" == "/PKG-INFO";
      OneSlashIn("", "PKG-INFO");
    }
  }

  lemma TopLevelIff(filename: string, wheel: bool)
    ensures IsCandidate(filename, wheel) <==>
            IsTopLevel(filename, if wheel then ".dist-info/METADATA" else "/PKG-INFO")
  {
    var suffix := if wheel then ".dist-info/METADATA" else "/PKG-INFO";
    SuffixHasOneSlash(wheel);
    if EndsWith(filename, suffix) {
      var dir := filename[..|filename| - |suffix|];
      assert filename == dir + suffix;
      SlashesAdd(dir, suffix);
      NoSlash(dir);
    }
    if dir: string :| '/' !in dir && filename == dir + suffix {
      assert filename[|filename| - |suffix|..] == suffix && filename[..|filename| - |suffix|] == dir;
    }
  }

  /** Entry `k` of the listed ones is the metadata file of a distribution, and no other is. */
  ghost predicate IsMetadataEntry(entries: seq<Entry>, wheel: bool, k: nat) {
    var suffix := if wheel then ".dist-info/METADATA" else "/PKG-INFO";
    && k < |entries| && IsTopLevel(entries[k].filename, suffix)
    && forall j | 0 <= j < |entries| && IsTopLevel(entries[j].filename, suffix) :: j == k
  }

  /** What is read of the archive `a` that lists `entries`, field by field. */
  ghost predicate IsRead(lib: Libraries, a: Archive, info: Entry, content: Bytes)
    requires a.WellFormed()
  {
    && info.headerOffset == |a.before| - |a.Files()|
    && info.flags % 2 == 0
    && a.name == lib.encode(info.filename, (info.flags / 2048) % 2 == 1)
    && |a.data| == info.compressSize <= 1_048_576
    && |content| == info.fileSize <= 1_048_576
    && (|| (info.compression == 0 && content == a.data)
        || (info.compression == 8 && lib.inflate(a.data) == Inflation(content, true, [])))
    && lib.crc32(content) == info.crc
  }

  /** The file is the archive `a`, with fewer than 65535 entries and a directory of at most 1 MiB, whose end record no
      later signature hides; its metadata entry is the `k`th, and is read as `content`. */
  ghost predicate IsReadAs(lib: Libraries, wheel: bool, file: Bytes, a: Archive, k: nat, content: Bytes) {
    && a.WellFormed() && file == a.Written()
    && a.entries < 65535 && |a.directory| <= 1_048_576
    && (forall i | i > a.EndAt() :: !Occurs(file, i))
    && var entries := lib.directory(a.directory + a.End());
    && entries.Some?
    && IsMetadataEntry(entries.value, wheel, k)
    && IsRead(lib, a, entries.value[k], content)
  }

  /** A file has metadata `content` exactly if it is such an archive: of the files it lists exactly one is named
      `<dir>.dist-info/METADATA` (`<dir>/PKG-INFO` outside wheels), with no slash in `<dir>`; that one is not encrypted,
      bears the same name in its local header, and unpacks to `content` with the recorded size, at most 1 MiB, and
      checksum. */
  lemma MetadataByName(lib: Libraries, wheel: bool, file: Bytes, content: Bytes)
    ensures HasMetadata(lib, wheel, file, content) <==>
            exists a: Archive, k: nat :: IsReadAs(lib, wheel, file, a, k, content)
  {
    if a, info :| IsMetadata(lib, wheel, file, a, info, content) {
      var k := EntryOf(lib, wheel, file, a, info, content);
    }
    if a: Archive, k: nat :| IsReadAs(lib, wheel, file, a, k, content) {
      ReadIsMetadata(lib, wheel, file, a, k, content);
    }
  }

  lemma EntryOf(lib: Libraries, wheel: bool, file: Bytes, a: Archive, info: Entry, content: Bytes) returns (k: nat)
    requires IsMetadata(lib, wheel, file, a, info, content)
    ensures IsReadAs(lib, wheel, file, a, k, content)
  {
    var entries := lib.directory(a.directory + a.End()).value;
    k :| k < |entries| && entries[k] == info && IsOnly(entries, wheel, k);
    OnlyByName(entries, wheel, k);
  }

  lemma ReadIsMetadata(lib: Libraries, wheel: bool, file: Bytes, a: Archive, k: nat, content: Bytes)
    requires IsReadAs(lib, wheel, file, a, k, content)
    ensures HasMetadata(lib, wheel, file, content)
  {
    var entries := lib.directory(a.directory + a.End()).value;
    OnlyByName(entries, wheel, k);
    assert IsMetadata(lib, wheel, file, a, entries[k], content);
  }

  lemma OnlyByName(entries: seq<Entry>, wheel: bool, k: nat)
    requires k < |entries|
    ensures IsOnly(entries, wheel, k) <==> IsMetadataEntry(entries, wheel, k)
  {
    forall j | 0 <= j < |entries| ensures IsCandidateAt(entries, wheel, j) <==>
        IsTopLevel(entries[j].filename, if wheel then ".dist-info/METADATA" else "/PKG-INFO")
    {
      TopLevelIff(entries[j].filename, wheel);
    }
  }
}
