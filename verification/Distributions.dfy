/** `validate_distribution` of src/wheelguard/distributions.py: a stored object is a release exactly if file name,
    form fields and the metadata inside the archive agree. */
module Distributions {
  import opened Prelude
  import Publication
  import ReleasePolicy
  import UploadForm
  import TarScanner
  import GzipSource
  import ZipMetadata
  import ZipReader

  type Form = Publication.Form
  type Release = Publication.Release

  /** What a distribution file name says. */
  datatype Named = Named(name: string, version: ReleasePolicy.Version)

  /** The headers of the core metadata that are looked at, with all their values. */
  datatype Headers = Headers(
    defects: bool, metadataVersions: seq<string>, names: seq<string>, versions: seq<string>, pythons: seq<string>)

  /** The libraries: archives, PEP 440 and PEP 503 parsing, the email parser, and version specifiers. */
  datatype Inspector = Inspector(
    tar: TarScanner.Decoder,
    gunzip: Bytes -> GzipSource.Decompression,
    zip: ZipMetadata.Libraries,
    wheelName: string -> Option<Named>,
    sourceName: string -> Option<Named>,
    canonical: string -> Option<string>,
    version: string -> Option<ReleasePolicy.Version>,
    headers: Bytes -> Headers,
    specifier: string -> bool)

  const NAME_LIMIT: nat := 200

  predicate IsWheel(filename: string) {
    ZipMetadata.EndsWith(filename, ".whl")
  }

  predicate IsTarball(filename: string) {
    ZipMetadata.EndsWith(filename, ".tar.gz")
  }

  // ---------- what a release is ----------

  /** The same normalized name, and an equal version, however it is written. */
  predicate SameRelease(i: Inspector, named: Named, name: string, version: string) {
    && i.canonical(name) == Some(named.name)
    && i.version(version).Some?
    && i.version(version).value.key == named.version.key
  }

  predicate FieldsAgree(i: Inspector, form: Form, named: Named) {
    var (name, version) := (Field(form, "name", true), Field(form, "version", true));
    var filetype := Field(form, "filetype", false);
    && name.Some? && version.Some? && SameRelease(i, named, name.value, version.value)
    && filetype.Some? && filetype.value in {"", if IsWheel(form.filename) then "bdist_wheel" else "sdist"}
  }

  function Field(form: Form, name: string, required: bool): Option<string> {
    UploadForm.Scalar(form.fields, name, required)
  }

  /** The form declares `named`: by its file name, and by its fields. */
  predicate Declares(i: Inspector, form: Form, named: Named) {
    && (if IsWheel(form.filename) then i.wheelName(form.filename) else i.sourceName(form.filename)) == Some(named)
    && |named.name| <= NAME_LIMIT
    && FieldsAgree(i, form, named)
  }

  predicate IsDigits(s: string) {
    forall c | c in s :: '0' <= c <= '9'
  }

  /** `[1-9][0-9]*\.[0-9]+` */
  ghost predicate IsMetadataVersion(s: string) {
    exists dot :: IsSplit(s, dot)
  }

  predicate IsSplit(s: string, dot: int) {
    0 < dot < |s| - 1 && s[dot] == '.' && '1' <= s[0] <= '9' && IsDigits(s[..dot]) && IsDigits(s[dot + 1..])
  }

  /** A number without leading zero, a dot, and a number. */
  lemma MetadataVersionShape(s: string)
    ensures IsMetadataVersion(s) <==>
            exists major: string, minor: string :: IsNumbers(s, major, minor)
  {
    if dot :| IsSplit(s, dot) {
      SplitJoins(s, dot);
    }
    if major: string, minor: string :| IsNumbers(s, major, minor) {
      JoinSplits(s, major, minor);
    }
  }

  ghost predicate IsNumbers(s: string, major: string, minor: string) {
    && s == major + "." + minor && major != "" && minor != "" && '1' <= major[0] <= '9'
    && (forall k | 0 <= k < |major| :: '0' <= major[k] <= '9')
    && (forall k | 0 <= k < |minor| :: '0' <= minor[k] <= '9')
  }

  lemma SplitJoins(s: string, dot: int)
    requires IsSplit(s, dot)
    ensures IsNumbers(s, s[..dot], s[dot + 1..])
  {
    var major, minor := s[..dot], s[dot + 1..];
    assert s == major + "." + minor;
    assert (forall k | 0 <= k < |major| :: major[k] in major) && (forall k | 0 <= k < |minor| :: minor[k] in minor);
  }

  lemma JoinSplits(s: string, major: string, minor: string)
    requires IsNumbers(s, major, minor)
    ensures IsSplit(s, |major|)
  {
    assert s[..|major|] == major && s[|major| + 1..] == minor;
  }

  /** The metadata describes `named`, once and without defects. */
  ghost predicate Describes(i: Inspector, h: Headers, named: Named, python: Option<string>) {
    && !h.defects
    && |h.metadataVersions| == 1 && IsMetadataVersion(h.metadataVersions[0])
    && |h.names| == 1 && |h.versions| == 1 && SameRelease(i, named, h.names[0], h.versions[0])
    && |h.pythons| <= 1
    && python == (if h.pythons == [] then None else Some(h.pythons[0]))
    && (python.None? || python.value == "" || i.specifier(python.value))
  }

  /** The bytes are a genuine archive of the kind their name says, whose one metadata file is `content`. */
  ghost predicate HoldsMetadata(i: Inspector, filename: string, bytes: Bytes, content: Bytes) {
    if IsTarball(filename) then GzipSource.IsGenuine(i.tar, i.gunzip(bytes), |bytes|, content)
    else ZipMetadata.HasMetadata(i.zip, IsWheel(filename), bytes, content)
  }

  ghost predicate IsReleaseOf(i: Inspector, form: Form, bytes: Bytes, named: Named, content: Bytes, release: Release) {
    && Declares(i, form, named)
    && HoldsMetadata(i, form.filename, bytes, content)
    && Describes(i, i.headers(content), named, release.requiresPython)
    && release.project == named.name && release.version == named.version.text
  }

  ghost predicate IsRelease(i: Inspector, form: Form, bytes: Bytes, release: Release) {
    exists named, content :: IsReleaseOf(i, form, bytes, named, content, release)
  }

  // ---------- the same in terms of names, versions and values ----------

  /** A field that was given exactly once, with this value. */
  ghost predicate GivenOnce(form: Form, name: string, value: string) {
    name in form.fields && form.fields[name] == [value]
  }

  /** What the file name says, by its kind. */
  function FromName(i: Inspector, filename: string): Option<Named> {
    if |filename| >= 4 && filename[|filename| - 4..] == ".whl" then i.wheelName(filename) else i.sourceName(filename)
  }

  /** File name, form field and metadata header give one project: the three names have one canonical form. */
  ghost predicate OneProject(i: Inspector, form: Form, h: Headers, project: string) {
    exists field: string ::
      && FromName(i, form.filename).Some? && FromName(i, form.filename).value.name == project
      && GivenOnce(form, "name", field) && i.canonical(field) == Some(project)
      && |h.names| == 1 && i.canonical(h.names[0]) == Some(project)
  }

  /** ... and one version: the three have one ordering key. */
  ghost predicate OneVersion(i: Inspector, form: Form, h: Headers, version: string) {
    exists field: string, key: real ::
      && FromName(i, form.filename).Some?
      && FromName(i, form.filename).value.version == ReleasePolicy.Version(key, version)
      && GivenOnce(form, "version", field)
      && i.version(field).Some? && i.version(field).value.key == key
      && |h.versions| == 1 && i.version(h.versions[0]).Some? && i.version(h.versions[0]).value.key == key
  }

  /** The rest: the file type, if given, fits; the metadata is well-formed; a Python requirement is a specifier. */
  ghost predicate OtherwiseInOrder(i: Inspector, form: Form, h: Headers, python: Option<string>) {
    var wheel := |form.filename| >= 4 && form.filename[|form.filename| - 4..] == ".whl";
    && ("filetype" in form.fields && form.fields["filetype"] != [] ==>
          form.fields["filetype"] in {[""], [if wheel then "bdist_wheel" else "sdist"]})
    && !h.defects
    && |h.metadataVersions| == 1 && IsMetadataVersion(h.metadataVersions[0])
    && (h.pythons == [] ==> python == None)
    && (h.pythons != [] ==> |h.pythons| == 1 && python == Some(h.pythons[0]) && (h.pythons[0] == "" || i.specifier(h.pythons[0])))
  }

  /** The release that file name, form and metadata agree on. */
  ghost predicate Agree(i: Inspector, form: Form, h: Headers, release: Release) {
    && OneProject(i, form, h, release.project) && |release.project| <= 200
    && OneVersion(i, form, h, release.version)
    && OtherwiseInOrder(i, form, h, release.requiresPython)
  }

  /** A stored object is a release exactly if it is a genuine archive and all three sources agree on that release. */
  lemma ReleaseInWords(i: Inspector, form: Form, bytes: Bytes, release: Release)
    ensures IsRelease(i, form, bytes, release) <==>
            exists content :: HoldsMetadata(i, form.filename, bytes, content) && Agree(i, form, i.headers(content), release)
  {
    if named, content :| IsReleaseOf(i, form, bytes, named, content, release) {
      AgreeIff(i, form, named, i.headers(content), release);
    }
    if content :| HoldsMetadata(i, form.filename, bytes, content) && Agree(i, form, i.headers(content), release) {
      var named := FromName(i, form.filename).value;
      AgreeIff(i, form, named, i.headers(content), release);
      assert IsReleaseOf(i, form, bytes, named, content, release);
    }
  }

  lemma AgreeIff(i: Inspector, form: Form, named: Named, h: Headers, release: Release)
    requires FromName(i, form.filename) == Some(named)
             || (if IsWheel(form.filename) then i.wheelName(form.filename) else i.sourceName(form.filename)) == Some(named)
    ensures Agree(i, form, h, release) <==>
            && Declares(i, form, named) && Describes(i, h, named, release.requiresPython)
            && release.project == named.name && release.version == named.version.text
  {
    assert FromName(i, form.filename) == Some(named);
    FieldIff(form, "name");
    FieldIff(form, "version");
    FiletypeIff(form);
    if Declares(i, form, named) && Describes(i, h, named, release.requiresPython)
       && release.project == named.name && release.version == named.version.text {
      assert GivenOnce(form, "name", form.fields["name"][0]);
      assert GivenOnce(form, "version", form.fields["version"][0]);
      assert named.version == ReleasePolicy.Version(named.version.key, release.version);
    }
  }

  lemma FieldIff(form: Form, name: string)
    ensures forall value :: Field(form, name, true) == Some(value) <==> GivenOnce(form, name, value)
  {
    forall value ensures Field(form, name, true) == Some(value) <==> GivenOnce(form, name, value) {
      if Field(form, name, true) == Some(value) {
        assert form.fields[name] == [value];
      }
    }
  }

  lemma FiletypeIff(form: Form)
    ensures forall kind :: Field(form, "filetype", false).Some? && Field(form, "filetype", false).value in {"", kind} <==>
                           ("filetype" in form.fields && form.fields["filetype"] != [] ==>
                              form.fields["filetype"] in {[""], [kind]})
  {
    if "filetype" in form.fields && |form.fields["filetype"]| == 1 {
      assert form.fields["filetype"] == [form.fields["filetype"][0]];
    }
  }

  // ---------- validate_distribution ----------

  method CheckFields(i: Inspector, form: Form) returns (r: Result<Named, nat>)
    ensures r.Success? ==> Declares(i, form, r.value)
    ensures r.Failure? ==> r.error == 400 && forall named :: !Declares(i, form, named)
  {
    var wheel := IsWheel(form.filename);
    var parsed := if wheel then i.wheelName(form.filename) else i.sourceName(form.filename);
    if parsed.None? {
      return Failure(400);
    }
    var named := parsed.value;
    var name, version := Field(form, "name", true), Field(form, "version", true);
    if name.None? || version.None? || !SameRelease(i, named, name.value, version.value) {
      return Failure(400);
    }
    if |named.name| > NAME_LIMIT {
      return Failure(400);
    }
    var filetype := Field(form, "filetype", false);
    if filetype.None? || (filetype.value != "" && filetype.value != (if wheel then "bdist_wheel" else "sdist")) {
      return Failure(400);
    }
    return Success(named);
  }

  /** The metadata version matches if its first dot is followed by digits only. */
  method MatchesMetadataVersion(s: string) returns (ok: bool)
    ensures ok <==> IsMetadataVersion(s)
  {
    var dot := 0;
    while dot < |s| && s[dot] != '.'
      invariant 0 <= dot <= |s| && '.' !in s[..dot]
    {
      dot := dot + 1;
    }
    forall d | IsSplit(s, d) ensures d == dot {
      SplitAtFirst(s, d, dot);
    }
    ok := dot < |s| && IsSplit(s, dot);
  }

  lemma SplitAtFirst(s: string, d: int, dot: int)
    requires IsSplit(s, d) && 0 <= dot <= |s| && '.' !in s[..dot] && (dot < |s| ==> s[dot] == '.')
    ensures d == dot
  {
    forall k | 0 <= k < d ensures s[k] != '.' {
      assert s[k] in s[..d];
    }
    forall k | 0 <= k < dot ensures s[k] != '.' {
      assert s[k] in s[..dot];
    }
  }

  method CheckMetadata(i: Inspector, content: Bytes, named: Named) returns (r: Result<Release, nat>)
    ensures r.Success? ==>
      && Describes(i, i.headers(content), named, r.value.requiresPython)
      && r.value.project == named.name && r.value.version == named.version.text
    ensures r.Failure? ==> r.error == 400 && forall python :: !Describes(i, i.headers(content), named, python)
  {
    var h := i.headers(content);
    if h.defects || |h.metadataVersions| != 1 || |h.names| != 1 || |h.versions| != 1 {
      return Failure(400);
    }
    var ok := MatchesMetadataVersion(h.metadataVersions[0]);
    if !ok || !SameRelease(i, named, h.names[0], h.versions[0]) || |h.pythons| > 1 {
      return Failure(400);
    }
    var python := if h.pythons == [] then None else Some(h.pythons[0]);
    if python.Some? && python.value != "" && !i.specifier(python.value) {
      return Failure(400);
    }
    return Success(Publication.Release(named.name, named.version.text, python));
  }

  function StatusOfSource(e: GzipSource.SourceError): nat {
    match e
    case Unavailable => 503
    case ExpandsTooFar => 413
    case _ => 400
  }

  function StatusOfZip(e: ZipMetadata.ZipError): nat {
    if e.Unavailable? then 503 else 400
  }

  /** The first fault of a tarball is that it expands too far. */
  predicate Overexpands(i: Inspector, filename: string, bytes: Bytes, size: nat) {
    IsTarball(filename) && GzipSource.SourceFault(i.tar, i.gunzip(bytes), size) == Some(GzipSource.ExpandsTooFar)
  }

  method ReadContent(i: Inspector, stored: Option<Bytes>, filename: string, size: nat)
      returns (r: Result<Bytes, nat>)
    ensures stored.None? && size > 0 ==> r == Failure(503)
    ensures stored.Some? && |stored.value| == size ==>
              forall content :: r == Success(content) <==> HoldsMetadata(i, filename, stored.value, content)
    ensures stored.Some? && r.Success? ==> !Overexpands(i, filename, stored.value, size)
    ensures stored.Some? && r.Failure? ==> r.error == if Overexpands(i, filename, stored.value, size) then 413 else 400
  {
    if IsTarball(filename) {
      var source := if stored.Some? then Some(i.gunzip(stored.value)) else None;
      var metadata := GzipSource.TarMetadataOf(i.tar, source, size);
      return match metadata case Success(content) => Success(content) case Failure(e) => Failure(StatusOfSource(e));
    } else {
      var metadata := ZipReader.ReadMetadata(i.zip, stored, size, IsWheel(filename));
      assert stored.Some? && |stored.value| == size ==> stored.value[..size] == stored.value;
      return match metadata case Success(content) => Success(content) case Failure(e) => Failure(StatusOfZip(e));
    }
  }

  /** The stored object is accepted as `release` exactly if it is that release. */
  method ValidateDistribution(i: Inspector, stored: Option<Bytes>, form: Form, size: nat)
      returns (r: Result<Release, nat>)
    ensures stored.Some? && |stored.value| == size ==>
              forall release :: r == Success(release) <==> IsRelease(i, form, stored.value, release)
    ensures (forall named :: !Declares(i, form, named)) ==> r == Failure(400)
    ensures stored.Some? && r.Failure? && (exists named :: Declares(i, form, named)) ==>
              r.error == if Overexpands(i, form.filename, stored.value, size) then 413 else 400
    ensures stored.None? && size > 0 && (exists named :: Declares(i, form, named)) ==> r == Failure(503)
    ensures stored.Some? && |stored.value| == size && r.Failure? ==>
              (exists content :: HoldsMetadata(i, form.filename, stored.value, content)) ==> r.error == 400
  {
    var named := CheckFields(i, form);
    if named.Failure? {
      return Failure(named.error);
    }
    var content := ReadContent(i, stored, form.filename, size);
    if content.Failure? {
      return Failure(content.error);
    }
    r := CheckMetadata(i, content.value, named.value);
    if stored.Some? && |stored.value| == size {
      forall release ensures r == Success(release) <==> IsRelease(i, form, stored.value, release) {
        if r.Success? {
          assert IsReleaseOf(i, form, stored.value, named.value, content.value, r.value);
        }
      }
    }
  }
}
