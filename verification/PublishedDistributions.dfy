/** The two sides together: what the publication protocol commits, and what it serves, are the distributions that the
    streaming verifiers accept. */
module PublishedDistributions {
  import opened Prelude
  import opened Publication
  import opened PublicationSteps
  import opened PublicationResults
  import opened Distributions

  /** The protocol inspects objects with `validate_distribution`. */
  ghost predicate InspectsWith(o: Oracle, i: Inspector) {
    forall form, bytes, release :: o.verify(form, bytes) == Success(release) <==> IsRelease(i, form, bytes, release)
  }

  /** A form and an object are at most one release. */
  lemma ReleaseUnique(i: Inspector, form: Form, bytes: Bytes, a: Release, b: Release)
    requires IsRelease(i, form, bytes, a) && IsRelease(i, form, bytes, b)
    ensures a == b
  {
    var named, content :| IsReleaseOf(i, form, bytes, named, content, a);
    var named', content' :| IsReleaseOf(i, form, bytes, named', content', b);
    ContentUnique(i, form.filename, bytes, content, content');
  }

  /** An object holds at most one metadata file. */
  lemma ContentUnique(i: Inspector, filename: string, bytes: Bytes, a: Bytes, b: Bytes)
    requires HoldsMetadata(i, filename, bytes, a) && HoldsMetadata(i, filename, bytes, b)
    ensures a == b
  {
    if IsTarball(filename) {
      GzipSource.GenuineByInspection(i.tar, i.gunzip(bytes), |bytes|);
    } else {
      var x, info :| ZipMetadata.IsMetadata(i.zip, IsWheel(filename), bytes, x, info, a);
      var y, info' :| ZipMetadata.IsMetadata(i.zip, IsWheel(filename), bytes, y, info', b);
      ZipMetadata.ArchiveUnique(i.zip, IsWheel(filename), bytes, x, info, a, y, info', b);
    }
  }

  /** An archive that can be read is a release exactly of what file name, form and its metadata agree on; if they do not
      agree on one project and one version, it is none, and refused as invalid. */
  lemma MismatchIsRefused(i: Inspector, form: Form, bytes: Bytes, content: Bytes)
    requires HoldsMetadata(i, form.filename, bytes, content)
    ensures forall release :: IsRelease(i, form, bytes, release) <==> Agree(i, form, i.headers(content), release)
    ensures || (forall project :: !OneProject(i, form, i.headers(content), project))
            || (forall version :: !OneVersion(i, form, i.headers(content), version)) ==>
              forall release :: !IsRelease(i, form, bytes, release)
  {
    forall release ensures IsRelease(i, form, bytes, release) <==> Agree(i, form, i.headers(content), release) {
      ReleaseInWords(i, form, bytes, release);
      if other :| HoldsMetadata(i, form.filename, bytes, other) && Agree(i, form, i.headers(other), release) {
        ContentUnique(i, form.filename, bytes, content, other);
      }
    }
  }

  /** So there is a protocol that inspects with any given libraries. */
  lemma InspectionExists(i: Inspector, hash: Bytes -> Digest) returns (o: Oracle)
    ensures o.hash == hash && InspectsWith(o, i)
  {
    var verify: (Form, Bytes) -> Result<Release, nat> :=
      (form, bytes) =>
        if exists release :: IsRelease(i, form, bytes, release) then
          var release :| IsRelease(i, form, bytes, release);
          Success(release)
        else Failure(400);
    o := Oracle(hash, verify);
    forall form, bytes, release
      ensures verify(form, bytes) == Success(release) <==> IsRelease(i, form, bytes, release)
    {
      if IsRelease(i, form, bytes, release) {
        var chosen :| verify(form, bytes) == Success(chosen) && IsRelease(i, form, bytes, chosen);
        ReleaseUnique(i, form, bytes, release, chosen);
      }
    }
  }

  /** Bytes are published only if they were fully verified: in every state of every run, the object of a row is in
      the bucket, hashes to the row's digest, and is a genuine archive of exactly that file, project and version. */
  lemma PublishedIsVerified(o: Oracle, i: Inspector, labels: seq<Label>, later: seq<Label>, slot: Slot)
    requires InspectsWith(o, i) && slot in Reached(o, labels).artifacts
    ensures
      var row := Reached(o, labels).artifacts[slot];
      var t := Reached(o, labels + later);
      && row.key in t.bucket && o.hash(t.bucket[row.key]) == row.digest
      && exists form: Form, release: Release ::
           && IsRelease(i, form, t.bucket[row.key], release)
           && form.filename == slot.1 && release.project == slot.0 && release.version == row.version
    ensures
      var row := Reached(o, labels).artifacts[slot];
      var t := Reached(o, labels + later);
      exists form: Form, content ::
        && form.filename == slot.1
        && HoldsMetadata(i, slot.1, t.bucket[row.key], content)
        && OneProject(i, form, i.headers(content), slot.0)
        && OneVersion(i, form, i.headers(content), row.version)
  {
    CommittedObjectSafe(o, labels, later, slot);
    var bytes := Reached(o, labels + later).bucket[Reached(o, labels).artifacts[slot].key];
    var form: Form, release: Release :|
      && o.verify(form, bytes) == Success(release)
      && slot == (release.project, form.filename) && release.version == Reached(o, labels).artifacts[slot].version;
    assert IsRelease(i, form, bytes, release);
    ReleaseInWords(i, form, bytes, release);
  }

  /** And they are served only so: a response body hashes to the requested digest and is such an archive. */
  lemma ServedIsVerified(
    o: Oracle, i: Inspector, labels: seq<Label>, digest: Digest, filename: string, slot: Slot, blocked: bool)
    requires InspectsWith(o, i) && Selected(Reached(o, labels), digest, filename, slot)
    ensures
      var s := Reached(o, labels);
      var response := Artifact(s, Some(s.artifacts[slot]), blocked);
      response.Body? ==>
        && o.hash(response.bytes) == digest
        && exists form: Form, release: Release ::
             form.filename == filename && IsRelease(i, form, response.bytes, release) && release.project == slot.0
  {
    if !blocked {
      PublishedIsVerified(o, i, labels, [], slot);
      assert labels + [] == labels;
    }
  }
}
