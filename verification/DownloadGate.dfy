/** The download gate of src/wheelguard/cloudflare_index.py: long after a listing was rendered, one artifact
    is decided again, from stored rows and by different code. The gate refines the listing. */
module DownloadGate {
  import opened Prelude
  import opened ReleasePolicy
  import opened Vulnerabilities
  import AdvisoryCache

  /** A registered artifact. */
  datatype Row = Row(
    project: Option<string>,
    version: Option<string>,
    filename: string,
    sha256: string,
    verification: Option<string>)

  /** A stored scan, with the versions behind its key. */
  datatype KeyedScan = KeyedScan(key: seq<string>, scan: AdvisoryCache.Scan)

  /** Everything stored about one project, and the settings, at one instant. */
  datatype Instant = Instant(
    setting: Setting,
    allowMissing: bool,
    osvEnabled: bool,
    ttl: int,
    claimed: bool,
    overrides: map<string, Action>,
    scan: Option<KeyedScan>,
    payload: Option<Payload>)

  datatype Denial =
    | NoIdentity
    | PrivatelyOwned
    | Blocked
    | NotEvaluated
    | EvaluationStale
    | Vulnerable
    | NoMetadata
    | NotOldEnough

  const SUFFIX: string := ".metadata"

  predicate IsSidecar(filename: string) {
    |filename| >= |SUFFIX| && filename[|filename| - |SUFFIX|..] == SUFFIX
  }

  /** The distribution a row belongs to: its own name, or what a metadata sidecar describes. */
  function Parent(filename: string): string {
    if IsSidecar(filename) then filename[..|filename| - |SUFFIX|] else filename
  }

  /** A file entry this row was made from: same name, same digest as written, same metadata digest. */
  predicate Matches(row: Row, f: File) {
    && f.Dict?
    && f.filename == Some(Parent(row.filename))
    && f.sha256 == Some(row.sha256)
    && (IsSidecar(row.filename) ==> f.metadata == row.verification)
  }

  // ---------- the listing ----------

  function FilesAt(i: Instant): seq<File> {
    if i.payload.Some? then FilesOf(i.payload.value) else []
  }

  /** `f` is a visible file of the project's listing, evaluated with `adv`: age, fallback and overrides merged. */
  ghost predicate ShownWith(i: Instant, adv: Advisories, f: File) {
    f in FilesAt(i) &&
    exists actions ::
      && IsMerged(i.setting, adv, FilesAt(i), i.overrides, actions)
      && Shows(EvaluationOf(i.setting, i.allowMissing, actions), f)
  }

  /** The listing used the stored scan, which is one of its own versions. */
  ghost predicate IsOwnScan(i: Instant, versions: seq<string>, adv: Advisories) {
    && i.osvEnabled && versions != []
    && i.scan.Some? && i.scan.value.key == versions && i.scan.value.scan.advisories == adv
    && AdvisoryCache.Covers(adv, versions)
  }

  function Age(i: Instant, scan: AdvisoryCache.Scan): int {
    i.setting.now - scan.checkedAt
  }

  /** An evaluation that a listing may have made, leaving the project as it is at this instant: of its versions, with
      its status, and the advisories it then works with. */
  ghost predicate IsEvaluated(i: Instant, versions: seq<string>, status: AdvisoryCache.Status, adv: Advisories) {
    && IsVersionList(i.setting.parsing, FilesAt(i), versions)
    && match status
       case Disabled => !i.osvEnabled && adv == map[]
       case Empty => i.osvEnabled && versions == [] && adv == map[]
       case Hit => IsOwnScan(i, versions, adv) && Age(i, i.scan.value.scan) <= i.ttl
       case Miss => IsOwnScan(i, versions, adv) && Age(i, i.scan.value.scan) == 0
       case Stale => IsOwnScan(i, versions, adv) && i.ttl < Age(i, i.scan.value.scan)
       case Error => i.osvEnabled && versions != [] && adv == map[] && (i.scan.Some? ==> i.scan.value.key != versions)
       case Refresh => false
  }

  /** A file of the listing that was rendered with this evaluation. */
  ghost predicate InListing(
    i: Instant, versions: seq<string>, status: AdvisoryCache.Status, adv: Advisories, f: File)
  {
    IsEvaluated(i, versions, status, adv) && ShownWith(i, adv, f)
  }

  // ---------- what the gate lets through ----------

  /** The advisories the gate works with: those of the stored scan, whatever its key; none while scanning is off. */
  function GateAdvisories(i: Instant): Advisories {
    if i.osvEnabled && i.scan.Some? then i.scan.value.scan.advisories else map[]
  }

  /** A scan strictly younger than the TTL covers this version and found nothing. */
  predicate CleanScan(i: Instant, text: string) {
    && i.scan.Some?
    && text in i.scan.value.scan.advisories
    && Age(i, i.scan.value.scan) < i.ttl
    && i.scan.value.scan.advisories[text] == {}
  }

  function OverrideOn(i: Instant, text: string): Option<Action> {
    if text in i.overrides then Some(i.overrides[text]) else None
  }

  ghost predicate Permitted(i: Instant, row: Row) {
    && row.project.Some? && row.version.Some?
    && !i.claimed
    && (|| OverrideOn(i, row.version.value) == Some(Allow)
        || (&& OverrideOn(i, row.version.value).None?
            && (i.osvEnabled ==> CleanScan(i, row.version.value))
            && exists f :: ShownWith(i, GateAdvisories(i), f) && Matches(row, f)))
  }

  /** Registered rows carry the version text of their distribution's file name. */
  predicate Coherent(parsing: Parsing, row: Row) {
    row.version.Some? ==>
      var v := parsing.filename(Parent(row.filename));
      v.Some? && v.value.text == row.version.value
  }

  // ---------- the gate ----------

  /** _artifact_age_denial: the policy again, with the fallback but without the administrator's overrides. */
  method AgeDenial(i: Instant, adv: Advisories, row: Row) returns (d: Option<Denial>)
    ensures d.None? <==>
      exists f :: f in FilesAt(i) && Matches(row, f) && ShownByFallback(i, adv, f)
    ensures d.Some? ==> d.value in {NoMetadata, NotOldEnough}
  {
    if i.payload.None? {
      return Some(NoMetadata);
    }
    var fallback := AutomaticFixedVersionAllows(i.setting, adv, FilesOf(i.payload.value));
    var e := EvaluationOf(i.setting, i.allowMissing, fallback);
    var eligible := ApplyRelease(e, i.payload.value);
    var files := FilesOf(eligible.payload);
    ghost var all := FilesAt(i);
    forall f ensures f in files <==> f in all && Shows(e, f) {
      FilterMember(all, g => Shows(e, g), f);
    }
    FallbackUnique(i.setting, adv, all, fallback);
    for n := 0 to |files|
      invariant forall k | 0 <= k < n :: !Matches(row, files[k])
    {
      if Matches(row, files[n]) {
        assert files[n] in files && ShownByFallback(i, adv, files[n]);
        return None;
      }
    }
    forall f | f in all && Matches(row, f) ensures !ShownByFallback(i, adv, f) {
      assert f !in files;
    }
    return Some(NotOldEnough);
  }

  ghost predicate ShownByFallback(i: Instant, adv: Advisories, f: File) {
    exists fallback ::
      IsFallback(i.setting, adv, FilesAt(i), fallback) && Shows(EvaluationOf(i.setting, i.allowMissing, fallback), f)
  }

  lemma FallbackUnique(s: Setting, adv: Advisories, files: seq<File>, a: map<string, Action>)
    requires IsFallback(s, adv, files, a)
    ensures forall b :: IsFallback(s, adv, files, b) ==> b == a
  {
    forall b | IsFallback(s, adv, files, b) ensures b == a {
      if NeedsFallback(s, adv, files) {
        var m: nat :| IsNewest(s, adv, files, m) && a == map[VersionOf(s.parsing, files[m]).value.text := Fallback];
        var n: nat :| IsNewest(s, adv, files, n) && b == map[VersionOf(s.parsing, files[n]).value.text := Fallback];
        NewestUnique(s, adv, files, m, n);
      }
    }
  }

  /** Every evaluation has a fallback. */
  lemma FallbackExists(s: Setting, adv: Advisories, files: seq<File>) returns (r: map<string, Action>)
    ensures IsFallback(s, adv, files, r)
  {
    r := map[];
    if NeedsFallback(s, adv, files) {
      var f :| f in files && FreshSafe(s, adv, f);
      var k: nat :| k < |files| && files[k] == f;
      var m := NewestExists(s, adv, files, |files|, k);
      assert files[..|files|] == files;
      r := map[VersionOf(s.parsing, files[m]).value.text := Fallback];
    }
  }

  lemma {:induction false} NewestExists(s: Setting, adv: Advisories, files: seq<File>, n: nat, k: nat) returns (m: nat)
    requires k < n <= |files| && FreshSafe(s, adv, files[k])
    ensures IsNewest(s, adv, files[..n], m)
    decreases n
  {
    var last := files[n - 1];
    if j: nat :| j < n - 1 && FreshSafe(s, adv, files[j]) {
      m := NewestExists(s, adv, files, n - 1, j);
      assert forall i | 0 <= i < n - 1 :: files[..n][i] == files[..n - 1][i];
      if FreshSafe(s, adv, last) && KeyOf(s, files[m]) < KeyOf(s, last) {
        m := n - 1;
      }
    } else {
      m := n - 1;
    }
  }

  /** Leaving out overrides that do not speak about a file changes nothing for it. */
  lemma SilentOverrides(i: Instant, adv: Advisories, f: File)
    requires OnlyAllowOrBlock(i.overrides) && f in FilesAt(i)
    requires ActionOn(i.overrides, VersionOf(i.setting.parsing, f)).None?
    ensures ShownWith(i, adv, f) <==> ShownByFallback(i, adv, f)
  {
    var s, files := i.setting, FilesAt(i);
    var fallback := FallbackExists(s, adv, files);
    FallbackUnique(s, adv, files, fallback);
    var actions := fallback + i.overrides;
    assert IsMerged(s, adv, files, i.overrides, actions);
    forall other | IsMerged(s, adv, files, i.overrides, other) ensures other == actions {
    }
    assert ActionOn(actions, VersionOf(s.parsing, f)) == ActionOn(fallback, VersionOf(s.parsing, f));
    assert Shows(EvaluationOf(s, i.allowMissing, actions), f) == Shows(EvaluationOf(s, i.allowMissing, fallback), f);
  }

  /** _artifact_policy_denial: an artifact is served exactly if its release is allowed by an administrator,
      or it is an unblocked file that the merged policy shows under the stored scan, which is clean and strictly fresh. */
  method ArtifactPolicyDenial(i: Instant, row: Row) returns (d: Option<Denial>)
    requires OnlyAllowOrBlock(i.overrides)
    ensures Coherent(i.setting.parsing, row) ==> (d.None? <==> Permitted(i, row))
    ensures d == Some(NoIdentity) <==> row.project.None? || row.version.None?
    ensures row.project.Some? && row.version.Some? ==>
      var action := OverrideOn(i, row.version.value);
      && (d == Some(PrivatelyOwned) <==> i.claimed)
      && (d == Some(Blocked) <==> !i.claimed && action == Some(Block))
      && (d in {Some(NotEvaluated), Some(EvaluationStale), Some(Vulnerable)} <==>
            !i.claimed && action.None? && i.osvEnabled && !CleanScan(i, row.version.value))
  {
    if row.project.None? || row.version.None? {
      return Some(NoIdentity);
    }
    if i.claimed {
      return Some(PrivatelyOwned);
    }
    var version := row.version.value;
    var action := OverrideOn(i, version);
    if action == Some(Allow) {
      return None;
    }
    if action == Some(Block) {
      return Some(Blocked);
    }
    ListingByVersion(i, row);
    if !i.osvEnabled {
      d := AgeDenial(i, map[], row);
      return;
    }
    if i.scan.None? || version !in i.scan.value.scan.advisories {
      return Some(NotEvaluated);
    }
    if Age(i, i.scan.value.scan) >= i.ttl {
      return Some(EvaluationStale);
    }
    if i.scan.value.scan.advisories[version] != {} {
      return Some(Vulnerable);
    }
    d := AgeDenial(i, i.scan.value.scan.advisories, row);
  }

  /** For a row without an override, the merged policy and the gate's own evaluation agree on the files it matches. */
  lemma ListingByVersion(i: Instant, row: Row)
    requires OnlyAllowOrBlock(i.overrides) && row.version.Some? && OverrideOn(i, row.version.value).None?
    ensures Coherent(i.setting.parsing, row) ==>
      ((exists f :: ShownWith(i, GateAdvisories(i), f) && Matches(row, f)) <==>
       (exists f :: f in FilesAt(i) && Matches(row, f) && ShownByFallback(i, GateAdvisories(i), f)))
  {
    if Coherent(i.setting.parsing, row) {
      forall f | f in FilesAt(i) && Matches(row, f)
        ensures ShownWith(i, GateAdvisories(i), f) <==> ShownByFallback(i, GateAdvisories(i), f)
      {
        SilentOverrides(i, GateAdvisories(i), f);
      }
    }
  }

  // ---------- the listing's evaluation, as the code makes it ----------

  /** What a listing evaluates, and the scan that a gate reads right after it: in every case they are related as
      `IsEvaluated` says. */
  method ListingScan(
    cache: AdvisoryCache.AdvisoryCache, enabled: bool, parsing: Parsing, project: string, payload: Payload, now: int,
    ttl: int, service: AdvisoryCache.Service, ghost one: string -> AdvisoryCache.OsvResult)
    returns (status: AdvisoryCache.Status, adv: Advisories, ghost versions: seq<string>, ghost scan: Option<KeyedScan>)
    requires cache.Valid()
    modifies cache
    ensures cache.Valid()
    ensures forall i: Instant |
              && i.setting.parsing == parsing && i.setting.now == now && i.ttl == ttl && i.osvEnabled == enabled
              && i.payload == Some(payload) && i.scan == scan ::
              IsEvaluated(i, versions, status, adv)
  {
    status, adv, versions := cache.Evaluate(enabled, parsing, project, payload, now, ttl, false, service, one);
    var latest;
    ghost var key;
    latest, key := cache.Latest(project);
    scan := if latest.Some? then Some(KeyedScan(key, latest.value)) else None;
  }

  // ---------- the gate refines the listing ----------

  /** With no advisories there is no fallback: what is shown is shown by age and overrides. */
  lemma ShownWithout(i: Instant, f: File)
    ensures ShownWith(i, map[], f) <==>
            f in FilesAt(i) && Shows(EvaluationOf(i.setting, i.allowMissing, i.overrides), f)
  {
    var none: Advisories, nothing: map<string, Action> := map[], map[];
    assert !NeedsFallback(i.setting, none, FilesAt(i));
    assert nothing + i.overrides == i.overrides;
    assert IsFallback(i.setting, none, FilesAt(i), nothing);
    assert IsMerged(i.setting, none, FilesAt(i), i.overrides, i.overrides);
    forall actions | IsMerged(i.setting, none, FilesAt(i), i.overrides, actions) ensures actions == i.overrides {
    }
  }

  /** A file shown for its age or an override is shown under any advisories. */
  lemma ShownAnyway(i: Instant, adv: Advisories, f: File)
    requires OnlyAllowOrBlock(i.overrides) && f in FilesAt(i)
    requires Shows(EvaluationOf(i.setting, i.allowMissing, i.overrides), f)
    ensures ShownWith(i, adv, f)
  {
    var fallback := FallbackExists(i.setting, adv, FilesAt(i));
    var actions := fallback + i.overrides;
    assert IsMerged(i.setting, adv, FilesAt(i), i.overrides, actions);
    assert Shows(EvaluationOf(i.setting, i.allowMissing, actions), f);
  }

  /** Except after an error, listing and gate work with the same advisories whenever there is a file to decide on. */
  lemma SameAdvisories(i: Instant, versions: seq<string>, status: AdvisoryCache.Status, adv: Advisories)
    requires IsEvaluated(i, versions, status, adv) && status !in {AdvisoryCache.Error, AdvisoryCache.Empty}
    ensures adv == GateAdvisories(i)
  {
  }

  /** A listed file with a version has its text among the versions of the listing. */
  lemma VersionListed(
    i: Instant, versions: seq<string>, status: AdvisoryCache.Status, adv: Advisories, f: File)
    requires IsEvaluated(i, versions, status, adv) && f in FilesAt(i) && VersionOf(i.setting.parsing, f).Some?
    ensures VersionOf(i.setting.parsing, f).value.text in versions
    ensures status != AdvisoryCache.Empty
  {
    assert HasText(i.setting.parsing, FilesAt(i), VersionOf(i.setting.parsing, f).value.text);
  }

  ghost predicate IsShown(i: Instant, adv: Advisories, row: Row) {
    exists f :: ShownWith(i, adv, f) && Matches(row, f)
  }

  /** The row's file is in the project at all. */
  ghost predicate IsPresent(i: Instant, row: Row) {
    exists f :: f in FilesAt(i) && Matches(row, f)
  }

  /** ... and is shown by its age alone. */
  ghost predicate IsOld(i: Instant, row: Row) {
    exists f :: f in FilesAt(i) && Matches(row, f)
                && OldEnough(Policy(i.setting.minimumAge, i.allowMissing), i.setting.now, f.uploaded)
  }

  /** The gate refines the listing, exactly. What the gate serves the listing shows, if the project has the file at
      all (an administrator may allow a release the project no longer lists), except after an error: with a scan of
      other versions at hand, the gate may let through by the fallback what the listing hides, so then it is shown
      exactly if its release is allowed or the file is old enough. */
  lemma GateRefinesListing(
    i: Instant, versions: seq<string>, status: AdvisoryCache.Status, adv: Advisories, row: Row)
    requires OnlyAllowOrBlock(i.overrides) && Coherent(i.setting.parsing, row)
    requires IsEvaluated(i, versions, status, adv) && Permitted(i, row)
    ensures
      var allowed := OverrideOn(i, row.version.value) == Some(Allow);
      && (!allowed ==> IsPresent(i, row))
      && (status != AdvisoryCache.Error ==> (IsShown(i, adv, row) <==> IsPresent(i, row)))
      && (status == AdvisoryCache.Error ==>
            (IsShown(i, adv, row) <==> if allowed then IsPresent(i, row) else IsOld(i, row)))
      && (status in {AdvisoryCache.Stale, AdvisoryCache.Empty} ==> allowed)
  {
    var allowed := OverrideOn(i, row.version.value) == Some(Allow);
    forall f | f in FilesAt(i) && Matches(row, f)
      ensures allowed ==> ShownWith(i, adv, f)
      ensures status != AdvisoryCache.Empty
    {
      VersionListed(i, versions, status, adv, f);
      if allowed {
        ShownAnyway(i, adv, f);
      }
    }
    if status == AdvisoryCache.Error {
      forall f | f in FilesAt(i) && Matches(row, f)
        ensures ShownWith(i, adv, f) <==>
                || allowed
                || OldEnough(Policy(i.setting.minimumAge, i.allowMissing), i.setting.now, f.uploaded)
      {
        ShownWithout(i, f);
      }
    } else if status != AdvisoryCache.Empty {
      SameAdvisories(i, versions, status, adv);
    }
  }

  function ExampleFile(uploaded: int, sha256: string): File {
    Dict(Some("p-2.whl"), Some(uploaded), Some(sha256), None, None, {})
  }

  /** Time 100, minimum age 50, fallback age 10, TTL 60, and one file of version 2. */
  function ExampleInstant(file: File, scan: Option<KeyedScan>): Instant {
    Instant(Setting(EXAMPLE, 100, 50, 10), false, true, 60, false, map[], scan, Some(Payload(Some([file]), None)))
  }

  function ExampleRow(sha256: string): Row {
    Row(Some("p"), Some("2"), "p-2.whl", sha256, Some(sha256))
  }

  lemma ExampleVersions(i: Instant, file: File)
    requires i.setting.parsing == EXAMPLE && FilesAt(i) == [file] && file.Dict? && file.filename == Some("p-2.whl")
    ensures IsVersionList(EXAMPLE, FilesAt(i), ["2"])
  {
    assert file in FilesAt(i) && FileText(EXAMPLE, file) == Some("2");
    assert HasText(EXAMPLE, FilesAt(i), "2");
  }

  /** The service fails, and the stored scan is of versions 1 and 2, with an advisory on 1: the gate serves version 2,
      which the listing hides. */
  lemma ErrorServesHidden()
    ensures
      var adv: Advisories := map["1" := {"CVE"}, "2" := {}];
      var i := ExampleInstant(ExampleFile(80, "00"), Some(KeyedScan(["1", "2"], AdvisoryCache.Scan(adv, 90))));
      && IsEvaluated(i, ["2"], AdvisoryCache.Error, map[])
      && Permitted(i, ExampleRow("00"))
      && !IsShown(i, map[], ExampleRow("00"))
  {
    var adv: Advisories := map["1" := {"CVE"}, "2" := {}];
    var f := ExampleFile(80, "00");
    var i := ExampleInstant(f, Some(KeyedScan(["1", "2"], AdvisoryCache.Scan(adv, 90))));
    ExampleVersions(i, f);
    assert f in FilesAt(i);
    ExampleFallback(i, adv, f);
    assert Matches(ExampleRow("00"), f);
    ShownWithout(i, f);
  }

  /** The one file, of age 20, is the fallback as soon as there is an advisory on another version. */
  lemma ExampleFallback(i: Instant, adv: Advisories, f: File)
    requires i == ExampleInstant(f, i.scan) && f == ExampleFile(80, "00")
    requires "1" in adv && adv["1"] != {} && IsClean(adv, Version(2.0, "2"))
    ensures ShownWith(i, adv, f)
  {
    assert AnyAdvisory(adv);
    assert f in FilesAt(i) && FreshSafe(i.setting, adv, f);
    assert IsNewest(i.setting, adv, FilesAt(i), 0);
    var actions: map<string, Action> := map["2" := Fallback];
    assert IsFallback(i.setting, adv, FilesAt(i), actions);
    assert actions + i.overrides == actions;
    assert IsMerged(i.setting, adv, FilesAt(i), i.overrides, actions);
  }

  // ---------- a scan without advisories ----------

  /** Old enough by the clock; files without a time as the setting says. */
  ghost predicate PastMinimumAge(i: Instant, f: File)
    requires f.Dict?
  {
    if f.uploaded.None? then i.allowMissing else f.uploaded.value + i.setting.minimumAge <= i.setting.now
  }

  /** Without an advisory on any version, a listing shows a file exactly if its release is allowed, or it is not blocked
      and past the minimum age: no clean new release is let through early. */
  lemma CleanListing(i: Instant, adv: Advisories, f: File)
    requires OnlyAllowOrBlock(i.overrides) && forall text | text in adv :: adv[text] == {}
    requires f.Dict?
    ensures
      var v := if f.filename.Some? then i.setting.parsing.filename(f.filename.value) else None;
      ShownWith(i, adv, f) <==>
      && f in FilesAt(i)
      && if v.Some? && v.value.text in i.overrides then
           i.overrides[v.value.text] == Allow || (i.overrides[v.value.text] != Block && PastMinimumAge(i, f))
         else PastMinimumAge(i, f)
  {
    ShownWithout(i, f);
    var fallback := FallbackExists(i.setting, adv, FilesAt(i));
    CleanScanNoFallback(i.setting, adv, FilesAt(i), fallback);
    var none: Advisories, nothing: map<string, Action> := map[], map[];
    FallbackUnique(i.setting, adv, FilesAt(i), nothing);
    assert !NeedsFallback(i.setting, none, FilesAt(i));
    assert IsFallback(i.setting, none, FilesAt(i), nothing);
    FallbackUnique(i.setting, none, FilesAt(i), nothing);
    assert forall actions ::
        IsMerged(i.setting, adv, FilesAt(i), i.overrides, actions) <==>
        IsMerged(i.setting, none, FilesAt(i), i.overrides, actions);
  }

  /** And the gate serves an artifact without an override only past the minimum age. */
  lemma CleanGate(i: Instant, row: Row)
    requires OnlyAllowOrBlock(i.overrides) && Coherent(i.setting.parsing, row) && row.project.Some? && row.version.Some?
    requires forall text | text in GateAdvisories(i) :: GateAdvisories(i)[text] == {}
    requires row.version.value !in i.overrides
    ensures Permitted(i, row) <==>
            && !i.claimed
            && (i.osvEnabled ==> CleanScan(i, row.version.value))
            && exists f :: f in FilesAt(i) && Matches(row, f) && PastMinimumAge(i, f)
  {
    forall f | Matches(row, f)
      ensures ShownWith(i, GateAdvisories(i), f) <==> f in FilesAt(i) && PastMinimumAge(i, f)
    {
      CleanListing(i, GateAdvisories(i), f);
    }
  }

  // ---------- links offered by a listing ----------

  /** The row _register_and_rewrite stores for a listed file, under the folded digest. */
  function ArtifactRow(parsing: Parsing, fold: string -> string, project: string, f: File): Row
    requires f.Dict? && f.filename.Some? && f.sha256.Some?
  {
    var v := parsing.filename(f.filename.value);
    var digest := fold(f.sha256.value);
    Row(Some(project), if v.Some? then Some(v.value.text) else None, f.filename.value, digest, Some(digest))
  }

  /** The row of its metadata sidecar. */
  function MetadataRow(parsing: Parsing, fold: string -> string, project: string, f: File): Row
    requires f.Dict? && f.filename.Some? && f.sha256.Some? && f.metadata.Some?
  {
    ArtifactRow(parsing, fold, project, f).(filename := f.filename.value + SUFFIX, verification := f.metadata)
  }

  /** No distribution file name ends in `.metadata`. */
  ghost predicate SidecarsUnparsed(parsing: Parsing) {
    forall name :: IsSidecar(name) ==> parsing.filename(name).None?
  }

  lemma RegisteredRowsCoherent(parsing: Parsing, fold: string -> string, project: string, f: File)
    requires f.Dict? && f.filename.Some? && f.sha256.Some? && SidecarsUnparsed(parsing)
    ensures Coherent(parsing, ArtifactRow(parsing, fold, project, f))
    ensures f.metadata.Some? ==> Coherent(parsing, MetadataRow(parsing, fold, project, f))
  {
    if f.metadata.Some? {
      SidecarParent(f.filename.value);
    }
  }

  lemma SidecarParent(name: string)
    ensures IsSidecar(name + SUFFIX) && Parent(name + SUFFIX) == name
  {
    var sidecar := name + SUFFIX;
    assert sidecar[|sidecar| - |SUFFIX|..] == SUFFIX;
    assert sidecar[..|sidecar| - |SUFFIX|] == name;
  }

  /** Under any evaluation, a listed file is one the gate's advisories show too. */
  lemma ListedForGate(
    i: Instant, versions: seq<string>, status: AdvisoryCache.Status, adv: Advisories, f: File)
    requires OnlyAllowOrBlock(i.overrides) && InListing(i, versions, status, adv, f)
    requires f.Dict? && VersionOf(i.setting.parsing, f).Some?
    ensures ShownWith(i, GateAdvisories(i), f)
    ensures OverrideOn(i, VersionOf(i.setting.parsing, f).value.text) != Some(Block)
  {
    VersionListed(i, versions, status, adv, f);
    if status == AdvisoryCache.Error {
      ShownWithout(i, f);
      ShownAnyway(i, GateAdvisories(i), f);
    } else {
      SameAdvisories(i, versions, status, adv);
    }
    NotBlocked(i, adv, f);
  }

  lemma NotBlocked(i: Instant, adv: Advisories, f: File)
    requires ShownWith(i, adv, f) && f.Dict? && VersionOf(i.setting.parsing, f).Some?
    ensures OverrideOn(i, VersionOf(i.setting.parsing, f).value.text) != Some(Block)
  {
    var text := VersionOf(i.setting.parsing, f).value.text;
    var actions :| IsMerged(i.setting, adv, FilesAt(i), i.overrides, actions) &&
                   Shows(EvaluationOf(i.setting, i.allowMissing, actions), f);
    var fallback :| IsFallback(i.setting, adv, FilesAt(i), fallback) && actions == fallback + i.overrides;
    assert text in i.overrides ==> actions[text] == i.overrides[text];
  }

  /** A file that has a link: named, with a digest in lower case. */
  predicate IsLinked(fold: string -> string, f: File) {
    f.Dict? && f.filename.Some? && f.sha256.Some? && fold(f.sha256.value) == f.sha256.value
  }

  /** When the gate lets through what a listing linked. */
  ghost predicate LinkWorks(i: Instant, f: File) {
    var v := VersionOf(i.setting.parsing, f);
    && !i.claimed && v.Some?
    && (OverrideOn(i, v.value.text) == Some(Allow) || (i.osvEnabled ==> CleanScan(i, v.value.text)))
  }

  /** The rows made from a listed file with a lower-case digest, whatever the listing evaluated: the gate permits them
      exactly when the name is not claimed, the version parses, and the release is allowed or has a clean, strictly
      fresh scan. */
  lemma RowLinkWorks(
    i: Instant, versions: seq<string>, status: AdvisoryCache.Status, adv: Advisories, fold: string -> string,
    project: string, f: File)
    requires OnlyAllowOrBlock(i.overrides) && SidecarsUnparsed(i.setting.parsing)
    requires InListing(i, versions, status, adv, f) && IsLinked(fold, f)
    ensures Permitted(i, ArtifactRow(i.setting.parsing, fold, project, f)) <==> LinkWorks(i, f)
    ensures f.metadata.Some? ==>
              (Permitted(i, MetadataRow(i.setting.parsing, fold, project, f)) <==> LinkWorks(i, f))
  {
    var parsing := i.setting.parsing;
    if VersionOf(parsing, f).Some? {
      assert !IsSidecar(f.filename.value);
      assert Matches(ArtifactRow(parsing, fold, project, f), f);
      if f.metadata.Some? {
        SidecarParent(f.filename.value);
        assert Matches(MetadataRow(parsing, fold, project, f), f);
      }
      ListedForGate(i, versions, status, adv, f);
    }
  }

  /** Without an override, by the status of the listing. A link of a fresh listing fails if its version has an
      advisory, or the scan is exactly as old as the TTL; every link of a stale listing fails; after an error a link
      works only by a scan of other versions that happens to cover its own. */
  lemma LinkByStatus(
    i: Instant, versions: seq<string>, status: AdvisoryCache.Status, adv: Advisories, fold: string -> string,
    project: string, f: File)
    requires OnlyAllowOrBlock(i.overrides) && SidecarsUnparsed(i.setting.parsing)
    requires InListing(i, versions, status, adv, f) && IsLinked(fold, f)
    requires !i.claimed && VersionOf(i.setting.parsing, f).Some?
    requires OverrideOn(i, VersionOf(i.setting.parsing, f).value.text).None?
    ensures
      var text := VersionOf(i.setting.parsing, f).value.text;
      Permitted(i, ArtifactRow(i.setting.parsing, fold, project, f)) <==>
      match status
      case Disabled => true
      case Hit => text in adv && adv[text] == {} && Age(i, i.scan.value.scan) != i.ttl
      case Miss => text in adv && adv[text] == {} && 0 < i.ttl
      case Stale => false
      case Error => CleanScan(i, text) && i.scan.value.key != versions
      case _ => false
    ensures status in {AdvisoryCache.Hit, AdvisoryCache.Miss, AdvisoryCache.Stale} ==>
              VersionOf(i.setting.parsing, f).value.text in adv
  {
    RowLinkWorks(i, versions, status, adv, fold, project, f);
    VersionListed(i, versions, status, adv, f);
  }

  /** Where a fresh listing and the gate part: for a clean file on a hit, at one age of the scan only. */
  lemma GapExactlyAtTtl(
    i: Instant, versions: seq<string>, adv: Advisories, fold: string -> string, project: string, f: File)
    requires OnlyAllowOrBlock(i.overrides) && SidecarsUnparsed(i.setting.parsing)
    requires InListing(i, versions, AdvisoryCache.Hit, adv, f) && IsLinked(fold, f)
    requires
      var v := VersionOf(i.setting.parsing, f);
      !i.claimed && v.Some? && OverrideOn(i, v.value.text).None? && IsClean(adv, v.value)
    ensures !Permitted(i, ArtifactRow(i.setting.parsing, fold, project, f)) <==>
            Age(i, i.scan.value.scan) == i.ttl
  {
    LinkByStatus(i, versions, AdvisoryCache.Hit, adv, fold, project, f);
  }

  /** A clean old file, on a scan of age `age`: shown by a hit at the TTL, and by a stale listing after it, but not
      served by either. */
  lemma OldScanNotServed(age: int)
    requires 60 <= age
    ensures
      var adv: Advisories := map["2" := {}];
      var f := ExampleFile(0, "00");
      var i := ExampleInstant(f, Some(KeyedScan(["2"], AdvisoryCache.Scan(adv, 100 - age))));
      && InListing(i, ["2"], if age == 60 then AdvisoryCache.Hit else AdvisoryCache.Stale, adv, f)
      && !Permitted(i, ExampleRow("00"))
  {
    var adv: Advisories := map["2" := {}];
    var f := ExampleFile(0, "00");
    var i := ExampleInstant(f, Some(KeyedScan(["2"], AdvisoryCache.Scan(adv, 100 - age))));
    ExampleVersions(i, f);
    assert f in FilesAt(i);
    ShownAnyway(i, adv, f);
  }

  /** A listed file whose digest is not written in lower case is denied, unless its release is allowed or the same
      file is shown again with the folded digest. */
  lemma MixedCaseDigest(
    i: Instant, versions: seq<string>, status: AdvisoryCache.Status, adv: Advisories, fold: string -> string,
    project: string, f: File)
    requires OnlyAllowOrBlock(i.overrides) && SidecarsUnparsed(i.setting.parsing)
    requires InListing(i, versions, status, adv, f)
    requires f.Dict? && f.filename.Some? && f.sha256.Some? && fold(f.sha256.value) != f.sha256.value
    requires LinkWorks(i, f)
    ensures
      var text := VersionOf(i.setting.parsing, f).value.text;
      Permitted(i, ArtifactRow(i.setting.parsing, fold, project, f)) <==>
      || OverrideOn(i, text) == Some(Allow)
      || exists g :: && ShownWith(i, GateAdvisories(i), g)
                     && g.Dict? && g.filename == f.filename && g.sha256 == Some(fold(f.sha256.value))
  {
    var row := ArtifactRow(i.setting.parsing, fold, project, f);
    assert !IsSidecar(f.filename.value);
    ListedForGate(i, versions, status, adv, f);
    if g :| ShownWith(i, GateAdvisories(i), g)
            && g.Dict? && g.filename == f.filename && g.sha256 == Some(fold(f.sha256.value)) {
      assert Matches(row, g);
    }
  }

  /** One file, listed with the digest `Ab` and nothing wrong with it, is denied under `ab`. */
  lemma MixedCaseDenied()
    ensures
      var adv: Advisories := map["2" := {}];
      var f := ExampleFile(0, "Ab");
      var i := ExampleInstant(f, Some(KeyedScan(["2"], AdvisoryCache.Scan(adv, 90))));
      && InListing(i, ["2"], AdvisoryCache.Hit, adv, f)
      && LinkWorks(i, f)
      && !Permitted(i, ArtifactRow(EXAMPLE, _ => "ab", "p", f))
  {
    var adv: Advisories := map["2" := {}];
    var f := ExampleFile(0, "Ab");
    var i := ExampleInstant(f, Some(KeyedScan(["2"], AdvisoryCache.Scan(adv, 90))));
    ExampleVersions(i, f);
    assert f in FilesAt(i);
    ShownAnyway(i, adv, f);
  }
}
