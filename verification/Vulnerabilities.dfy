/** Advisories and the automatic fallback of src/wheelguard/vulnerabilities.py: when every release that is
    old enough is known vulnerable, the newest fixed release past a shorter age is let through. */
module Vulnerabilities {
  import opened Prelude
  import opened ReleasePolicy

  /** Advisory identifiers by version text. */
  type Advisories = map<string, set<string>>

  predicate IsClean(adv: Advisories, v: Version) {
    v.text !in adv || adv[v.text] == {}
  }

  predicate AnyAdvisory(adv: Advisories) {
    exists text :: text in adv && adv[text] != {}
  }

  /** The settings of one evaluation that matter here. */
  datatype Setting = Setting(parsing: Parsing, now: int, minimumAge: int, fallbackAge: int)

  /** A file of a parsed version without advisories. */
  predicate CleanFile(s: Setting, adv: Advisories, f: File) {
    f.Dict? && VersionOf(s.parsing, f).Some? && IsClean(adv, VersionOf(s.parsing, f).value)
  }

  function KeyOf(s: Setting, f: File): real
    requires VersionOf(s.parsing, f).Some?
  {
    VersionOf(s.parsing, f).value.key
  }

  /** Past the normal age, where a missing upload time counts as old. */
  predicate AgedSafe(s: Setting, adv: Advisories, f: File) {
    CleanFile(s, adv, f) && (f.uploaded.None? || f.uploaded.value <= s.now - s.minimumAge)
  }

  /** Not yet past the normal age, but past the fallback age. */
  predicate FreshSafe(s: Setting, adv: Advisories, f: File) {
    && CleanFile(s, adv, f)
    && f.uploaded.Some?
    && s.now - s.minimumAge < f.uploaded.value <= s.now - s.fallbackAge
  }

  /** File `i` carries the greatest eligible key, and is the first to carry it. */
  predicate IsNewest(s: Setting, adv: Advisories, files: seq<File>, i: nat) {
    && i < |files|
    && FreshSafe(s, adv, files[i])
    && forall j | 0 <= j < |files| && FreshSafe(s, adv, files[j]) ::
         KeyOf(s, files[j]) < KeyOf(s, files[i]) || (KeyOf(s, files[j]) == KeyOf(s, files[i]) && i <= j)
  }

  predicate NeedsFallback(s: Setting, adv: Advisories, files: seq<File>) {
    && AnyAdvisory(adv)
    && (forall f | f in files :: !AgedSafe(s, adv, f))
    && (exists f | f in files :: FreshSafe(s, adv, f))
  }

  /** The fallback: at most one version, under its first text. */
  ghost predicate IsFallback(s: Setting, adv: Advisories, files: seq<File>, r: map<string, Action>) {
    if NeedsFallback(s, adv, files) then
      exists i: nat ::
        IsNewest(s, adv, files, i) && r == map[VersionOf(s.parsing, files[i]).value.text := Fallback]
    else r == map[]
  }

  lemma NewestUnique(s: Setting, adv: Advisories, files: seq<File>, i: nat, j: nat)
    requires IsNewest(s, adv, files, i) && IsNewest(s, adv, files, j)
    ensures i == j
  {
  }

  // ---------- payload_versions ----------

  function FileText(parsing: Parsing, f: File): Option<string> {
    var v := VersionOf(parsing, f);
    if v.Some? then Some(v.value.text) else None
  }

  predicate Unique(versions: seq<string>) {
    forall i, j | 0 <= i < j < |versions| :: versions[i] != versions[j]
  }

  /** Where a version text sorts. */
  function SortKey(parsing: Parsing, text: string): real {
    var v := parsing.plain(text);
    if v.Some? then v.value.key else 0.0
  }

  predicate Sorted(parsing: Parsing, versions: seq<string>) {
    forall i, j | 0 <= i < j < |versions| :: SortKey(parsing, versions[i]) <= SortKey(parsing, versions[j])
  }

  /** The versions of the files: every text once, and in order. */
  ghost predicate IsVersionList(parsing: Parsing, files: seq<File>, versions: seq<string>) {
    && Unique(versions) && Sorted(parsing, versions)
    && forall text :: text in versions <==> HasText(parsing, files, text)
  }

  ghost predicate HasText(parsing: Parsing, files: seq<File>, text: string) {
    exists f :: f in files && FileText(parsing, f) == Some(text)
  }

  function Insert(parsing: Parsing, versions: seq<string>, text: string): seq<string> {
    if versions == [] then [text]
    else
      var n := |versions| - 1;
      if SortKey(parsing, versions[n]) <= SortKey(parsing, text) then versions + [text]
      else Insert(parsing, versions[..n], text) + [versions[n]]
  }

  lemma {:induction false} InsertAdds(parsing: Parsing, versions: seq<string>, text: string)
    ensures forall t :: t in Insert(parsing, versions, text) <==> t in versions || t == text
  {
    if versions != [] {
      var n := |versions| - 1;
      assert versions == versions[..n] + [versions[n]];
      InsertAdds(parsing, versions[..n], text);
    }
  }

  lemma {:induction false} InsertSorts(parsing: Parsing, versions: seq<string>, text: string)
    requires Sorted(parsing, versions)
    ensures Sorted(parsing, Insert(parsing, versions, text))
  {
    if versions != [] {
      var n := |versions| - 1;
      if SortKey(parsing, text) < SortKey(parsing, versions[n]) {
        InsertSorts(parsing, versions[..n], text);
        InsertAdds(parsing, versions[..n], text);
        var r := Insert(parsing, versions[..n], text);
        forall i | 0 <= i < |r| ensures SortKey(parsing, r[i]) <= SortKey(parsing, versions[n]) {
          assert r[i] in r;
        }
      }
    }
  }

  lemma {:induction false} InsertUnique(parsing: Parsing, versions: seq<string>, text: string)
    requires Unique(versions) && text !in versions
    ensures Unique(Insert(parsing, versions, text))
  {
    if versions != [] {
      var n := |versions| - 1;
      assert versions[n] in versions && forall t | t in versions[..n] :: t in versions;
      InsertUnique(parsing, versions[..n], text);
      InsertAdds(parsing, versions[..n], text);
      var r := Insert(parsing, versions[..n], text);
      forall i | 0 <= i < |r| ensures r[i] != versions[n] {
        assert r[i] in r;
      }
    }
  }

  /** payload_versions */
  method PayloadVersions(parsing: Parsing, payload: Payload) returns (versions: seq<string>)
    ensures IsVersionList(parsing, FilesOf(payload), versions)
    ensures forall i, j | 0 <= i < j < |versions| && parsing.plain(versions[i]).Some? && parsing.plain(versions[j]).Some? ::
              parsing.plain(versions[i]).value.key <= parsing.plain(versions[j]).value.key
  {
    var files := FilesOf(payload);
    versions := [];
    for i := 0 to |files|
      invariant IsVersionList(parsing, files[..i], versions)
    {
      var text := FileText(parsing, files[i]);
      assert files[..i + 1] == files[..i] + [files[i]];
      forall t ensures HasText(parsing, files[..i + 1], t) <==> HasText(parsing, files[..i], t) || text == Some(t) {
        TextSnoc(parsing, files, i, t);
      }
      if text.Some? && text.value !in versions {
        InsertAdds(parsing, versions, text.value);
        InsertSorts(parsing, versions, text.value);
        InsertUnique(parsing, versions, text.value);
        versions := Insert(parsing, versions, text.value);
      }
    }
    assert files[..|files|] == files;
  }

  lemma TextSnoc(parsing: Parsing, files: seq<File>, i: nat, t: string)
    requires i < |files|
    ensures HasText(parsing, files[..i + 1], t) <==>
            HasText(parsing, files[..i], t) || FileText(parsing, files[i]) == Some(t)
  {
    assert files[..i + 1] == files[..i] + [files[i]];
    assert files[i] in files[..i + 1];
    if f :| f in files[..i] && FileText(parsing, f) == Some(t) {
      assert f in files[..i + 1];
    }
  }

  // ---------- automatic_fixed_version_allows ----------

  predicate Carries(vs: seq<Version>, key: real) {
    exists v :: v in vs && v.key == key
  }

  /** A set of versions keeps the first of equal ones. */
  function AddVersion(vs: seq<Version>, v: Version): seq<Version> {
    if Carries(vs, v.key) then vs else vs + [v]
  }

  /** File `i` is the first eligible file of its key. */
  predicate IsFirst(s: Setting, adv: Advisories, files: seq<File>, i: nat) {
    && i < |files|
    && FreshSafe(s, adv, files[i])
    && forall j | 0 <= j < i && FreshSafe(s, adv, files[j]) :: KeyOf(s, files[j]) != KeyOf(s, files[i])
  }

  ghost predicate FromFirst(s: Setting, adv: Advisories, files: seq<File>, v: Version) {
    exists i: nat :: IsFirst(s, adv, files, i) && VersionOf(s.parsing, files[i]) == Some(v)
  }

  /** `vs` has exactly the eligible keys among the files, each under its first text. */
  ghost predicate Collected(s: Setting, adv: Advisories, files: seq<File>, vs: seq<Version>) {
    && (forall v | v in vs :: FromFirst(s, adv, files, v))
    && (forall i: nat | i < |files| && FreshSafe(s, adv, files[i]) :: Carries(vs, KeyOf(s, files[i])))
  }

  lemma FirstStays(s: Setting, adv: Advisories, files: seq<File>, n: nat, v: Version)
    requires n < |files| && FromFirst(s, adv, files[..n], v)
    ensures FromFirst(s, adv, files[..n + 1], v)
  {
    var before, after := files[..n], files[..n + 1];
    var i: nat :| IsFirst(s, adv, before, i) && VersionOf(s.parsing, before[i]) == Some(v);
    assert after[i] == before[i];
    forall j | 0 <= j < i && FreshSafe(s, adv, after[j]) ensures KeyOf(s, after[j]) != KeyOf(s, after[i]) {
      assert after[j] == before[j];
    }
    assert IsFirst(s, adv, after, i);
  }

  lemma NewKeyIsFirst(s: Setting, adv: Advisories, files: seq<File>, n: nat, vs: seq<Version>)
    requires n < |files| && Collected(s, adv, files[..n], vs)
    requires FreshSafe(s, adv, files[n]) && !Carries(vs, KeyOf(s, files[n]))
    ensures FromFirst(s, adv, files[..n + 1], VersionOf(s.parsing, files[n]).value)
  {
    var before, after := files[..n], files[..n + 1];
    forall j | 0 <= j < n && FreshSafe(s, adv, after[j]) ensures KeyOf(s, after[j]) != KeyOf(s, files[n]) {
      assert before[j] == after[j];
    }
    assert IsFirst(s, adv, after, n);
  }

  lemma CollectSnoc(s: Setting, adv: Advisories, files: seq<File>, n: nat, vs: seq<Version>, after: seq<Version>)
    requires n < |files| && Collected(s, adv, files[..n], vs)
    requires after == if FreshSafe(s, adv, files[n]) then AddVersion(vs, VersionOf(s.parsing, files[n]).value) else vs
    ensures Collected(s, adv, files[..n + 1], after)
  {
    forall v | v in after ensures FromFirst(s, adv, files[..n + 1], v) {
      if v in vs {
        FirstStays(s, adv, files, n, v);
      } else {
        NewKeyIsFirst(s, adv, files, n, vs);
      }
    }
    forall i: nat | i <= n && FreshSafe(s, adv, files[i]) ensures Carries(after, KeyOf(s, files[i])) {
      if i < n {
        assert files[..n][i] == files[i];
        var w :| w in vs && w.key == KeyOf(s, files[i]);
        assert w in after;
      } else if after != vs {
        assert after[|vs|] == VersionOf(s.parsing, files[n]).value;
      }
    }
  }

  /** The maximum of a non-empty set of versions. */
  method Newest(vs: seq<Version>) returns (newest: Version)
    requires vs != []
    ensures newest in vs && forall v | v in vs :: v.key <= newest.key
  {
    newest := vs[0];
    for i := 1 to |vs|
      invariant newest in vs && forall j | 0 <= j < i :: vs[j].key <= newest.key
    {
      if newest.key < vs[i].key {
        newest := vs[i];
      }
    }
  }

  /** automatic_fixed_version_allows: the loop, the two sets, and the maximum. */
  method AutomaticFixedVersionAllows(s: Setting, adv: Advisories, files: seq<File>) returns (r: map<string, Action>)
    ensures IsFallback(s, adv, files, r)
    ensures (forall text | text in adv :: adv[text] == {}) ==> r == map[]
  {
    if !AnyAdvisory(adv) {
      return map[];
    }
    var aged, recent := Collect(s, adv, files);
    if aged || recent == [] {
      FallbackUnneeded(s, adv, files, recent, aged);
      return map[];
    }
    var newest := Newest(recent);
    NewestIsFallback(s, adv, files, recent, newest);
    return map[newest.text := Fallback];
  }

  ghost predicate AnyAged(s: Setting, adv: Advisories, files: seq<File>) {
    exists f :: f in files && AgedSafe(s, adv, f)
  }

  lemma AgedSnoc(s: Setting, adv: Advisories, files: seq<File>, n: nat)
    requires n < |files|
    ensures AnyAged(s, adv, files[..n + 1]) <==> AnyAged(s, adv, files[..n]) || AgedSafe(s, adv, files[n])
  {
    assert files[..n + 1] == files[..n] + [files[n]];
    assert files[n] in files[..n + 1];
    if f :| f in files[..n] && AgedSafe(s, adv, f) {
      assert f in files[..n + 1];
    }
  }

  /** The loop: is any clean file aged, and which eligible versions are there? */
  method Collect(s: Setting, adv: Advisories, files: seq<File>) returns (aged: bool, recent: seq<Version>)
    ensures aged <==> AnyAged(s, adv, files)
    ensures Collected(s, adv, files, recent)
  {
    aged, recent := false, [];
    assert files[..0] == [];
    for n := 0 to |files|
      invariant aged <==> AnyAged(s, adv, files[..n])
      invariant Collected(s, adv, files[..n], recent)
    {
      var file := files[n];
      ghost var before := recent;
      if file.Dict? {
        var version := VersionOf(s.parsing, file);
        if version.Some? && IsClean(adv, version.value) {
          if file.uploaded.None? || file.uploaded.value <= s.now - s.minimumAge {
            aged := true;
          } else if file.uploaded.value <= s.now - s.fallbackAge {
            recent := AddVersion(recent, version.value);
          }
        }
      }
      CollectSnoc(s, adv, files, n, before, recent);
      AgedSnoc(s, adv, files, n);
    }
    assert files[..|files|] == files;
  }

  lemma FallbackUnneeded(s: Setting, adv: Advisories, files: seq<File>, recent: seq<Version>, aged: bool)
    requires Collected(s, adv, files, recent) && (aged || recent == [])
    requires aged ==> AnyAged(s, adv, files)
    ensures !NeedsFallback(s, adv, files)
  {
    if aged {
      var f :| f in files && AgedSafe(s, adv, f);
    } else {
      forall f | f in files ensures !FreshSafe(s, adv, f) {
        var i: nat :| i < |files| && files[i] == f;
        assert FreshSafe(s, adv, files[i]) ==> Carries(recent, KeyOf(s, files[i]));
      }
    }
  }

  lemma NewestIsFallback(s: Setting, adv: Advisories, files: seq<File>, recent: seq<Version>, newest: Version)
    requires AnyAdvisory(adv) && !AnyAged(s, adv, files)
    requires Collected(s, adv, files, recent)
    requires newest in recent && forall v | v in recent :: v.key <= newest.key
    ensures IsFallback(s, adv, files, map[newest.text := Fallback])
  {
    assert FromFirst(s, adv, files, newest);
    var i: nat :| IsFirst(s, adv, files, i) && VersionOf(s.parsing, files[i]) == Some(newest);
    forall j: nat | j < |files| && FreshSafe(s, adv, files[j])
      ensures KeyOf(s, files[j]) < newest.key || (KeyOf(s, files[j]) == newest.key && i <= j)
    {
      assert Carries(recent, KeyOf(s, files[j]));
    }
    assert IsNewest(s, adv, files, i);
    assert FreshSafe(s, adv, files[i]) && files[i] in files;
  }

  // ---------- the fallback in terms of advisories, times and versions ----------

  /** A file of a version on which the scan has nothing. */
  ghost predicate OfCleanVersion(s: Setting, adv: Advisories, f: File) {
    && f.Dict? && f.filename.Some? && s.parsing.filename(f.filename.value).Some?
    && var text := s.parsing.filename(f.filename.value).value.text;
    text in adv ==> adv[text] == {}
  }

  /** Untimed, or uploaded at least the minimum age ago. */
  ghost predicate IsAged(s: Setting, f: File)
    requires f.Dict?
  {
    f.uploaded.Some? ==> f.uploaded.value + s.minimumAge <= s.now
  }

  /** Uploaded at least the fallback age ago, but not yet the minimum age. */
  ghost predicate IsRecent(s: Setting, f: File)
    requires f.Dict?
  {
    f.uploaded.Some? && f.uploaded.value + s.fallbackAge <= s.now < f.uploaded.value + s.minimumAge
  }

  /** There is a fallback exactly if some version has an advisory, some recent file is of a clean version, and no aged one
      is. It is the text of a recent clean file than whose version no other such file's is newer. */
  lemma FallbackInWords(s: Setting, adv: Advisories, files: seq<File>, r: map<string, Action>)
    requires IsFallback(s, adv, files, r)
    ensures r != map[] <==>
            && (exists text, id: string :: text in adv && id in adv[text])
            && (exists f :: f in files && OfCleanVersion(s, adv, f) && IsRecent(s, f))
            && (forall f | f in files && OfCleanVersion(s, adv, f) :: !IsAged(s, f))
    ensures r != map[] ==>
            exists f ::
              && f in files && OfCleanVersion(s, adv, f) && IsRecent(s, f)
              && r == map[s.parsing.filename(f.filename.value).value.text := Fallback]
              && forall g | g in files && OfCleanVersion(s, adv, g) && IsRecent(s, g) ::
                   s.parsing.filename(g.filename.value).value.key <= s.parsing.filename(f.filename.value).value.key
  {
    forall f ensures FreshSafe(s, adv, f) <==> OfCleanVersion(s, adv, f) && IsRecent(s, f) {
    }
    forall f ensures AgedSafe(s, adv, f) <==> OfCleanVersion(s, adv, f) && IsAged(s, f) {
    }
    assert AnyAdvisory(adv) <==> exists text, id: string :: text in adv && id in adv[text] by {
      forall text | text in adv && adv[text] != {} ensures exists id: string :: id in adv[text] {
        var id :| id in adv[text];
      }
    }
    if NeedsFallback(s, adv, files) {
      var i: nat :| IsNewest(s, adv, files, i) && r == map[VersionOf(s.parsing, files[i]).value.text := Fallback];
      assert files[i] in files && VersionOf(s.parsing, files[i]).value.text in r;
    }
  }

  /** A scan that found nothing lets nothing through. */
  lemma CleanScanNoFallback(s: Setting, adv: Advisories, files: seq<File>, r: map<string, Action>)
    requires IsFallback(s, adv, files, r) && forall text | text in adv :: adv[text] == {}
    ensures r == map[]
  {
    FallbackInWords(s, adv, files, r);
  }

  // ---------- merged with the administrator's overrides ----------

  /** What the listing applies: the fallback, overridden by version text. */
  ghost predicate IsMerged(
    s: Setting, adv: Advisories, files: seq<File>, overrides: map<string, Action>, actions: map<string, Action>)
  {
    exists fallback :: IsFallback(s, adv, files, fallback) && actions == fallback + overrides
  }

  predicate OnlyAllowOrBlock(overrides: map<string, Action>) {
    forall text | text in overrides :: overrides[text] in {Allow, Block}
  }

  function EvaluationOf(s: Setting, allowMissing: bool, actions: map<string, Action>): Evaluation {
    Evaluation(s.parsing, Policy(s.minimumAge, allowMissing), s.now, actions, Some(s.fallbackAge))
  }

  /** File `f` is let through by the fallback alone: its version text is that of the one newest eligible
      file, and it is itself clean and past the fallback age. */
  ghost predicate IsFallbackFile(s: Setting, adv: Advisories, files: seq<File>, f: File) {
    && NeedsFallback(s, adv, files)
    && FreshSafe(s, adv, f)
    && exists i: nat :: IsNewest(s, adv, files, i) && TextOf(s, files[i]) == TextOf(s, f)
  }

  function TextOf(s: Setting, f: File): Option<string> {
    FileText(s.parsing, f)
  }

  /** Fallback soundness, and its converse: among files of parsed versions the merged listing shows exactly
      those not blocked that are allowed, old enough, or fallback files no override speaks about. */
  lemma FallbackSound(
      s: Setting, adv: Advisories, files: seq<File>, overrides: map<string, Action>, actions: map<string, Action>,
      allowMissing: bool, f: File)
    requires OnlyAllowOrBlock(overrides) && IsMerged(s, adv, files, overrides, actions)
    requires f in files && f.Dict? && VersionOf(s.parsing, f).Some?
    ensures
      var override := ActionOn(overrides, VersionOf(s.parsing, f));
      Shows(EvaluationOf(s, allowMissing, actions), f) <==>
      || override == Some(Allow)
      || (override != Some(Block) && OldEnough(Policy(s.minimumAge, allowMissing), s.now, f.uploaded))
      || (override.None? && IsFallbackFile(s, adv, files, f))
  {
    var v := VersionOf(s.parsing, f).value;
    var fallback :| IsFallback(s, adv, files, fallback) && actions == fallback + overrides;
    if NeedsFallback(s, adv, files) {
      var i: nat :| IsNewest(s, adv, files, i) && fallback == map[VersionOf(s.parsing, files[i]).value.text := Fallback];
      assert IsClean(adv, VersionOf(s.parsing, files[i]).value);
      forall j: nat | IsNewest(s, adv, files, j) ensures j == i {
        NewestUnique(s, adv, files, i, j);
      }
      assert v.text in fallback <==> TextOf(s, files[i]) == TextOf(s, f);
    }
  }

  /** When the fallback applies, no aged clean file exists and no eligible version is newer than it. */
  lemma FallbackIsNewest(s: Setting, adv: Advisories, files: seq<File>, f: File, g: File)
    requires IsFallbackFile(s, adv, files, f) && f in files && g in files
    requires forall a, b | a in files && b in files && TextOf(s, a).Some? && TextOf(s, a) == TextOf(s, b) ::
               KeyOf(s, a) == KeyOf(s, b)
    ensures !AgedSafe(s, adv, g)
    ensures FreshSafe(s, adv, g) ==> KeyOf(s, g) <= KeyOf(s, f)
  {
    var i: nat :| IsNewest(s, adv, files, i) && TextOf(s, files[i]) == TextOf(s, f);
    var j :| 0 <= j < |files| && files[j] == g;
    assert files[i] in files;
  }

  // ---------- availability ----------

  ghost predicate OffersClean(s: Setting, adv: Advisories, files: seq<File>, allowMissing: bool, actions: map<string, Action>)
  {
    exists f :: f in files && CleanFile(s, adv, f) && Shows(EvaluationOf(s, allowMissing, actions), f)
  }

  /** Availability, exactly: without overrides, given an advisory and a clean file past the fallback age, the
      listing offers a clean file unless missing upload times get in the way: some clean file is untimed and
      the policy hides untimed files, while no timed clean file is old enough. */
  lemma FallbackAvailable(
      s: Setting, adv: Advisories, files: seq<File>, actions: map<string, Action>, allowMissing: bool, past: File)
    requires IsMerged(s, adv, files, map[], actions) && AnyAdvisory(adv)
    requires past in files && CleanFile(s, adv, past)
    requires past.uploaded.Some? && past.uploaded.value <= s.now - s.fallbackAge
    ensures
      OffersClean(s, adv, files, allowMissing, actions) <==>
      || allowMissing
      || (forall f | f in files && CleanFile(s, adv, f) :: f.uploaded.Some?)
      || (exists f | f in files && CleanFile(s, adv, f) :: f.uploaded.Some? && f.uploaded.value <= s.now - s.minimumAge)
  {
    var e := EvaluationOf(s, allowMissing, actions);
    var none: map<string, Action> := map[];
    assert OnlyAllowOrBlock(none);
    forall f | f in files && f.Dict? && VersionOf(s.parsing, f).Some?
      ensures Shows(e, f) <==>
              OldEnough(Policy(s.minimumAge, allowMissing), s.now, f.uploaded) || IsFallbackFile(s, adv, files, f)
    {
      FallbackSound(s, adv, files, none, actions, allowMissing, f);
    }
    if forall f | f in files :: !AgedSafe(s, adv, f) {
      assert FreshSafe(s, adv, past);
      var fallback :| IsFallback(s, adv, files, fallback) && actions == fallback + none;
      var i: nat :| IsNewest(s, adv, files, i) && fallback == map[VersionOf(s.parsing, files[i]).value.text := Fallback];
      assert files[i] in files && IsFallbackFile(s, adv, files, files[i]);
    } else {
      var f :| f in files && AgedSafe(s, adv, f);
    }
  }

  /** Parsing of two file names, for examples. */
  const EXAMPLE: Parsing :=
    Parsing(name => if name == "p-2.whl" then Some(Version(2.0, "2"))
                    else if name == "p-3.whl" then Some(Version(3.0, "3")) else None,
            text => if text == "2" then Some(Version(2.0, "2"))
                    else if text == "3" then Some(Version(3.0, "3")) else None)

  /** The listing left without a clean file: an untimed clean file suppresses the fallback to the fresh clean one, and
      is itself hidden. */
  lemma UntimedSuppressesFallback(actions: map<string, Action>)
    ensures
      var s := Setting(EXAMPLE, 100, 50, 10);
      var adv: Advisories := map["1" := {"CVE"}];
      var untimed := Dict(Some("p-2.whl"), None, None, None, None, {});
      var recent := Dict(Some("p-3.whl"), Some(80), None, None, None, {});
      && AnyAdvisory(adv) && CleanFile(s, adv, untimed) && CleanFile(s, adv, recent)
      && recent.uploaded.value <= s.now - s.fallbackAge
      && IsMerged(s, adv, [untimed, recent], map[], map[])
      && (IsMerged(s, adv, [untimed, recent], map[], actions) ==>
            !OffersClean(s, adv, [untimed, recent], false, actions))
  {
    var s := Setting(EXAMPLE, 100, 50, 10);
    var adv: Advisories := map["1" := {"CVE"}];
    var untimed := Dict(Some("p-2.whl"), None, None, None, None, {});
    var recent := Dict(Some("p-3.whl"), Some(80), None, None, None, {});
    var files := [untimed, recent];
    assert adv["1"] == {"CVE"} && "CVE" in adv["1"];
    assert files[0] == untimed && files[1] == recent;
    var none: map<string, Action> := map[];
    assert AgedSafe(s, adv, files[0]) && IsFallback(s, adv, files, none) && none + none == none;
    if IsMerged(s, adv, files, map[], actions) {
      FallbackAvailable(s, adv, files, actions, false, recent);
    }
  }

  // ---------- marking known-vulnerable files ----------

  /** The yank reason: `describe` renders the identifiers, and an existing reason is kept in front. */
  function Mark(parsing: Parsing, describe: set<string> -> string, adv: Advisories, f: File): File {
    var v := VersionOf(parsing, f);
    if v.None? || IsClean(adv, v.value) then f
    else
      var ids := adv[v.value.text];
      f.(yanked := Some(if f.yanked.Some? && f.yanked.value != "" then f.yanked.value + "; " + describe(ids)
                        else describe(ids)),
         advisories := ids)
  }

  /** apply_advisories on a list of files */
  method ApplyAdvisories(parsing: Parsing, describe: set<string> -> string, adv: Advisories, files: seq<File>)
    returns (r: seq<File>)
    ensures |r| == |files| && forall i | 0 <= i < |files| :: r[i] == Mark(parsing, describe, adv, files[i])
  {
    r := files;
    for i := 0 to |files|
      invariant |r| == |files|
      invariant forall j | 0 <= j < i :: r[j] == Mark(parsing, describe, adv, files[j])
      invariant forall j | i <= j < |files| :: r[j] == files[j]
    {
      var file := r[i];
      if file.Dict? {
        var version := VersionOf(parsing, file);
        if version.Some? && version.value.text in adv && adv[version.value.text] != {} {
          var ids := adv[version.value.text];
          var reason := describe(ids);
          if file.yanked.Some? && file.yanked.value != "" {
            reason := file.yanked.value + "; " + reason;
          }
          r := r[i := file.(yanked := Some(reason), advisories := ids)];
        }
      }
    }
  }

  /** The mark, in words: a file of a version with identifiers says so after any reason of its own, and carries them;
      every other file is as it was, and nothing else of a file changes. */
  lemma MarkInWords(parsing: Parsing, describe: set<string> -> string, adv: Advisories, f: File)
    ensures
      var g := Mark(parsing, describe, adv, f);
      var v := if f.Dict? && f.filename.Some? then parsing.filename(f.filename.value) else None;
      if v.Some? && v.value.text in adv && adv[v.value.text] != {} then
        && g.Dict? && g.filename == f.filename && g.uploaded == f.uploaded && g.sha256 == f.sha256
        && g.metadata == f.metadata
        && g.advisories == adv[v.value.text]
        && (f.yanked in {None, Some("")} ==> g.yanked == Some(describe(adv[v.value.text])))
        && (f.yanked !in {None, Some("")} ==> g.yanked == Some(f.yanked.value + "; " + describe(adv[v.value.text])))
      else g == f
  {
  }

  /** Marked files stay available: neither the policy nor the fallback looks at the mark. */
  lemma MarkingHidesNothing(
      s: Setting, describe: set<string> -> string, adv: Advisories, files: seq<File>, marked: seq<File>,
      actions: map<string, Action>, e: Evaluation)
    requires |marked| == |files|
    requires forall i | 0 <= i < |files| :: marked[i] == Mark(s.parsing, describe, adv, files[i])
    requires e.parsing == s.parsing
    ensures forall i | 0 <= i < |files| :: Shows(e, marked[i]) == Shows(e, files[i])
    ensures IsFallback(s, adv, marked, actions) <==> IsFallback(s, adv, files, actions)
  {
    forall i | 0 <= i < |files|
      ensures AgedSafe(s, adv, marked[i]) == AgedSafe(s, adv, files[i])
      ensures FreshSafe(s, adv, marked[i]) == FreshSafe(s, adv, files[i])
      ensures VersionOf(s.parsing, marked[i]) == VersionOf(s.parsing, files[i])
    {
    }
    if NeedsFallback(s, adv, files) {
      SameNeed(s, adv, files, marked);
    }
    if NeedsFallback(s, adv, marked) {
      SameNeed(s, adv, marked, files);
    }
    forall i: nat ensures IsNewest(s, adv, marked, i) == IsNewest(s, adv, files, i) {
    }
  }

  lemma SameNeed(s: Setting, adv: Advisories, a: seq<File>, b: seq<File>)
    requires |a| == |b| && NeedsFallback(s, adv, a)
    requires forall i | 0 <= i < |a| :: AgedSafe(s, adv, a[i]) == AgedSafe(s, adv, b[i])
    requires forall i | 0 <= i < |a| :: FreshSafe(s, adv, a[i]) == FreshSafe(s, adv, b[i])
    ensures NeedsFallback(s, adv, b)
  {
    var f :| f in a && FreshSafe(s, adv, f);
    var k :| 0 <= k < |a| && a[k] == f;
    assert b[k] in b;
    forall g | g in b ensures !AgedSafe(s, adv, g) {
      var i :| 0 <= i < |b| && b[i] == g;
      assert a[i] in a;
    }
  }
}
