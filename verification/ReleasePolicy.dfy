/** The publication-age policy of src/wheelguard/policy.py, with administrator overrides.

    A version has an ordering key and a text: `1.0` and `1.0.0` share a key but not a text. Overrides go by
    text, the sets of hidden and visible versions by key. Keys are reals, into which every countable total
    order embeds. */
module ReleasePolicy {
  import opened Prelude

  datatype Version = Version(key: real, text: string)

  /** PEP 440 parsing, of a distribution file name and of a plain version. */
  datatype Parsing = Parsing(filename: string -> Option<Version>, plain: string -> Option<Version>)

  /** One entry of a project's file list; entries that are not objects pass through untouched. */
  datatype File =
    | NotDict
    | Dict(
        filename: Option<string>,
        uploaded: Option<int>,      // the upload time, if it is a valid aware timestamp
        sha256: Option<string>,     // hashes.sha256, if it is a string
        metadata: Option<string>,   // the normalized core-metadata digest, if there is a valid one
        yanked: Option<string>,
        advisories: set<string>)

  datatype Listed = NotString | Text(raw: string)

  /** `None` where the document has something else than a list. */
  datatype Payload = Payload(files: Option<seq<File>>, versions: Option<seq<Listed>>)

  datatype Action = Allow | Block | Fallback

  datatype Policy = Policy(minimumAge: int, allowMissing: bool)

  datatype PolicyResult = PolicyResult(payload: Payload, visibleFiles: nat, hiddenFiles: nat)

  /** One evaluation: the policy, the clock, the actions by version text, and the fallback age. */
  datatype Evaluation = Evaluation(
    parsing: Parsing,
    policy: Policy,
    now: int,
    actions: map<string, Action>,
    fallbackAge: Option<int>)

  function VersionOf(parsing: Parsing, f: File): Option<Version> {
    if f.Dict? && f.filename.Some? then parsing.filename(f.filename.value) else None
  }

  function ActionOn(actions: map<string, Action>, v: Option<Version>): Option<Action> {
    if v.Some? && v.value.text in actions then Some(actions[v.value.text]) else None
  }

  predicate OldEnough(policy: Policy, now: int, uploaded: Option<int>) {
    if uploaded.None? then policy.allowMissing else uploaded.value <= now - policy.minimumAge
  }

  predicate FallbackAllows(e: Evaluation, action: Option<Action>, uploaded: Option<int>) {
    && action == Some(Fallback)
    && e.fallbackAge.Some?
    && uploaded.Some?
    && uploaded.value <= e.now - e.fallbackAge.value
  }

  /** Blocks win; allows bypass age; everything else goes by age, or by the fallback age. */
  predicate Shows(e: Evaluation, f: File) {
    f.NotDict? ||
    var action := ActionOn(e.actions, VersionOf(e.parsing, f));
    && action != Some(Block)
    && (action == Some(Allow) || OldEnough(e.policy, e.now, f.uploaded) || FallbackAllows(e, action, f.uploaded))
  }

  function Filter<T>(xs: seq<T>, keep: T -> bool): seq<T> {
    if xs == [] then []
    else
      var last := xs[|xs| - 1];
      Filter(xs[..|xs| - 1], keep) + if keep(last) then [last] else []
  }

  function FilesOf(p: Payload): seq<File> {
    if p.files.Some? then p.files.value else []
  }

  /** Ordering keys of the parsed files that are shown, or that are hidden. */
  function Keys(e: Evaluation, files: seq<File>, shown: bool): set<real> {
    set f | f in files && f.Dict? && VersionOf(e.parsing, f).Some? && Shows(e, f) == shown ::
      VersionOf(e.parsing, f).value.key
  }

  predicate OnlyHidden(parsing: Parsing, l: Listed, hidden: set<real>, visible: set<real>) {
    && l.Text?
    && parsing.plain(l.raw).Some?
    && parsing.plain(l.raw).value.key in hidden
    && parsing.plain(l.raw).value.key !in visible
  }

  function KeptVersions(parsing: Parsing, versions: seq<Listed>, hidden: set<real>, visible: set<real>): seq<Listed> {
    Filter(versions, l => !OnlyHidden(parsing, l, hidden, visible))
  }

  /** The policy as a function: filter the files, then the versions. */
  function Apply(e: Evaluation, p: Payload): PolicyResult {
    var files := FilesOf(p);
    var visible := Filter(files, f => Shows(e, f));
    var versions := match p.versions
                    case None => None
                    case Some(vs) => Some(KeptVersions(e.parsing, vs, Keys(e, files, false), Keys(e, files, true)));
    FilterLength(files, f => Shows(e, f));
    PolicyResult(Payload(Some(visible), versions), |visible|, |files| - |visible|)
  }

  // ---------- the two policies, as the source computes them ----------

  /** ReleasePolicy.apply */
  method ApplyRelease(e: Evaluation, p: Payload) returns (r: PolicyResult)
    ensures r == Apply(e, p)
  {
    var files := FilesOf(p);
    var visible: seq<File> := [];
    var hiddenVersions: set<real>, visibleVersions: set<real> := {}, {};
    FilterLength(files, f => Shows(e, f));
    assert files[..0] == [];
    for i := 0 to |files|
      invariant visible == Filter(files[..i], f => Shows(e, f))
      invariant hiddenVersions == Keys(e, files[..i], false)
      invariant visibleVersions == Keys(e, files[..i], true)
    {
      var file := files[i];
      FilterSnoc(files, i, f => Shows(e, f));
      KeysSnoc(e, files, i);
      if file.NotDict? {
        visible := visible + [file];
      } else {
        var version := VersionOf(e.parsing, file);
        var action := ActionOn(e.actions, version);
        if action == Some(Block) {
          if version.Some? {
            hiddenVersions := hiddenVersions + {version.value.key};
          }
        } else {
          var ageAllows := if file.uploaded.None? then e.policy.allowMissing
                           else file.uploaded.value <= e.now - e.policy.minimumAge;
          var fallbackAllows := action == Some(Fallback) && e.fallbackAge.Some? && file.uploaded.Some? &&
                                file.uploaded.value <= e.now - e.fallbackAge.value;
          if action == Some(Allow) || ageAllows || fallbackAllows {
            visible := visible + [file];
            if version.Some? {
              visibleVersions := visibleVersions + {version.value.key};
            }
          } else if version.Some? {
            hiddenVersions := hiddenVersions + {version.value.key};
          }
        }
      }
    }
    assert files[..|files|] == files;
    var versions := match p.versions
                    case None => None
                    case Some(vs) => Some(KeptVersions(e.parsing, vs, hiddenVersions, visibleVersions));
    r := PolicyResult(Payload(Some(visible), versions), |visible|, |files| - |visible|);
  }

  function AgeOnly(parsing: Parsing, policy: Policy, now: int): Evaluation {
    Evaluation(parsing, policy, now, map[], None)
  }

  /** MinimumAgePolicy.apply computes the release policy without overrides. */
  method ApplyMinimumAge(parsing: Parsing, policy: Policy, now: int, p: Payload) returns (r: PolicyResult)
    ensures r == Apply(AgeOnly(parsing, policy, now), p)
  {
    ghost var e := AgeOnly(parsing, policy, now);
    var files := FilesOf(p);
    var visible: seq<File> := [];
    var hiddenVersions: set<real>, visibleVersions: set<real> := {}, {};
    FilterLength(files, f => Shows(e, f));
    assert files[..0] == [];
    for i := 0 to |files|
      invariant visible == Filter(files[..i], f => Shows(e, f))
      invariant hiddenVersions == Keys(e, files[..i], false)
      invariant visibleVersions == Keys(e, files[..i], true)
    {
      var file := files[i];
      FilterSnoc(files, i, f => Shows(e, f));
      KeysSnoc(e, files, i);
      if file.NotDict? {
        visible := visible + [file];
      } else {
        var version := VersionOf(parsing, file);
        if OldEnough(policy, now, file.uploaded) {
          visible := visible + [file];
          if version.Some? {
            visibleVersions := visibleVersions + {version.value.key};
          }
        } else if version.Some? {
          hiddenVersions := hiddenVersions + {version.value.key};
        }
      }
    }
    assert files[..|files|] == files;
    var versions := match p.versions
                    case None => None
                    case Some(vs) => Some(KeptVersions(parsing, vs, hiddenVersions, visibleVersions));
    r := PolicyResult(Payload(Some(visible), versions), |visible|, |files| - |visible|);
  }

  // ---------- filtering ----------

  lemma {:induction false} FilterLength<T>(xs: seq<T>, keep: T -> bool)
    ensures |Filter(xs, keep)| <= |xs|
  {
    if xs != [] {
      FilterLength(xs[..|xs| - 1], keep);
    }
  }

  lemma FilterSnoc<T>(xs: seq<T>, i: nat, keep: T -> bool)
    requires i < |xs|
    ensures Filter(xs[..i + 1], keep) == Filter(xs[..i], keep) + if keep(xs[i]) then [xs[i]] else []
  {
    assert xs[..i + 1][..i] == xs[..i];
  }

  lemma {:induction false} FilterMember<T>(xs: seq<T>, keep: T -> bool, x: T)
    ensures x in Filter(xs, keep) <==> x in xs && keep(x)
  {
    if xs != [] {
      FilterMember(xs[..|xs| - 1], keep, x);
      assert xs == xs[..|xs| - 1] + [xs[|xs| - 1]];
    }
  }

  /** Filtering by a weaker test first changes nothing. */
  lemma {:induction false} FilterTwice<T>(xs: seq<T>, weak: T -> bool, strong: T -> bool)
    requires forall x | x in xs && strong(x) :: weak(x)
    ensures Filter(Filter(xs, weak), strong) == Filter(xs, strong)
  {
    if xs != [] {
      var front, last := xs[..|xs| - 1], xs[|xs| - 1];
      FilterTwice(front, weak, strong);
      assert last in xs;
      if weak(last) {
        var kept := Filter(front, weak) + [last];
        assert kept[..|kept| - 1] == Filter(front, weak);
      } else {
        assert Filter(front, weak) + [] == Filter(front, weak);
      }
    }
  }

  lemma {:induction false} FilterSame<T>(xs: seq<T>, p: T -> bool, q: T -> bool)
    requires forall x | x in xs :: p(x) == q(x)
    ensures Filter(xs, p) == Filter(xs, q)
  {
    if xs != [] {
      FilterSame(xs[..|xs| - 1], p, q);
    }
  }

  lemma {:induction false} FilterPartition<T>(xs: seq<T>, keep: T -> bool, drop: T -> bool)
    requires forall x | x in xs :: drop(x) == !keep(x)
    ensures multiset(xs) == multiset(Filter(xs, keep)) + multiset(Filter(xs, drop))
  {
    if xs != [] {
      var front, last := xs[..|xs| - 1], xs[|xs| - 1];
      assert xs == front + [last];
      assert last in xs;
      FilterPartition(front, keep, drop);
      MultisetSnoc(front, last, Filter(front, keep), Filter(front, drop));
      assert Filter(front, keep) + [] == Filter(front, keep);
      assert Filter(front, drop) + [] == Filter(front, drop);
    }
  }

  lemma MultisetSnoc<T>(xs: seq<T>, x: T, a: seq<T>, b: seq<T>)
    requires multiset(xs) == multiset(a) + multiset(b)
    ensures multiset(xs + [x]) == multiset(a + [x]) + multiset(b) == multiset(a) + multiset(b + [x])
  {
  }

  lemma KeysSnoc(e: Evaluation, files: seq<File>, i: nat)
    requires i < |files|
    ensures
      var (v, shown) := (VersionOf(e.parsing, files[i]), Shows(e, files[i]));
      && Keys(e, files[..i + 1], true) ==
         Keys(e, files[..i], true) + (if files[i].Dict? && v.Some? && shown then {v.value.key} else {})
      && Keys(e, files[..i + 1], false) ==
         Keys(e, files[..i], false) + (if files[i].Dict? && v.Some? && !shown then {v.value.key} else {})
  {
    assert files[..i + 1] == files[..i] + [files[i]];
  }

  // ---------- laws of the policy ----------

  /** A listed version is dropped exactly if some file of it is hidden and none is shown. */
  lemma DroppedIffOnlyHidden(e: Evaluation, p: Payload, l: Listed)
    requires p.versions.Some? && l in p.versions.value
    ensures Apply(e, p).payload.versions.Some?
    ensures
      l !in Apply(e, p).payload.versions.value <==>
      && l.Text? && e.parsing.plain(l.raw).Some?
      && var key := e.parsing.plain(l.raw).value.key;
         && (exists f :: f in FilesOf(p) && HasKey(e.parsing, f, key) && !Shows(e, f))
         && !exists f :: f in FilesOf(p) && HasKey(e.parsing, f, key) && Shows(e, f)
  {
    var hidden, visible := Keys(e, FilesOf(p), false), Keys(e, FilesOf(p), true);
    FilterMember(p.versions.value, l => !OnlyHidden(e.parsing, l, hidden, visible), l);
    if l.Text? && e.parsing.plain(l.raw).Some? {
      var key := e.parsing.plain(l.raw).value.key;
      assert key in hidden <==> exists f :: f in FilesOf(p) && HasKey(e.parsing, f, key) && !Shows(e, f);
      assert key in visible <==> exists f :: f in FilesOf(p) && HasKey(e.parsing, f, key) && Shows(e, f);
    }
  }

  predicate HasKey(parsing: Parsing, f: File, key: real) {
    VersionOf(parsing, f).Some? && VersionOf(parsing, f).value.key == key
  }

  /** Files are only ever removed, and every removed file is counted. */
  lemma FilesArePartitioned(e: Evaluation, p: Payload)
    ensures
      var r := Apply(e, p);
      && r.payload.files.Some?
      && multiset(FilesOf(p)) ==
         multiset(r.payload.files.value) + multiset(Filter(FilesOf(p), f => !Shows(e, f)))
      && r.visibleFiles == |r.payload.files.value|
      && r.hiddenFiles == |Filter(FilesOf(p), f => !Shows(e, f))|
  {
    FilterPartition(FilesOf(p), f => Shows(e, f), f => !Shows(e, f));
  }

  /** Without overrides the release policy is the minimum-age policy. */
  lemma NoOverridesIsMinimumAge(e: Evaluation, p: Payload)
    requires e.actions == map[]
    ensures Apply(e, p) == Apply(AgeOnly(e.parsing, e.policy, e.now), p)
  {
    var plain := AgeOnly(e.parsing, e.policy, e.now);
    FilterSame(FilesOf(p), f => Shows(e, f), f => Shows(plain, f));
    assert Keys(e, FilesOf(p), true) == Keys(plain, FilesOf(p), true);
    assert Keys(e, FilesOf(p), false) == Keys(plain, FilesOf(p), false);
  }

  /** Applying the policy to its own result changes nothing. */
  lemma ApplyIdempotent(e: Evaluation, p: Payload)
    ensures Apply(e, Apply(e, p).payload).payload == Apply(e, p).payload
    ensures Apply(e, Apply(e, p).payload).hiddenFiles == 0
  {
    var once := Apply(e, p).payload;
    var keep := f => Shows(e, f);
    FilterTwice(FilesOf(p), keep, keep);
    assert Keys(e, FilesOf(once), false) == {} by {
      forall f | f in FilesOf(once) ensures Shows(e, f) {
        FilterMember(FilesOf(p), keep, f);
      }
    }
    if once.versions.Some? {
      FilterAll(once.versions.value, l => !OnlyHidden(e.parsing, l, {}, Keys(e, FilesOf(once), true)));
    }
  }

  lemma {:induction false} FilterAll<T>(xs: seq<T>, keep: T -> bool)
    requires forall x | x in xs :: keep(x)
    ensures Filter(xs, keep) == xs
  {
    if xs != [] {
      FilterAll(xs[..|xs| - 1], keep);
      assert xs == xs[..|xs| - 1] + [xs[|xs| - 1]];
    }
  }

  /** A later clock never hides a file: the earlier listing is the earlier policy applied to the later one. */
  lemma LaterShowsMore(e: Evaluation, p: Payload, later: int)
    requires e.now <= later
    ensures
      var early := Apply(e, p).payload;
      var late := Apply(e.(now := later), p).payload;
      && late.files.Some? && early.files == Some(Filter(late.files.value, f => Shows(e, f)))
      && (p.versions.Some? ==>
            forall l :: l in early.versions.value ==> l in late.versions.value)
  {
    var e' := e.(now := later);
    var files := FilesOf(p);
    FilterTwice(files, f => Shows(e', f), f => Shows(e, f));
    if p.versions.Some? {
      assert Keys(e', files, false) <= Keys(e, files, false);
      assert Keys(e, files, true) <= Keys(e', files, true);
      forall l | l in Apply(e, p).payload.versions.value ensures l in Apply(e', p).payload.versions.value {
        FilterMember(p.versions.value, l => !OnlyHidden(e.parsing, l, Keys(e, files, false), Keys(e, files, true)), l);
        FilterMember(p.versions.value, l => !OnlyHidden(e.parsing, l, Keys(e', files, false), Keys(e', files, true)), l);
      }
    }
  }
}
