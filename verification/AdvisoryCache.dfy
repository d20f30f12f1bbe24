/** Querying the advisory service and caching its answers, as in src/wheelguard/cloudflare_index.py and
    src/wheelguard/vulnerabilities.py. */
module AdvisoryCache {
  import opened Prelude
  import opened ReleasePolicy
  import opened Vulnerabilities

  const BATCH: nat := 500

  /** One result of the service: not an object, an object with a malformed list, or advisory identifiers. */
  datatype OsvResult = NotAnObject | BadList | Vulnerable(ids: set<string>)

  /** The response to one batch: no usable response, or a list of results. */
  type Service = seq<string> -> Option<seq<OsvResult>>

  // ---------- parse_osv_results ----------

  predicate IsAnswer(versions: seq<string>, results: seq<OsvResult>) {
    |results| == |versions| && forall i | 0 <= i < |results| :: results[i].Vulnerable?
  }

  /** No later entry repeats entry `i`. */
  predicate IsLast(versions: seq<string>, i: int) {
    0 <= i < |versions| && forall j | i < j < |versions| :: versions[j] != versions[i]
  }

  /** The answer maps each version to its identifiers, and nothing else; of repeated versions the last one counts. */
  ghost predicate Answers(versions: seq<string>, results: seq<OsvResult>, adv: Advisories)
    requires IsAnswer(versions, results)
  {
    && (forall text :: text in adv <==> text in versions)
    && (forall i | IsLast(versions, i) :: adv[versions[i]] == results[i].ids)
  }

  lemma LastSnoc(versions: seq<string>, i: nat)
    requires i < |versions|
    ensures versions[..i + 1] == versions[..i] + [versions[i]]
    ensures forall j | IsLast(versions[..i + 1], j) ::
              j == i || (IsLast(versions[..i], j) && versions[j] != versions[i])
  {
    forall j | IsLast(versions[..i + 1], j) && j != i
      ensures IsLast(versions[..i], j) && versions[j] != versions[i]
    {
      assert versions[..i + 1][i] == versions[i] && versions[..i + 1][j] == versions[j];
      assert forall k | j < k < i :: versions[..i][k] == versions[..i + 1][k];
    }
  }

  method ParseOsvResults(results: Option<seq<OsvResult>>, versions: seq<string>) returns (r: Option<Advisories>)
    ensures r.Some? <==> results.Some? && IsAnswer(versions, results.value)
    ensures r.Some? ==> Answers(versions, results.value, r.value)
  {
    if results.None? || |results.value| != |versions| {
      return None;
    }
    var adv: Advisories := map[];
    for i := 0 to |versions|
      invariant forall j | 0 <= j < i :: results.value[j].Vulnerable?
      invariant forall text :: text in adv <==> text in versions[..i]
      invariant forall j | IsLast(versions[..i], j) :: adv[versions[j]] == results.value[j].ids
    {
      if !results.value[i].Vulnerable? {
        return None;
      }
      LastSnoc(versions, i);
      adv := adv[versions[i] := results.value[i].ids];
    }
    assert versions[..|versions|] == versions;
    return Some(adv);
  }

  // ---------- _query_osv ----------

  /** A service that answers each version on its own, whatever else is in the batch. */
  ghost predicate Pointwise(service: Service, one: string -> OsvResult) {
    forall batch: seq<string> :: service(batch) == Some(seq(|batch|, i requires 0 <= i < |batch| => one(batch[i])))
  }

  /** What the service says about each version of `adv`. */
  ghost predicate Agrees(one: string -> OsvResult, adv: Advisories) {
    forall text | text in adv :: one(text).Vulnerable? && adv[text] == one(text).ids
  }

  ghost predicate Covers(adv: Advisories, versions: seq<string>) {
    forall text :: text in adv <==> text in versions
  }

  /** Every batch from `start` on has a usable response. */
  predicate Answered(service: Service, versions: seq<string>, start: nat)
    decreases |versions| - start
  {
    start >= |versions| ||
    var batch := versions[start..Min(start + BATCH, |versions|)];
    var results := service(batch);
    results.Some? && IsAnswer(batch, results.value) && Answered(service, versions, start + BATCH)
  }

  /** Batched querying: at most 500 versions at a time; the first unusable response fails the whole query. */
  method QueryOsv(service: Service, versions: seq<string>, ghost one: string -> OsvResult)
    returns (r: Option<Advisories>)
    ensures r.Some? <==> Answered(service, versions, 0)
    ensures r.Some? ==> Covers(r.value, versions)
    ensures Pointwise(service, one) ==>
      && (r.Some? <==> forall text | text in versions :: one(text).Vulnerable?)
      && (r.Some? ==> Agrees(one, r.value))
  {
    var adv: Advisories := map[];
    var start := 0;
    while start < |versions|
      invariant 0 <= start
      invariant Answered(service, versions, 0) <==> Answered(service, versions, start)
      invariant Covers(adv, versions[..Min(start, |versions|)])
      invariant Pointwise(service, one) ==> Agrees(one, adv)
    {
      var end := Min(start + BATCH, |versions|);
      var batch := versions[start..end];
      var results := service(batch);
      var parsed := ParseOsvResults(results, batch);
      if parsed.None? {
        BadBatch(service, one, batch, results);
        BatchWithin(versions, start, end);
        return None;
      }
      GoodBatch(service, one, batch, results.value, parsed.value);
      CoversMore(adv, parsed.value, versions, start, end);
      adv := adv + parsed.value;
      start := start + BATCH;
    }
    assert versions[..|versions|] == versions;
    return Some(adv);
  }

  lemma BatchWithin(versions: seq<string>, start: nat, end: nat)
    requires start <= end <= |versions|
    ensures forall text | text in versions[start..end] :: text in versions
  {
  }

  lemma CoversMore(adv: Advisories, more: Advisories, versions: seq<string>, start: nat, end: nat)
    requires start <= end <= |versions|
    requires Covers(adv, versions[..start]) && Covers(more, versions[start..end])
    ensures Covers(adv + more, versions[..end])
  {
    assert versions[..end] == versions[..start] + versions[start..end];
  }

  lemma BadBatch(service: Service, one: string -> OsvResult, batch: seq<string>, results: Option<seq<OsvResult>>)
    requires results == service(batch) && !(results.Some? && IsAnswer(batch, results.value))
    ensures Pointwise(service, one) ==> exists text | text in batch :: !one(text).Vulnerable?
  {
    if Pointwise(service, one) {
      assert service(batch) == Some(seq(|batch|, i requires 0 <= i < |batch| => one(batch[i])));
      var i :| 0 <= i < |results.value| && !results.value[i].Vulnerable?;
      assert batch[i] in batch && !one(batch[i]).Vulnerable?;
    }
  }

  lemma GoodBatch(
      service: Service, one: string -> OsvResult, batch: seq<string>, results: seq<OsvResult>, adv: Advisories)
    requires Some(results) == service(batch) && IsAnswer(batch, results) && Answers(batch, results, adv)
    ensures Covers(adv, batch)
    ensures Pointwise(service, one) ==> Agrees(one, adv)
  {
    if Pointwise(service, one) {
      assert service(batch) == Some(seq(|batch|, i requires 0 <= i < |batch| => one(batch[i])));
      forall text | text in adv ensures one(text).Vulnerable? && adv[text] == one(text).ids {
        var i := LastOf(batch, text);
        assert results[i] == one(batch[i]);
      }
    }
  }

  lemma {:induction false} LastOf(versions: seq<string>, text: string) returns (i: int)
    requires text in versions
    ensures IsLast(versions, i) && versions[i] == text
    decreases |versions|
  {
    i := |versions| - 1;
    if versions[i] != text {
      var n := i;
      assert versions == versions[..n] + [versions[n]];
      i := LastOf(versions[..n], text);
      forall j | i < j < |versions| ensures versions[j] != versions[i] {
        assert j < n ==> versions[..n][j] == versions[j];
      }
    }
  }

  /** Cutting into batches is invisible: the query equals a single one over the whole list. */
  lemma BatchesAgree(service: Service, versions: seq<string>, one: string -> OsvResult, adv: Advisories)
    requires Pointwise(service, one)
    requires Covers(adv, versions) && Agrees(one, adv)
    ensures service(versions).Some? && IsAnswer(versions, service(versions).value)
    ensures Answers(versions, service(versions).value, adv)
  {
    var results := seq(|versions|, i requires 0 <= i < |versions| => one(versions[i]));
    assert service(versions) == Some(results);
    forall i | 0 <= i < |versions| ensures results[i].Vulnerable? && adv[versions[i]] == results[i].ids {
      assert versions[i] in versions;
    }
  }

  // ---------- the cache ----------

  datatype Scan = Scan(advisories: Advisories, checkedAt: int)

  /** Scans by project and versions key; the key, a digest of the version list, is taken as the list itself. */
  type Scans = map<(string, seq<string>), Scan>

  ghost predicate AtMostOnePerProject(scans: Scans) {
    forall a, b | a in scans && b in scans && a.0 == b.0 :: a == b
  }

  /** Every scan is about exactly the versions behind its key. */
  ghost predicate DomainsMatch(scans: Scans) {
    forall k | k in scans :: Covers(scans[k].advisories, k.1)
  }

  /** Scans of other projects are as before. */
  ghost predicate OthersKept(project: string, before: Scans, after: Scans) {
    forall k: (string, seq<string>) | k.0 != project ::
      (k in after <==> k in before) && (k in after ==> after[k] == before[k])
  }

  /** A scan of these very versions, no older than the TTL. */
  predicate IsFresh(scans: Scans, project: string, versions: seq<string>, now: int, ttl: int) {
    (project, versions) in scans && now - scans[(project, versions)].checkedAt <= ttl
  }

  datatype Status = Disabled | Empty | Hit | Miss | Refresh | Stale | Error

  class AdvisoryCache {
    var scans: Scans

    ghost predicate Valid()
      reads this
    {
      AtMostOnePerProject(scans) && DomainsMatch(scans)
    }

    constructor ()
      ensures Valid() && scans == map[]
    {
      scans := map[];
    }

    /** _store_advisories: upsert the new scan, then delete every other scan of the project. */
    method Store(project: string, versions: seq<string>, adv: Advisories, at: int)
      requires Valid() && Covers(adv, versions)
      modifies this
      ensures Valid()
      ensures (project, versions) in scans && scans[(project, versions)] == Scan(adv, at)
      ensures forall k :: k in scans && k.0 == project ==> k.1 == versions
      ensures OthersKept(project, old(scans), scans)
    {
      scans := scans[(project, versions) := Scan(adv, at)];
      scans := map k | k in scans && !(k.0 == project && k.1 != versions) :: scans[k];
    }

    /** The advisories an evaluation works with: a cached scan of these very versions no older than the TTL, a new
        answer, an older scan if the service fails, or nothing. A new answer replaces every scan of the project. */
    method Evaluate(
      enabled: bool, parsing: Parsing, project: string, payload: Payload, now: int, ttl: int, force: bool,
      service: Service, ghost one: string -> OsvResult)
      returns (status: Status, adv: Advisories, ghost versions: seq<string>)
      requires Valid()
      modifies this
      ensures Valid()
      ensures IsVersionList(parsing, FilesOf(payload), versions)
      ensures status == Disabled <==> !enabled
      ensures status == Empty <==> enabled && versions == []
      ensures status in {Disabled, Empty, Error} ==> adv == map[] && scans == old(scans)
      ensures status == Hit <==> enabled && versions != [] && !force && IsFresh(old(scans), project, versions, now, ttl)
      ensures status in {Stale, Error} <==>
        && enabled && versions != [] && (force || !IsFresh(old(scans), project, versions, now, ttl))
        && !Answered(service, versions, 0)
      ensures status == Error ==> (project, versions) !in scans
      ensures status == Refresh ==> force
      ensures status == Miss ==> !force
      ensures status == Hit ==> scans == old(scans) && adv == scans[(project, versions)].advisories
      ensures status == Stale ==>
        scans == old(scans) && (project, versions) in scans && adv == scans[(project, versions)].advisories
      ensures status in {Miss, Refresh} ==>
        && (project, versions) in scans && scans[(project, versions)] == Scan(adv, now)
        && (Pointwise(service, one) ==> Agrees(one, adv))
      ensures status in {Hit, Stale, Miss, Refresh} ==> Covers(adv, versions)
      ensures OthersKept(project, old(scans), scans)
    {
      var texts := PayloadVersions(parsing, payload);
      versions := texts;
      if !enabled {
        return Disabled, map[], versions;
      }
      if texts == [] {
        return Empty, map[], versions;
      }
      var key := (project, texts);
      if !force && key in scans && now - scans[key].checkedAt <= ttl {
        return Hit, scans[key].advisories, versions;
      }
      var answer := QueryOsv(service, texts, one);
      if answer.None? {
        if key !in scans {
          return Error, map[], versions;
        }
        return Stale, scans[key].advisories, versions;
      }
      Store(project, texts, answer.value, now);
      return if force then Refresh else Miss, answer.value, versions;
    }

    /** What the download gate reads: the latest scan of the project, whatever its key. */
    method Latest(project: string) returns (r: Option<Scan>, ghost key: seq<string>)
      requires Valid()
      ensures r.Some? <==> exists k :: k in scans && k.0 == project
      ensures r.Some? ==> (project, key) in scans && scans[(project, key)] == r.value
      ensures forall k | k in scans && k.0 == project :: r == Some(scans[k]) && key == k.1
    {
      if k :| k in scans && k.0 == project {
        return Some(scans[k]), k.1;
      }
      return None, [];
    }
  }
}
