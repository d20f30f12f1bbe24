/** Administrator overrides and their audit log, as in src/wheelguard/postgres.py: create, replace and revoke
    are transactions over one table and one append-only log. */
module Overrides {
  import opened Prelude
  import opened ReleasePolicy

  type Id = string

  datatype Override = Override(
    project: string, version: string, action: Action, created: int, expires: Option<int>, revoked: Option<int>)

  datatype Entry =
    | Created(id: Id, previous: Option<Id>)
    | Revoked(id: Id, replacement: Option<Id>)

  type Log = seq<Entry>

  /** The three ways in which an entry concerns an override. */
  datatype Event = Creation | Revocation | Succession

  predicate Concerns(e: Entry, event: Event, id: Id) {
    match event
    case Creation => e.Created? && e.id == id
    case Revocation => e.Revoked? && e.id == id
    case Succession => e.Created? && e.previous == Some(id)
  }

  function Count(log: Log, event: Event, id: Id): nat {
    if log == [] then 0
    else Count(log[..|log| - 1], event, id) + if Concerns(log[|log| - 1], event, id) then 1 else 0
  }

  lemma CountSnoc(log: Log, e: Entry, id: Id)
    ensures forall event :: Count(log + [e], event, id) ==
                            Count(log, event, id) + if Concerns(e, event, id) then 1 else 0
  {
    assert (log + [e])[..|log|] == log;
  }

  lemma {:induction false} CountZero(log: Log, event: Event, id: Id)
    ensures Count(log, event, id) == 0 <==> forall e | e in log :: !Concerns(e, event, id)
  {
    if log != [] {
      var prefix := log[..|log| - 1];
      assert log == prefix + [log[|log| - 1]];
      CountZero(prefix, event, id);
    }
  }

  ghost predicate ExactlyOnce(log: Log, event: Event, id: Id) {
    && (exists e :: e in log && Concerns(e, event, id))
    && forall i, j | 0 <= i < |log| && 0 <= j < |log| && Concerns(log[i], event, id) && Concerns(log[j], event, id) ::
         i == j
  }

  lemma {:induction false} CountOne(log: Log, event: Event, id: Id)
    requires Count(log, event, id) == 1
    ensures ExactlyOnce(log, event, id)
  {
    var prefix, last := log[..|log| - 1], log[|log| - 1];
    assert log == prefix + [last];
    if Concerns(last, event, id) {
      CountZero(prefix, event, id);
    } else {
      CountOne(prefix, event, id);
      forall i, j | 0 <= i < |log| && 0 <= j < |log| && Concerns(log[i], event, id) && Concerns(log[j], event, id)
        ensures i == j
      {
        assert i < |prefix| && prefix[i] == log[i];
        assert j < |prefix| && prefix[j] == log[j];
      }
    }
  }

  function Revocations(overrides: map<Id, Override>, id: Id): nat {
    if id in overrides && overrides[id].revoked.Some? then 1 else 0
  }

  /** The lifecycle of every identifier: created once if it exists, revoked once if it is revoked, and
      replaced at most once, which revokes it. */
  ghost predicate Accounted(overrides: map<Id, Override>, log: Log, id: Id) {
    && Count(log, Creation, id) == (if id in overrides then 1 else 0)
    && Count(log, Revocation, id) == Revocations(overrides, id)
    && Count(log, Succession, id) <= Revocations(overrides, id)
  }

  /** What the accounts say entry by entry. */
  lemma LifecycleIsExact(overrides: map<Id, Override>, log: Log, id: Id)
    requires Accounted(overrides, log, id)
    ensures id in overrides <==> ExactlyOnce(log, Creation, id)
    ensures id in overrides && overrides[id].revoked.Some? <==> ExactlyOnce(log, Revocation, id)
    ensures (exists e :: e in log && Concerns(e, Succession, id)) ==> ExactlyOnce(log, Succession, id)
    ensures (exists e :: e in log && Concerns(e, Succession, id)) ==> ExactlyOnce(log, Revocation, id)
  {
    forall event: Event
      ensures Count(log, event, id) <= 1
      ensures Count(log, event, id) == 1 <==> ExactlyOnce(log, event, id)
      ensures (exists e :: e in log && Concerns(e, event, id)) ==> Count(log, event, id) == 1
    {
      assert event == Creation || event == Revocation || event == Succession;
      CountZero(log, event, id);
      if Count(log, event, id) == 1 {
        CountOne(log, event, id);
      }
    }
  }

  /** The same over the entries themselves: an override exists exactly if one entry created it, is revoked exactly if one
      entry revoked it, and no two were created in its place; one that was created in its place had it revoked. */
  lemma LifecycleInWords(overrides: map<Id, Override>, log: Log, id: Id)
    requires Accounted(overrides, log, id)
    ensures id in overrides <==> exists k :: 0 <= k < |log| && log[k].Created? && log[k].id == id
    ensures id in overrides && overrides[id].revoked.Some? <==>
            exists k :: 0 <= k < |log| && log[k].Revoked? && log[k].id == id
    ensures forall j, k | 0 <= j < |log| && 0 <= k < |log| && log[j].Created? && log[k].Created? && log[j].id == log[k].id == id ::
              j == k
    ensures forall j, k | 0 <= j < |log| && 0 <= k < |log| && log[j].Revoked? && log[k].Revoked? && log[j].id == log[k].id == id ::
              j == k
    ensures forall j, k | && 0 <= j < |log| && 0 <= k < |log| && log[j].Created? && log[k].Created?
                          && log[j].previous == Some(id) && log[k].previous == Some(id) :: j == k
    ensures (exists k :: 0 <= k < |log| && log[k].Created? && log[k].previous == Some(id)) ==>
              exists k :: 0 <= k < |log| && log[k].Revoked? && log[k].id == id
  {
    EntryInWords(log, Creation, id);
    EntryInWords(log, Revocation, id);
    EntryInWords(log, Succession, id);
    assert forall k | 0 <= k < |log| :: Concerns(log[k], Creation, id) <==> log[k].Created? && log[k].id == id;
    assert forall k | 0 <= k < |log| :: Concerns(log[k], Revocation, id) <==> log[k].Revoked? && log[k].id == id;
    assert forall k | 0 <= k < |log| :: Concerns(log[k], Succession, id) <==> log[k].Created? && log[k].previous == Some(id);
  }

  lemma EntryInWords(log: Log, event: Event, id: Id)
    requires Count(log, event, id) <= 1
    ensures Count(log, event, id) == 1 <==> exists k :: 0 <= k < |log| && Concerns(log[k], event, id)
    ensures forall j, k | 0 <= j < |log| && 0 <= k < |log| && Concerns(log[j], event, id) && Concerns(log[k], event, id) ::
              j == k
  {
    CountZero(log, event, id);
    assert forall k | 0 <= k < |log| :: log[k] in log;
    if Count(log, event, id) == 1 {
      CountOne(log, event, id);
    }
  }

  /** An entry appended together with the change of the table it reports. */
  lemma CreateAccounted(overrides: map<Id, Override>, log: Log, id: Id, o: Override, previous: Option<Id>, other: Id)
    requires Accounted(overrides, log, other) && id !in overrides && o.revoked.None?
    requires previous == Some(other) ==> Revocations(overrides, other) == 1 && Count(log, Succession, other) == 0
    ensures Accounted(overrides[id := o], log + [Created(id, previous)], other)
  {
    CountSnoc(log, Created(id, previous), other);
  }

  lemma RevokeAccounted(overrides: map<Id, Override>, log: Log, id: Id, o: Override, heir: Option<Id>, other: Id)
    requires Accounted(overrides, log, other)
    requires id in overrides && overrides[id].revoked.None? && o.revoked.Some?
    ensures Accounted(overrides[id := o], log + [Revoked(id, heir)], other)
    ensures other == id ==> Count(log + [Revoked(id, heir)], Succession, id) == 0
  {
    CountSnoc(log, Revoked(id, heir), other);
  }

  datatype Request =
    | Create(id: Id, override: Override, previous: Option<Id>)
    | Revoke(id: Id, now: int)

  datatype Refusal = NotActive | Constraint

  class OverrideTable {
    var overrides: map<Id, Override>
    var log: Log

    ghost predicate Valid()
      reads this
    {
      && (forall id: Id :: Accounted(overrides, log, id))
      && (forall id | id in overrides :: overrides[id].action in {Allow, Block})
    }

    constructor ()
      ensures Valid() && overrides == map[] && log == []
    {
      overrides, log := map[], [];
    }

    /** The shared first half of replace, and all of revoke: an active override is revoked, once. */
    method RevokeActive(id: Id, now: int, replacement: Option<Id>) returns (r: Outcome<Refusal>)
      requires Valid()
      modifies this
      ensures Valid()
      ensures r.Pass? <==> id in old(overrides) && old(overrides)[id].revoked.None?
      ensures r.Fail? ==> overrides == old(overrides) && log == old(log)
      ensures r.Pass? ==>
        && overrides == old(overrides)[id := old(overrides)[id].(revoked := Some(now))]
        && log == old(log) + [Revoked(id, replacement)]
        && Count(log, Succession, id) == 0
    {
      if id !in overrides || overrides[id].revoked.Some? {
        return Fail(NotActive);
      }
      var revoked := overrides[id].(revoked := Some(now));
      var next, entries := overrides[id := revoked], log + [Revoked(id, replacement)];
      forall other: Id ensures Accounted(next, entries, other) {
        RevokeAccounted(overrides, log, id, revoked, replacement, other);
      }
      RevokeAccounted(overrides, log, id, revoked, replacement, id);
      overrides, log := next, entries;
      return Pass;
    }

    /** create_override; with `previous` it revokes that override in the same transaction. */
    method Create(id: Id, o: Override, previous: Option<Id>) returns (r: Outcome<Refusal>)
      requires Valid() && id !in overrides && o.revoked.None?
      modifies this
      ensures Valid()
      ensures r.Pass? <==>
        && o.action in {Allow, Block}
        && (previous.Some? ==> previous.value in old(overrides) && old(overrides)[previous.value].revoked.None?)
      ensures r.Fail? ==> overrides == old(overrides) && log == old(log)
      ensures r.Pass? ==> id in overrides && overrides[id] == o
      ensures r.Pass? && previous.None? ==>
        overrides == old(overrides)[id := o] && log == old(log) + [Created(id, None)]
      ensures r.Pass? && previous.Some? ==>
        && overrides == old(overrides)[previous.value := old(overrides)[previous.value].(revoked := Some(o.created))][id := o]
        && log == old(log) + [Revoked(previous.value, Some(id)), Created(id, previous)]
    {
      var tables, entries := overrides, log;
      if previous.Some? {
        r := RevokeActive(previous.value, o.created, Some(id));
        if r.Fail? {
          return;
        }
      }
      if o.action == Fallback {
        overrides, log := tables, entries;
        return Fail(Constraint);
      }
      var next, extended := overrides[id := o], log + [Created(id, previous)];
      forall other: Id ensures Accounted(next, extended, other) {
        CreateAccounted(overrides, log, id, o, previous, other);
      }
      overrides, log := next, extended;
      return Pass;
    }

    /** Any run of requests, refused ones included: every override stays accounted for and the log only grows. */
    method Run(requests: seq<Request>)
      requires Valid()
      modifies this
      ensures Valid() && old(log) <= log
      ensures requests == [] ==> overrides == old(overrides)
      ensures forall id | id in old(overrides) ::
        && id in overrides
        && overrides[id].(revoked := None) == old(overrides)[id].(revoked := None)
        && (old(overrides)[id].revoked.Some? ==> overrides[id] == old(overrides)[id])
    {
      for i := 0 to |requests|
        invariant Valid() && old(log) <= log
        invariant i == 0 ==> overrides == old(overrides)
        invariant forall id | id in old(overrides) ::
          && id in overrides
          && overrides[id].(revoked := None) == old(overrides)[id].(revoked := None)
          && (old(overrides)[id].revoked.Some? ==> overrides[id] == old(overrides)[id])
      {
        match requests[i]
        case Create(id, o, previous) =>
          if id !in overrides && o.revoked.None? {
            var _ := Create(id, o, previous);
          }
        case Revoke(id, now) =>
          var _ := RevokeActive(id, now, None);
      }
    }

    predicate Active(id: Id, project: string, now: int)
      reads this
    {
      && id in overrides
      && overrides[id].project == project
      && overrides[id].revoked.None?
      && (overrides[id].expires.None? || overrides[id].expires.value > now)
    }

    /** The result of the query: the active overrides of a project, newest first. */
    ghost predicate IsQueried(ids: seq<Id>, project: string, now: int)
      reads this
    {
      && (forall id | id in ids :: id in overrides)
      && (forall id :: id in ids <==> Active(id, project, now))
      && (forall a, b | 0 <= a < b < |ids| :: overrides[ids[a]].created >= overrides[ids[b]].created)
    }

    /** `action` is that of a newest active override of the version. */
    ghost predicate IsNewestAction(project: string, now: int, version: string, action: Action)
      reads this
    {
      exists id: Id ::
        && Active(id, project, now) && overrides[id].version == version && overrides[id].action == action
        && forall other: Id | Active(other, project, now) && overrides[other].version == version ::
             overrides[other].created <= overrides[id].created
    }

    /** The query itself. */
    method Query(project: string, now: int) returns (ids: seq<Id>)
      ensures IsQueried(ids, project, now)
    {
      ids := [];
      var rest := overrides.Keys;
      while rest != {}
        invariant rest <= overrides.Keys
        invariant forall id :: id in ids <==> id in overrides && id !in rest && Active(id, project, now)
        invariant NewestFirst(ids)
        decreases rest
      {
        var id :| id in rest;
        rest := rest - {id};
        var o := overrides[id];
        if o.project == project && o.revoked.None? && (o.expires.None? || o.expires.value > now) {
          InsertKeeps(ids, id);
          ids := Insert(ids, id);
        }
      }
    }

    ghost predicate NewestFirst(ids: seq<Id>)
      reads this
    {
      && (forall id | id in ids :: id in overrides)
      && (forall a, b | 0 <= a < b < |ids| :: overrides[ids[a]].created >= overrides[ids[b]].created)
    }

    function Insert(ids: seq<Id>, id: Id): seq<Id>
      requires id in overrides && forall other | other in ids :: other in overrides
      reads this
    {
      if ids == [] then [id]
      else
        var n := |ids| - 1;
        if overrides[id].created <= overrides[ids[n]].created then ids + [id]
        else Insert(ids[..n], id) + [ids[n]]
    }

    lemma {:induction false} InsertKeeps(ids: seq<Id>, id: Id)
      requires id in overrides && NewestFirst(ids)
      ensures NewestFirst(Insert(ids, id)) && forall other :: other in Insert(ids, id) <==> other in ids || other == id
    {
      if ids != [] {
        var n := |ids| - 1;
        assert ids == ids[..n] + [ids[n]];
        if overrides[ids[n]].created < overrides[id].created {
          InsertKeeps(ids[..n], id);
          var r := Insert(ids[..n], id);
          forall k | 0 <= k < |r| ensures overrides[r[k]].created >= overrides[ids[n]].created {
            assert r[k] in r;
          }
        }
      }
    }

    /** _active_overrides: the first row of each version wins. */
    method ActiveOverrides(project: string, now: int) returns (actions: map<string, Action>)
      ensures forall version | version in actions ::
                exists id ::
                  && id in overrides && overrides[id].project == project && overrides[id].version == version
                  && overrides[id].revoked == None
                  && (overrides[id].expires == None || now < overrides[id].expires.value)
                  && overrides[id].action == actions[version]
      ensures forall id | && id in overrides && overrides[id].project == project && overrides[id].revoked == None
                          && (overrides[id].expires == None || now < overrides[id].expires.value) ::
                overrides[id].version in actions
      ensures forall version :: version in actions <==>
                exists id :: Active(id, project, now) && overrides[id].version == version
      ensures forall version | version in actions :: IsNewestAction(project, now, version, actions[version])
    {
      var ids := Query(project, now);
      actions := FirstOfEach(ids);
      forall version
        ensures version in actions <==> exists id :: Active(id, project, now) && overrides[id].version == version
        ensures version in actions ==> IsNewestAction(project, now, version, actions[version])
      {
        FirstRows(ids, project, now, version);
      }
    }

    method FirstOfEach(ids: seq<Id>) returns (actions: map<string, Action>)
      requires forall id | id in ids :: id in overrides
      ensures forall version :: version in actions <==> exists k :: 0 <= k < |ids| && IsFirstOf(ids, k, version)
      ensures forall k, version | 0 <= k < |ids| && IsFirstOf(ids, k, version) ::
                version in actions && actions[version] == overrides[ids[k]].action
    {
      actions := map[];
      for n := 0 to |ids|
        invariant forall version :: version in actions <==>
                    exists k :: 0 <= k < n && IsFirstOf(ids, k, version)
        invariant forall k, version | 0 <= k < n && IsFirstOf(ids, k, version) ::
                    version in actions && actions[version] == overrides[ids[k]].action
      {
        var version := overrides[ids[n]].version;
        if version !in actions {
          NotBefore(ids, n, version);
          assert IsFirstOf(ids, n, version);
          actions := actions[version := overrides[ids[n]].action];
        }
      }
    }

    lemma NotBefore(ids: seq<Id>, n: nat, version: string)
      requires n <= |ids| && forall id | id in ids :: id in overrides
      requires !exists k :: 0 <= k < n && IsFirstOf(ids, k, version)
      ensures forall k | 0 <= k < n :: overrides[ids[k]].version != version
    {
      if n > 0 {
        NotBefore(ids, n - 1, version);
        assert overrides[ids[n - 1]].version == version ==> IsFirstOf(ids, n - 1, version);
      }
    }

    lemma FirstRows(ids: seq<Id>, project: string, now: int, version: string)
      requires IsQueried(ids, project, now)
      ensures (exists k :: 0 <= k < |ids| && IsFirstOf(ids, k, version)) <==>
              exists id :: Active(id, project, now) && overrides[id].version == version
      ensures forall k | 0 <= k < |ids| && IsFirstOf(ids, k, version) ::
                IsNewestAction(project, now, version, overrides[ids[k]].action)
    {
      if !exists k :: 0 <= k < |ids| && IsFirstOf(ids, k, version) {
        NotBefore(ids, |ids|, version);
        assert forall id | id in ids :: overrides[id].version != version;
      }
      forall k | 0 <= k < |ids| && IsFirstOf(ids, k, version)
        ensures Active(ids[k], project, now)
        ensures IsNewestAction(project, now, version, overrides[ids[k]].action)
      {
        assert ids[k] in ids;
        forall other: Id | Active(other, project, now) && overrides[other].version == version
          ensures overrides[other].created <= overrides[ids[k]].created
        {
          var m :| 0 <= m < |ids| && ids[m] == other;
        }
      }
    }

    /** A revoked override decides nothing, whatever happens afterwards: every action then comes from another one. */
    method AfterRevocation(id: Id, at: int, requests: seq<Request>, project: string, now: int)
        returns (r: Outcome<Refusal>, actions: map<string, Action>)
      requires Valid()
      modifies this
      ensures Valid()
      ensures r.Pass? <==> id in old(overrides) && old(overrides)[id].revoked.None?
      ensures id in old(overrides) ==>
        id in overrides && overrides[id].revoked.Some? &&
        forall version | version in actions ::
          exists other ::
            && other != id && other in overrides && overrides[other].version == version
            && overrides[other].project == project && overrides[other].revoked == None
            && overrides[other].action == actions[version]
    {
      r := RevokeActive(id, at, None);
      Run(requests);
      actions := ActiveOverrides(project, now);
    }

    /** An override that was created acts until it is revoked, replaced or expired: then its version has an action of
        its project. */
    method AfterCreation(id: Id, o: Override, previous: Option<Id>, requests: seq<Request>, now: int)
        returns (r: Outcome<Refusal>, actions: map<string, Action>)
      requires Valid() && id !in overrides && o.revoked.None?
      modifies this
      ensures Valid()
      ensures r.Pass? && (id in overrides ==> overrides[id].revoked.None?) && (o.expires == None || now < o.expires.value) ==>
        o.version in actions
      ensures r.Pass? && requests == [] && (o.expires == None || now < o.expires.value)
              && (forall other | other in old(overrides) :: old(overrides)[other].created < o.created) ==>
        o.version in actions && actions[o.version] == o.action
    {
      r := Create(id, o, previous);
      Run(requests);
      actions := ActiveOverrides(o.project, now);
    }

    predicate IsFirstOf(ids: seq<Id>, k: int, version: string)
      requires forall id | id in ids :: id in overrides
      reads this
    {
      && 0 <= k < |ids|
      && overrides[ids[k]].version == version
      && forall j | 0 <= j < k :: overrides[ids[j]].version != version
    }
  }
}
