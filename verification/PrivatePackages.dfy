/** Publishing as the source writes it: one sequential `Upload` with its three flags and its finally
    clause, awaiting a shared catalog and bucket that everyone else may change meanwhile. Every execution,
    whatever the environment does at each await, is proved to be a run of the publication protocol, so the
    results about runs are results about this code. */
module PrivatePackages {
  import opened Prelude
  import opened Publication
  import opened PublicationSafety
  import opened PublicationSteps
  import opened UploadTurns

  lemma BatchLeavesTasks(s: State, u: Upload, key: Key, now: int)
    ensures
      var t := CommitBatch(s, u, key, now);
      t.uploads == s.uploads && t.approvals == s.approvals && t.bucket == s.bucket
  {
    var inserted := InsertArtifact(s, SlotOf(u), RowOf(u, key));
    assert inserted == s.(artifacts := inserted.artifacts);
    var claimed := ClaimProject(inserted, u.release.project, now);
    assert claimed == inserted.(projects := claimed.projects);
  }

  /** Awaits change the shared catalog and bucket, never the locals of anyone. */
  lemma EffectLeavesTasks(s: State, u: Upload, l: Label)
    ensures Effect(s, u, l).uploads == s.uploads && Effect(s, u, l).approvals == s.approvals
  {
    if l.Commit? {
      BatchLeavesTasks(s, u, l.key, l.now);
    }
  }

  /** Steps of others do not touch the locals of a task. */
  lemma OthersLeaveTask(o: Oracle, s: State, l: Label, k: Key)
    requires k in s.uploads && !Concerns(l, k)
    ensures k in Next(o, s, l).uploads && Next(o, s, l).uploads[k] == s.uploads[k]
  {
    if Enabled(s, l) && !l.ApproveRead? && !l.ApproveWrite? && !l.Begin? {
      EffectLeavesTasks(s, s.uploads[l.key], l);
    }
  }

  predicate ConcernsApproval(l: Label, id: nat) {
    (l.ApproveRead? || l.ApproveWrite?) && l.id == id
  }

  /** The steps among `others` that are not of approval `id`. */
  function StepsBeside(others: seq<Label>, id: nat): seq<Label> {
    if others == [] then []
    else
      var last := others[|others| - 1];
      StepsBeside(others[..|others| - 1], id) + if ConcernsApproval(last, id) then [] else [last]
  }

  lemma BesideSnoc(others: seq<Label>, i: nat, id: nat)
    requires i < |others|
    ensures StepsBeside(others[..i + 1], id) ==
            StepsBeside(others[..i], id) + if ConcernsApproval(others[i], id) then [] else [others[i]]
  {
    assert others[..i + 1][..i] == others[..i];
  }

  lemma OthersLeaveApproval(o: Oracle, s: State, l: Label, id: nat)
    requires id in s.approvals && !ConcernsApproval(l, id)
    ensures id in Next(o, s, l).approvals && Next(o, s, l).approvals[id] == s.approvals[id]
  {
    if Enabled(s, l) && !l.ApproveRead? && !l.ApproveWrite? && !l.Begin? {
      EffectLeavesTasks(s, s.uploads[l.key], l);
    }
  }

  lemma RunSnoc(o: Oracle, trace: seq<Label>, l: Label)
    ensures Reached(o, trace + [l]) == Next(o, Reached(o, trace), l)
  {
    RunAppend(o, EMPTY, trace, [l]);
    assert Run(o, Reached(o, trace), [l]) == Run(o, Next(o, Reached(o, trace), l), [l][1..]);
  }

  /** What the invariant says about a finished upload. */
  lemma FinishedUpload(o: Oracle, trace: seq<Label>, key: Key)
    requires key in Reached(o, trace).uploads && Reached(o, trace).uploads[key].stage == Done
    ensures
      var s := Reached(o, trace);
      var u := s.uploads[key];
      && (u.reply.Published? ==>
            var slot := (u.reply.project, u.reply.filename);
            slot in s.artifacts && s.artifacts[slot].digest == u.reply.digest && s.artifacts[slot].key in s.bucket)
      && (u.reply.Refused? && u.fault == NoFault ==> key !in s.bucket)
  {
    var s := Reached(o, trace);
    ReachedInv(o, trace);
    assert UploadOk(o, s.uploads[key], Get(s.bucket, key), Holds(s.artifacts, key));
    assert ReplyOk(s.artifacts, s.uploads[key].reply);
  }

  lemma Undisturbed(o: Oracle, before: seq<Label>, after: seq<Label>, key: Key, env: Environment)
    requires Follows(before, after, key, env) && IsDone(Reached(o, after), key)
    requires forall i :: env.others(i) == []
    ensures Reached(o, after) == Alone(o, Reached(o, before), key, env)
  {
    var steps := after[|before|..];
    assert after == before + steps;
    RunAppend(o, EMPTY, before, steps);
    AloneIsDetermined(o, Reached(o, before), steps, key, env);
  }

  class PrivatePackages {
    const oracle: Oracle
    var world: State
    ghost var trace: seq<Label>

    ghost predicate Valid()
      reads this
    {
      world == Reached(oracle, trace)
    }

    /** Between two steps, the upload `key` has exactly these locals. */
    ghost predicate At(key: Key, u: Upload)
      reads this
    {
      Valid() && key in world.uploads && world.uploads[key] == u
    }

    constructor (oracle: Oracle)
      ensures Valid() && trace == [] && this.oracle == oracle
    {
      this.oracle, world, trace := oracle, EMPTY, [];
    }

    /** The await number `i`: others run. */
    method Await(key: Key, env: Environment, i: nat)
      requires Valid() && key in world.uploads
      modifies this
      ensures At(key, old(world.uploads[key])) && Follows(old(trace), trace, key, env)
    {
      var others := env.others(i);
      for n := 0 to |others|
        invariant At(key, old(world.uploads[key])) && Follows(old(trace), trace, key, env)
      {
        if !Concerns(others[n], key) {
          OthersLeaveTask(oracle, world, others[n], key);
          RunSnoc(oracle, trace, others[n]);
          world := Next(oracle, world, others[n]);
          trace := trace + [others[n]];
        }
      }
    }

    /** The end of an atomic section: the code has changed the shared state, and its locals are now `u`. */
    method Settle(key: Key, u: Upload, ghost l: Label)
      requires world.(uploads := world.uploads[key := u]) == Next(oracle, Reached(oracle, trace), l)
      modifies this
      ensures At(key, u) && trace == old(trace) + [l]
    {
      RunSnoc(oracle, trace, l);
      world := world.(uploads := world.uploads[key := u]);
      trace := trace + [l];
    }

    // ---------- the awaits of `upload`, in order ----------

    /** receive_upload: what is left of the request once its object is complete, or the status to refuse with. */
    method Receive(key: Key, env: Environment) returns (r: Result<(Form, nat, Digest), nat>)
      requires At(key, FRESH)
      modifies this
      ensures At(key, AfterReceive(oracle, FRESH, env.receipt)) && Follows(old(trace), trace, key, env)
      ensures r.Success? ==>
        AfterReceive(oracle, FRESH, env.receipt) ==
        FRESH.(stage := Verifying, completed := true, form := r.value.0, size := r.value.1, digest := r.value.2)
      ensures r.Failure? ==>
        var u := AfterReceive(oracle, FRESH, env.receipt);
        u == Refuse(FRESH, r.error).(fault := u.fault)
    {
      Await(key, env, 0);
      ghost var l := Label.Receive(key, env.receipt);
      match env.receipt
      case Aborted(status) =>
        Settle(key, Refuse(FRESH, status), l);
        return Failure(status);
      case CompletionLost(bytes) =>
        world := world.(bucket := world.bucket[key := bytes]);
        Settle(key, Refuse(FRESH, 503).(fault := ReceiveUncertain), l);
        return Failure(503);
      case Received(form, bytes) =>
        if bytes == [] {
          Settle(key, Refuse(FRESH, 400), l);
          return Failure(400);
        }
        var digest := oracle.hash(bytes);
        world := world.(bucket := world.bucket[key := bytes]);
        Settle(key, FRESH.(stage := Verifying, completed := true, form := form, size := |bytes|, digest := digest), l);
        return Success((form, |bytes|, digest));
    }

    /** validate_distribution: inspect the object as stored. */
    method Validate(key: Key, u: Upload, env: Environment) returns (r: Result<Release, nat>)
      requires At(key, u) && u.stage == Verifying
      modifies this
      ensures Follows(old(trace), trace, key, env)
      ensures r.Success? ==> At(key, u.(stage := Checking, release := r.value))
      ensures r.Failure? ==> At(key, Refuse(u, r.error))
    {
      Await(key, env, 1);
      ghost var l := Verify(key, env.verified);
      if !env.verified || key !in world.bucket {
        Settle(key, Refuse(u, 503), l);
        return Failure(503);
      }
      var release := oracle.verify(u.form, world.bucket[key]);
      if release.Failure? {
        Settle(key, Refuse(u, release.error), l);
        return release;
      }
      Settle(key, u.(stage := Checking, release := release.value), l);
      return release;
    }

    /** First half of _claimable: a name that is already claimed or approved needs no further check. */
    method KnownName(key: Key, u: Upload, env: Environment) returns (r: Result<bool, nat>, ghost l: Label)
      requires At(key, u) && u.stage == Checking
      modifies this
      ensures Follows(old(trace), trace, key, env)
      ensures r == Success(true) ==> At(key, u) && Clears(world, key, u, l, env)
      ensures r == Success(false) ==> At(key, u.(stage := Probing))
      ensures r.Failure? ==> At(key, Refuse(u, r.error))
    {
      Await(key, env, 2);
      l := Check(key, env.checked);
      if !env.checked {
        Settle(key, Refuse(u, 503), l);
        return Failure(503), l;
      }
      var name := u.release.project;
      if name in world.projects {
        var row := world.projects[name];
        if row.claimed.Some? || row.approved.Some? {
          return Success(true), l;
        }
        if row.collisions != [] {
          Settle(key, Refuse(u, 409), l);
          return Failure(409), l;
        }
      }
      Settle(key, u.(stage := Probing), l);
      return Success(false), l;
    }

    /** The last read of _claimable lets the upload pass; no await follows before the batch. */
    ghost predicate Clears(s: State, key: Key, u: Upload, l: Label, env: Environment) {
      Prescribed(l, key, env) && (l.Check? || l.Recheck?) && l.key == key && Enabled(s, l) && Move(oracle, s, u, l) == Advance(u)
    }

    /** Second half of _claimable: ask the public indexes, record what they say, and read back. */
    method NewName(key: Key, u: Upload, env: Environment) returns (r: Option<Upload>, ghost l: Label)
      requires At(key, u) && u.stage == Probing
      modifies this
      ensures Follows(old(trace), trace, key, env) && Valid() && key in world.uploads
      ensures r.Some? ==>
        && r.value == u.(stage := Rechecking, found := r.value.found)
        && At(key, r.value) && Clears(world, key, r.value, l, env)
      ensures r.None? ==> TurnedDown(u, world.uploads[key])
    {
      l := Probe(key, env.probe);
      var asked := AskIndexes(key, u, env);
      if !asked {
        return None, l;
      }
      var found := env.probe.value;
      var ok := RecordFound(key, u.(stage := Recording, found := found), env);
      if !ok {
        return None, l;
      }
      var rechecking := u.(stage := Rechecking, found := found);
      ok, l := ReadBack(key, rechecking, env);
      if !ok {
        return None, l;
      }
      return Some(rechecking), l;
    }

    method AskIndexes(key: Key, u: Upload, env: Environment) returns (ok: bool)
      requires At(key, u) && u.stage == Probing
      modifies this
      ensures Follows(old(trace), trace, key, env)
      ensures ok <==> env.probe.Some?
      ensures At(key, if ok then u.(stage := Recording, found := env.probe.value) else Refuse(u, 503))
    {
      Await(key, env, 3);
      ghost var l := Probe(key, env.probe);
      if env.probe.None? {
        Settle(key, Refuse(u, 503), l);
        return false;
      }
      Settle(key, u.(stage := Recording, found := env.probe.value), l);
      return true;
    }

    /** The upload was refused without touching its flags. */
    ghost predicate TurnedDown(u: Upload, v: Upload) {
      && v.stage == Cleanup && v.reply.Refused?
      && v.completed == u.completed && v.commitAttempted == u.commitAttempted && v.discard == u.discard
    }

    method ReadBack(key: Key, u: Upload, env: Environment) returns (ok: bool, ghost l: Label)
      requires At(key, u) && u.stage == Rechecking
      modifies this
      ensures Follows(old(trace), trace, key, env) && Valid() && key in world.uploads
      ensures ok ==> At(key, u) && Clears(world, key, u, l, env)
      ensures !ok ==> TurnedDown(u, world.uploads[key])
    {
      Await(key, env, 5);
      l := Recheck(key, env.rechecked);
      if !env.rechecked {
        Settle(key, Refuse(u, 503), l);
        return false, l;
      }
      var name := u.release.project;
      if name in world.projects {
        var row := world.projects[name];
        if row.claimed.None? && row.approved.None? && row.collisions != [] {
          Settle(key, Refuse(u, 409), l);
          return false, l;
        }
      }
      return true, l;
    }

    method RecordFound(key: Key, u: Upload, env: Environment) returns (ok: bool)
      requires At(key, u) && u.stage == Recording
      modifies this
      ensures Follows(old(trace), trace, key, env)
      ensures At(key, if ok then u.(stage := Rechecking) else Refuse(u, 503))
    {
      Await(key, env, 4);
      ghost var l := Record(key, env.record);
      if env.record != Failed {
        world := world.(projects := RecordCollisions(world.projects, u.release.project, u.found));
      }
      if env.record != Applied {
        Settle(key, Refuse(u, 503), l);
        return false;
      }
      Settle(key, u.(stage := Rechecking), l);
      return true;
    }

    /** The batch: three statements in one transaction. */
    method Batch(key: Key, u: Upload, env: Environment) returns (ok: bool)
      requires At(key, u) && u.stage == Committing
      modifies this
      ensures Follows(old(trace), trace, key, env)
      ensures At(key, if ok then u.(stage := Resolving) else Uncertain(u))
    {
      Await(key, env, 6);
      ghost var before, l := world, Commit(key, env.now, env.commit);
      if env.commit != Failed {
        world := InsertArtifact(world, (u.release.project, u.form.filename), Row(u.release.version, u.digest, u.size, key));
        world := ClaimProject(world, u.release.project, env.now);
        world := AuditUpload(world, key, Uploaded(u.release.project, u.form.filename, u.digest));
      }
      assert world == Effect(before, u, l);
      assert world.uploads == before.uploads;
      if env.commit != Applied {
        Settle(key, Uncertain(u), l);
        return false;
      }
      Settle(key, u.(stage := Resolving), l);
      return true;
    }

    /** Read back the row that won; from here on the outcome of the batch is certain, unless this read fails. */
    method Resolve(key: Key, u: Upload, env: Environment) returns (commitAttempted: bool, discard: bool)
      requires At(key, u) && u.stage == Resolving && u.commitAttempted && u.discard
      modifies this
      ensures Follows(old(trace), trace, key, env) && Valid() && key in world.uploads
      ensures
        var v := world.uploads[key];
        && v.stage == Cleanup
        && v.completed == u.completed && v.commitAttempted == commitAttempted && v.discard == discard
    {
      commitAttempted, discard := true, true;
      Await(key, env, 7);
      ghost var l := Label.Resolve(key, env.resolved);
      if !env.resolved {
        Settle(key, Uncertain(u), l);
        return;
      }
      var slot := (u.release.project, u.form.filename);
      if slot !in world.artifacts {
        commitAttempted := false;
        Settle(key, Refuse(u, 409).(commitAttempted := commitAttempted), l);
        return;
      }
      var saved := world.artifacts[slot];
      discard := saved.key != key;
      commitAttempted := false;
      var resolved := u.(discard := discard, commitAttempted := commitAttempted);
      if saved.digest != u.digest {
        Settle(key, Refuse(resolved, 409), l);
        return;
      }
      Settle(key, resolved.(stage := Cleanup, reply := Published(slot.0, slot.1, u.digest)), l);
    }

    /** The finally clause. */
    method Finally(key: Key, u: Upload, completed: bool, commitAttempted: bool, discard: bool, env: Environment)
      returns (reply: Reply)
      requires At(key, u) && u.stage == Cleanup
      requires u.completed == completed && u.commitAttempted == commitAttempted && u.discard == discard
      modifies this
      ensures Follows(old(trace), trace, key, env) && Valid()
      ensures key in world.uploads && world.uploads[key].stage == Done && world.uploads[key].reply == reply
    {
      Await(key, env, 8);
      ghost var l := Finish(key, env.delete);
      if completed && discard && !commitAttempted {
        if env.delete != Failed {
          world := world.(bucket := world.bucket - {key});
        }
        if env.delete != Applied {
          Settle(key, u.(stage := Done, reply := Refused(500), fault := DeleteFault(env.delete)), l);
          return Refused(500);
        }
      }
      Settle(key, u.(stage := Done), l);
      return u.reply;
    }

    /** _claimable: the name may be published, as far as this upload can see. */
    method Claimable(key: Key, u: Upload, env: Environment) returns (r: Option<Upload>, ghost l: Label)
      requires At(key, u) && u.stage == Checking
      modifies this
      ensures Follows(old(trace), trace, key, env) && Valid() && key in world.uploads
      ensures r.Some? ==>
        && r.value == u.(stage := r.value.stage, found := r.value.found)
        && At(key, r.value) && Clears(world, key, r.value, l, env)
      ensures r.None? ==> TurnedDown(u, world.uploads[key])
    {
      var known;
      known, l := KnownName(key, u, env);
      if known.Failure? {
        return None, l;
      }
      if known.value {
        return Some(u), l;
      }
      r, l := NewName(key, u.(stage := Probing), env);
    }

    /** From the inspected object to the finally clause: claim, commit and read back. */
    method Publish(key: Key, u: Upload, env: Environment) returns (commitAttempted: bool, discard: bool)
      requires At(key, u) && u.stage == Checking && u.completed && !u.commitAttempted && u.discard
      modifies this
      ensures Follows(old(trace), trace, key, env) && Valid() && key in world.uploads
      ensures
        var v := world.uploads[key];
        && v.stage == Cleanup
        && v.completed && v.commitAttempted == commitAttempted && v.discard == discard
    {
      commitAttempted, discard := false, true;
      var cleared, l := Claimable(key, u, env);
      if cleared.None? {
        return;
      }
      commitAttempted := true;
      var committing := cleared.value.(stage := Committing, commitAttempted := commitAttempted);
      Settle(key, committing, l);
      var committed := Batch(key, committing, env);
      if !committed {
        return;
      }
      commitAttempted, discard := Resolve(key, committing.(stage := Resolving), env);
    }

    /** The body of the try statement. */
    method Attempt(key: Key, env: Environment) returns (completed: bool, commitAttempted: bool, discard: bool)
      requires At(key, FRESH)
      modifies this
      ensures Follows(old(trace), trace, key, env) && Valid() && key in world.uploads
      ensures
        var v := world.uploads[key];
        && v.stage == Cleanup
        && v.completed == completed && v.commitAttempted == commitAttempted && v.discard == discard
    {
      completed, commitAttempted, discard := false, false, true;
      var received := Receive(key, env);
      if received.Failure? {
        return;
      }
      completed := true;
      var u := world.uploads[key];
      var release := Validate(key, u, env);
      if release.Failure? {
        return;
      }
      commitAttempted, discard := Publish(key, u.(stage := Checking, release := release.value), env);
    }

    /** Publish one file. Whatever happens at the awaits, the execution is a run of the protocol that
        ends with this upload finished and its reply recorded. */
    method Upload(key: Key, env: Environment) returns (reply: Reply)
      requires Valid() && key !in world.uploads
      modifies this
      ensures Valid() && Follows(old(trace), trace, key, env)
      ensures key in world.uploads && world.uploads[key].stage == Done && world.uploads[key].reply == reply
      ensures reply.Published? ==>
        var slot := (reply.project, reply.filename);
        && slot in world.artifacts
        && world.artifacts[slot].digest == reply.digest
        && world.artifacts[slot].key in world.bucket
      ensures reply.Refused? && world.uploads[key].fault == NoFault ==> key !in world.bucket
      ensures (forall i :: env.others(i) == []) ==> world == Alone(oracle, old(world), key, env)
    {
      Settle(key, FRESH, Begin(key));
      var completed, commitAttempted, discard := Attempt(key, env);
      reply := Finally(key, world.uploads[key], completed, commitAttempted, discard, env);
      FinishedUpload(oracle, trace, key);
      if forall i :: env.others(i) == [] {
        Undisturbed(oracle, old(trace), trace, key, env);
      }
    }

    // ---------- the administrator ----------

    /** An await of approval `id`: others run, and the trace records all their steps and no more. */
    method AwaitApproval(id: nat, others: seq<Label>)
      requires Valid() && id in world.approvals
      modifies this
      ensures Valid() && trace == old(trace) + StepsBeside(others, id)
      ensures world.projects.Keys >= old(world.projects.Keys)
      ensures id in world.approvals && world.approvals[id] == old(world.approvals[id])
      ensures others == [] ==> world == old(world)
    {
      assert others[..0] == [];
      for i := 0 to |others|
        invariant Valid() && trace == old(trace) + StepsBeside(others[..i], id)
        invariant world.projects.Keys >= old(world.projects.Keys)
        invariant id in world.approvals && world.approvals[id] == old(world.approvals[id])
        invariant i == 0 ==> world == old(world)
      {
        BesideSnoc(others, i, id);
        if !ConcernsApproval(others[i], id) {
          OtherStep(id, others[i]);
        }
      }
      assert others[..|others|] == others;
    }

    method OtherStep(id: nat, l: Label)
      requires Valid() && id in world.approvals && !ConcernsApproval(l, id)
      modifies this
      ensures Valid() && trace == old(trace) + [l]
      ensures world.projects.Keys >= old(world.projects.Keys)
      ensures id in world.approvals && world.approvals[id] == old(world.approvals[id])
    {
      OthersLeaveApproval(oracle, world, l, id);
      RunSnoc(oracle, trace, l);
      ReachedInv(oracle, trace);
      StepKeeps(oracle, world, l);
      world := Next(oracle, world, l);
      trace := trace + [l];
    }

    /** The administrator's batch on what was read: audit, then approve, unless the name was approved meanwhile. */
    method Acknowledge(id: nat, a: Approval, actor: string, write: Write)
      requires Valid() && id in world.approvals && world.approvals[id] == a && a.project in world.projects
      modifies this
      ensures Valid() && trace == old(trace) + [ApproveWrite(id, actor, write)]
      ensures write != Failed ==>
        world == ApproveBatch(old(world).(approvals := old(world).approvals - {id}), a, actor)
      ensures write != Failed ==> a.project in world.projects && world.projects[a.project].approved.Some?
    {
      RunSnoc(oracle, trace, ApproveWrite(id, actor, write));
      world := world.(approvals := world.approvals - {id});
      if write != Failed && world.projects[a.project].approved.None? {
        world := world.(audit := world.audit + [Approved(a.project, a.collisions)]);
        world := world.(projects := world.projects[a.project := world.projects[a.project].(approved := Some(actor))]);
      }
      trace := trace + [ApproveWrite(id, actor, write)];
    }

    /** Acknowledge a public name: read the recorded collisions, then audit and approve in one batch.
        A success leaves the name approved, whoever approved it first. */
    method ApproveProject(id: nat, name: Name, actor: string, write: Write, others: seq<Label>)
      returns (status: nat)
      requires Valid() && id !in world.approvals
      modifies this
      ensures Valid()
      ensures status == 404 <==>
        name !in old(world.projects) || old(world.projects)[name].collisions == []
      ensures status == 404 ==> trace == old(trace) && world == old(world)
      ensures status != 404 ==>
        trace == old(trace) + [ApproveRead(id, name)] + StepsBeside(others, id) + [ApproveWrite(id, actor, write)]
      ensures status == 200 <==> status != 404 && write == Applied
      ensures status == 200 ==> name in world.projects && world.projects[name].approved.Some?
      ensures status == 200 && others == [] ==>
        world == ApproveBatch(old(world), Approval(name, old(world).projects[name].collisions), actor)
    {
      if name !in world.projects || world.projects[name].collisions == [] {
        return 404;
      }
      var pending := Approval(name, world.projects[name].collisions);
      RunSnoc(oracle, trace, ApproveRead(id, name));
      world := world.(approvals := world.approvals[id := pending]);
      trace := trace + [ApproveRead(id, name)];
      AwaitApproval(id, others);
      Acknowledge(id, pending, actor, write);
      return if write == Applied then 200 else 500;
    }
  }
}
