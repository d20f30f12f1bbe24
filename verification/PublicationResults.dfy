/** The promises of private publishing, over every interleaving of uploads, approvals and lost responses. */
module PublicationResults {
  import opened Prelude
  import opened Publication
  import opened PublicationSafety
  import opened PublicationSteps

  lemma Later(o: Oracle, labels: seq<Label>, later: seq<Label>)
    ensures Reached(o, labels + later) == Run(o, Reached(o, labels), later)
    ensures Inv(o, Reached(o, labels)) && Inv(o, Reached(o, labels + later))
    ensures Grows(Reached(o, labels), Reached(o, labels + later))
  {
    RunAppend(o, EMPTY, labels, later);
    ReachedInv(o, labels);
    RunKeeps(o, Reached(o, labels), later);
  }

  /** A published object is never lost: in every later state its row is the same row, and the bucket
      still has bytes that hash to the row's digest and were inspected as exactly that release. */
  lemma CommittedObjectSafe(o: Oracle, labels: seq<Label>, later: seq<Label>, slot: Slot)
    requires slot in Reached(o, labels).artifacts
    ensures
      var (s, t) := (Reached(o, labels), Reached(o, labels + later));
      var row := s.artifacts[slot];
      && slot in t.artifacts && t.artifacts[slot] == row
      && row.key in s.bucket && row.key in t.bucket && t.bucket[row.key] == s.bucket[row.key]
      && o.hash(t.bucket[row.key]) == row.digest
      && |t.bucket[row.key]| == row.size > 0
      && exists form: Form, release: Release ::
          && o.verify(form, t.bucket[row.key]) == Success(release)
          && slot == (release.project, form.filename) && release.version == row.version
  {
    Later(o, labels, later);
    var s, t := Reached(o, labels), Reached(o, labels + later);
    var row := s.artifacts[slot];
    assert RowOk(o, s.bucket, s.uploads, slot, row);
    assert RowOk(o, t.bucket, t.uploads, slot, row);
    var u := t.uploads[row.key];
    assert o.verify(u.form, t.bucket[row.key]) == Success(u.release);
  }

  lemma FinishDeletes(o: Oracle, s: State, key: Key, write: Write)
    requires Inv(o, s) && key in s.bucket && key !in Next(o, s, Finish(key, write)).bucket
    ensures !Holds(s.artifacts, key) && key in s.uploads && s.uploads[key].stage == Cleanup
  {
    assert UploadOk(o, s.uploads[key], Get(s.bucket, key), Holds(s.artifacts, key));
  }

  /** Cleanup deletes only what no row holds and no row will ever hold. */
  lemma DeletedNeverHeld(o: Oracle, labels: seq<Label>, key: Key, write: Write, later: seq<Label>)
    requires key in Reached(o, labels).bucket
    requires key !in Next(o, Reached(o, labels), Finish(key, write)).bucket
    ensures !Holds(Reached(o, labels).artifacts, key)
    ensures !Holds(Run(o, Next(o, Reached(o, labels), Finish(key, write)), later).artifacts, key)
  {
    ReachedInv(o, labels);
    DeletionIsSafe(o, Reached(o, labels), key, write, later);
  }

  lemma DeletionIsSafe(o: Oracle, s: State, key: Key, write: Write, later: seq<Label>)
    requires Inv(o, s) && key in s.bucket && key !in Next(o, s, Finish(key, write)).bucket
    ensures !Holds(s.artifacts, key)
    ensures !Holds(Run(o, Next(o, s, Finish(key, write)), later).artifacts, key)
  {
    var t := Next(o, s, Finish(key, write));
    DeletionStep(o, s, t, key, write);
    UnheldAfterwards(o, s, t, later, key);
  }

  lemma DeletionStep(o: Oracle, s: State, t: State, key: Key, write: Write)
    requires Inv(o, s) && key in s.bucket && t == Next(o, s, Finish(key, write)) && key !in t.bucket
    ensures Inv(o, t) && Grows(s, t)
    ensures !Holds(s.artifacts, key) && key in s.uploads && !BeforeCommit(s.uploads[key].stage)
  {
    FinishDeletes(o, s, key, write);
    StepKeeps(o, s, Finish(key, write));
  }

  lemma UnheldAfterwards(o: Oracle, s: State, t: State, later: seq<Label>, key: Key)
    requires Inv(o, t) && Grows(s, t)
    requires key in s.uploads && !BeforeCommit(s.uploads[key].stage) && !Holds(s.artifacts, key)
    ensures !Holds(Run(o, t, later).artifacts, key)
  {
    RunKeeps(o, t, later);
    UnheldForever(o, s, t, Run(o, t, later), key);
  }

  lemma UnheldForever(o: Oracle, s: State, t: State, later: State, key: Key)
    requires Inv(o, t) && Grows(s, t) && Grows(t, later)
    requires key in s.uploads && !BeforeCommit(s.uploads[key].stage) && !Holds(s.artifacts, key)
    ensures !Holds(later.artifacts, key)
  {
  }

  // ---------- name ownership ----------

  /** A name is claimed exactly if it has an artifact, and never against a recorded, unapproved collision. */
  lemma OwnershipInvariant(o: Oracle, labels: seq<Label>, name: Name)
    ensures
      var s := Reached(o, labels);
      && (HasArtifact(s.artifacts, name) <==> name in s.projects && s.projects[name].claimed.Some?)
      && (HasArtifact(s.artifacts, name) ==> s.projects[name].collisions == [] || s.projects[name].approved.Some?)
  {
    var s := Reached(o, labels);
    ReachedInv(o, labels);
    if name in s.projects {
      assert ProjectOk(s.artifacts, name, s.projects[name]);
    }
  }

  /** Claims, approvals and collision lists never change once they are set. */
  lemma OwnershipIsFinal(o: Oracle, labels: seq<Label>, later: seq<Label>, name: Name)
    requires name in Reached(o, labels).projects
    ensures
      var t := Reached(o, labels + later);
      && name in t.projects
      && var (p, q) := (Reached(o, labels).projects[name], t.projects[name]);
         && (p.claimed.Some? ==> q.claimed == p.claimed && q.collisions == p.collisions)
         && (p.approved.Some? ==> q.approved == p.approved)
         && (p.collisions != [] ==> q.collisions == p.collisions)
  {
    Later(o, labels, later);
  }

  /** The recheck inside the batch: whatever happened since the upload's own check, a name with an
      unapproved collision gains no artifact, and the upload is refused once it reads back. */
  lemma LateCollisionBlocks(o: Oracle, labels: seq<Label>, key: Key, now: int)
    requires
      var s := Reached(o, labels);
      && key in s.uploads && s.uploads[key].stage == Committing
      && var name := s.uploads[key].release.project;
         name in s.projects && s.projects[name].collisions != [] && s.projects[name].approved.None?
    ensures
      var s := Reached(o, labels);
      var t := Next(o, s, Commit(key, now, Applied));
      && t == s.(uploads := t.uploads)
      && key in t.uploads && t.uploads[key].stage == Resolving
      && var v := Move(o, t, t.uploads[key], Resolve(key, true));
         v.reply == Refused(409) && WillDelete(v)
  {
    ReachedInv(o, labels);
    BlockedSteps(o, Reached(o, labels), key, now);
  }

  lemma BlockedSteps(o: Oracle, s: State, key: Key, now: int)
    requires Inv(o, s) && key in s.uploads && s.uploads[key].stage == Committing
    requires
      var name := s.uploads[key].release.project;
      name in s.projects && s.projects[name].collisions != [] && s.projects[name].approved.None?
    ensures
      var u := s.uploads[key];
      var t := Next(o, s, Commit(key, now, Applied));
      && t == Put(s, key, AfterCommit(u, Applied))
      && Move(o, t, t.uploads[key], Resolve(key, true)) ==
         AfterResolve(AfterCommit(u, Applied), key, Get(s.artifacts, SlotOf(u)), true)
      && var v := AfterResolve(AfterCommit(u, Applied), key, Get(s.artifacts, SlotOf(u)), true);
         v.reply == Refused(409) && WillDelete(v)
  {
    CollisionBlocks(o, s, key, now);
    CommitIs(o, s, key, now, Applied);
    ResolveIs(o, Put(s, key, AfterCommit(s.uploads[key], Applied)), AfterCommit(s.uploads[key], Applied), key);
  }

  lemma ResolveIs(o: Oracle, t: State, u: Upload, key: Key)
    ensures Move(o, t, u, Resolve(key, true)) == AfterResolve(u, key, Get(t.artifacts, SlotOf(u)), true)
  {
  }

  lemma CollisionBlocks(o: Oracle, s: State, key: Key, now: int)
    requires Inv(o, s) && key in s.uploads && s.uploads[key].stage == Committing
    requires
      var name := s.uploads[key].release.project;
      name in s.projects && s.projects[name].collisions != [] && s.projects[name].approved.None?
    ensures
      var u := s.uploads[key];
      && CommitBatch(s, u, key, now) == s
      && var v := AfterResolve(AfterCommit(u, Applied), key, Get(s.artifacts, SlotOf(u)), true);
         v.reply == Refused(409) && WillDelete(v)
  {
    var u := s.uploads[key];
    assert UploadOk(o, u, Get(s.bucket, key), Holds(s.artifacts, key));
    assert ProjectOk(s.artifacts, u.release.project, s.projects[u.release.project]);
    BatchEffect(s, u, key, now);
    assert !HasArtifact(s.artifacts, SlotOf(u).0);
    assert SlotOf(u) !in s.artifacts;
  }

  // ---------- replies ----------

  ghost predicate Replied(s: State, key: Key, name: Name, filename: string, digest: Digest) {
    key in s.uploads && s.uploads[key].stage == Done && s.uploads[key].reply == Published(name, filename, digest)
  }

  /** After a success reply the catalog holds that digest for that file in every later state. */
  lemma ReplyIsDurable(
      o: Oracle, labels: seq<Label>, later: seq<Label>, key: Key, name: Name, filename: string, digest: Digest)
    requires Replied(Reached(o, labels), key, name, filename, digest)
    ensures
      var t := Reached(o, labels + later);
      && (name, filename) in t.artifacts
      && t.artifacts[(name, filename)].digest == digest
      && Replied(t, key, name, filename, digest)
  {
    Later(o, labels, later);
    assert ReplyOk(Reached(o, labels).artifacts, Reached(o, labels).uploads[key].reply);
  }

  /** No two success replies, at any two times of a run, name the same file with different digests. */
  lemma RepliesAgree(
      o: Oracle, labels: seq<Label>, later: seq<Label>, a: Key, b: Key, name: Name, filename: string,
      digest: Digest, digest': Digest)
    requires Replied(Reached(o, labels), a, name, filename, digest)
    requires Replied(Reached(o, labels + later), b, name, filename, digest')
    ensures digest == digest'
  {
    ReplyIsDurable(o, labels, later, a, name, filename, digest);
    ReplyIsDurable(o, labels + later, [], b, name, filename, digest');
    assert labels + later + [] == labels + later;
  }

  /** A refused upload whose responses all arrived leaves nothing behind, now or later. */
  lemma RefusedLeavesNothing(o: Oracle, labels: seq<Label>, later: seq<Label>, key: Key)
    requires
      var s := Reached(o, labels);
      && key in s.uploads && s.uploads[key].stage == Done
      && s.uploads[key].reply.Refused? && s.uploads[key].fault == NoFault
    ensures
      var t := Reached(o, labels + later);
      key !in t.bucket && !Holds(t.artifacts, key)
  {
    Later(o, labels, later);
    RefusedIsClean(o, Reached(o, labels), Reached(o, labels + later), key);
  }

  lemma RefusedIsClean(o: Oracle, s: State, t: State, key: Key)
    requires Inv(o, t) && Grows(s, t)
    requires key in s.uploads && s.uploads[key].stage == Done
    requires s.uploads[key].reply.Refused? && s.uploads[key].fault == NoFault
    ensures key !in t.bucket && !Holds(t.artifacts, key)
  {
    assert t.uploads[key] == s.uploads[key];
    assert UploadOk(o, t.uploads[key], Get(t.bucket, key), Holds(t.artifacts, key));
  }

  // ---------- conservation of objects ----------

  ghost predicate AllDone(s: State) {
    forall key | key in s.uploads :: s.uploads[key].stage == Done
  }

  function RowKeys(artifacts: map<Slot, Row>): set<Key> {
    set slot | slot in artifacts :: artifacts[slot].key
  }

  /** Faults after which the code leaves an object where it is. */
  const LEAVING: set<Fault> := {CommitUncertain, ReceiveUncertain, DeleteFailed}

  function FaultKeys(s: State, faults: set<Fault>): set<Key> {
    set key | key in s.uploads && s.uploads[key].fault in faults
  }

  /** Uploads on their way, with their object complete. */
  predicate InFlight(u: Upload) {
    u.stage != Done && u.completed
  }

  /** One upload in any reachable state: its object is in the bucket exactly if a row holds it, it is still on its way
      with the object complete, or a fault left it there. */
  lemma UploadObject(o: Oracle, s: State, key: Key)
    requires Inv(o, s) && key in s.uploads
    ensures
      var u := s.uploads[key];
      key in s.bucket <==> Holds(s.artifacts, key) || InFlight(u) || u.fault in LEAVING
    ensures s.uploads[key].fault in {ReceiveUncertain, DeleteFailed} ==> !Holds(s.artifacts, key)
  {
    assert UploadOk(o, s.uploads[key], Get(s.bucket, key), Holds(s.artifacts, key));
    if Holds(s.artifacts, key) {
      OwnRow(o, s, key);
    }
  }

  function FlightKeys(s: State): set<Key> {
    set key | key in s.uploads && InFlight(s.uploads[key])
  }

  /** In every reachable state, crashed uploads included, the bucket holds exactly the objects of the catalog, those of
      uploads on their way, and those that a fault left. */
  lemma EveryObject(o: Oracle, labels: seq<Label>)
    ensures
      var s := Reached(o, labels);
      && s.bucket.Keys == RowKeys(s.artifacts) + FlightKeys(s) + FaultKeys(s, LEAVING)
      && forall key | key in s.uploads ::
           key in s.bucket <==>
           Holds(s.artifacts, key) || InFlight(s.uploads[key]) || s.uploads[key].fault in LEAVING
  {
    ReachedInv(o, labels);
    ObjectsAre(o, Reached(o, labels));
  }

  lemma ObjectsAre(o: Oracle, s: State)
    requires Inv(o, s)
    ensures s.bucket.Keys == RowKeys(s.artifacts) + FlightKeys(s) + FaultKeys(s, LEAVING)
    ensures forall key | key in s.uploads ::
              key in s.bucket <==>
              Holds(s.artifacts, key) || InFlight(s.uploads[key]) || s.uploads[key].fault in LEAVING
  {
    forall key | key in s.uploads
      ensures key in s.bucket <==>
              Holds(s.artifacts, key) || InFlight(s.uploads[key]) || s.uploads[key].fault in LEAVING
    {
      UploadObject(o, s, key);
    }
    RowKeysAreHeld(s.artifacts);
    forall key | key in RowKeys(s.artifacts) ensures key in s.uploads {
      var slot :| slot in s.artifacts && s.artifacts[slot].key == key;
      assert RowOk(o, s.bucket, s.uploads, slot, s.artifacts[slot]);
    }
  }

  /** Once every upload has finished, the bucket holds exactly the objects of the catalog and those of uploads whose
      commit is uncertain, whose completion was lost, or whose delete failed. */
  lemma Conservation(o: Oracle, labels: seq<Label>)
    requires AllDone(Reached(o, labels))
    ensures
      var s := Reached(o, labels);
      && s.bucket.Keys == RowKeys(s.artifacts) + FaultKeys(s, LEAVING)
      && forall key | key in s.uploads ::
           key in s.bucket <==> Holds(s.artifacts, key) || s.uploads[key].fault in LEAVING
  {
    EveryObject(o, labels);
    assert FlightKeys(Reached(o, labels)) == {};
  }

  lemma RowKeysAreHeld(artifacts: map<Slot, Row>)
    ensures forall key :: key in RowKeys(artifacts) <==> Holds(artifacts, key)
  {
  }

  /** Only uncertain commits are meant to leave objects behind. So it is exactly if no completion was lost and no
      delete failed. */
  lemma OnlyUncertainCommitsRemain(o: Oracle, labels: seq<Label>)
    requires AllDone(Reached(o, labels))
    ensures
      var s := Reached(o, labels);
      s.bucket.Keys == RowKeys(s.artifacts) + FaultKeys(s, {CommitUncertain}) <==>
      forall key | key in s.uploads :: s.uploads[key].fault !in {ReceiveUncertain, DeleteFailed}
  {
    var s := Reached(o, labels);
    Conservation(o, labels);
    ReachedInv(o, labels);
    RowKeysAreHeld(s.artifacts);
    forall key | key in s.uploads && s.uploads[key].fault in {ReceiveUncertain, DeleteFailed}
      ensures key in s.bucket && key !in RowKeys(s.artifacts) + FaultKeys(s, {CommitUncertain})
    {
      UploadObject(o, s, key);
    }
  }

  /** A run in which the completion of the multipart upload is lost: its object stays, and nothing refers to it. */
  lemma LostCompletionRemains(o: Oracle, key: Key, bytes: Bytes)
    ensures
      var s := Reached(o, [Begin(key), Receive(key, CompletionLost(bytes)), Finish(key, Applied)]);
      && AllDone(s) && key in s.uploads
      && s.uploads[key].reply == Refused(503) && s.uploads[key].fault == ReceiveUncertain
      && s.bucket == map[key := bytes] && s.artifacts == map[]
  {
    RunThree(o, Begin(key), Receive(key, CompletionLost(bytes)), Finish(key, Applied));
  }

  lemma RunThree(o: Oracle, a: Label, b: Label, c: Label)
    ensures Reached(o, [a, b, c]) == Next(o, Next(o, Next(o, EMPTY, a), b), c)
  {
    var s := Next(o, EMPTY, a);
    var t := Next(o, s, b);
    assert Run(o, EMPTY, [a, b, c]) == Run(o, s, [a, b, c][1..]) && [a, b, c][1..] == [b, c];
    assert Run(o, s, [b, c]) == Run(o, t, [b, c][1..]) && [b, c][1..] == [c];
    assert Run(o, t, [c]) == Run(o, Next(o, t, c), [c][1..]) && [c][1..] == [];
  }

  ghost predicate NoFaults(s: State) {
    forall key | key in s.uploads :: s.uploads[key].fault == NoFault
  }

  lemma ObjectInItsSlot(o: Oracle, s: State, key: Key)
    requires Inv(o, s) && AllDone(s) && NoFaults(s) && key in s.bucket
    ensures key in s.uploads
    ensures SlotOf(s.uploads[key]) in s.artifacts && s.artifacts[SlotOf(s.uploads[key])].key == key
  {
    OwnRow(o, s, key);
  }

  /** Without faults the objects and the rows match one to one, so any number of concurrent uploads of
      one file leave exactly one object. */
  lemma FaultFreeConservation(o: Oracle, labels: seq<Label>)
    requires AllDone(Reached(o, labels)) && NoFaults(Reached(o, labels))
    ensures
      var s := Reached(o, labels);
      && s.bucket.Keys == RowKeys(s.artifacts) <= s.uploads.Keys
      && (forall a, b | a in s.bucket && b in s.bucket && SlotOf(s.uploads[a]) == SlotOf(s.uploads[b]) :: a == b)
      && (forall slot | slot in s.artifacts ::
            exists a :: a in s.bucket && SlotOf(s.uploads[a]) == slot && s.artifacts[slot].key == a)
  {
    ReachedInv(o, labels);
    ObjectsInTheirSlots(o, Reached(o, labels));
    OnePerSlot(Reached(o, labels));
  }

  /** Every object is in the row of its upload's file, and every row has the object of such an upload. */
  ghost predicate Paired(s: State) {
    && s.bucket.Keys <= s.uploads.Keys
    && (forall key | key in s.bucket ::
          SlotOf(s.uploads[key]) in s.artifacts && s.artifacts[SlotOf(s.uploads[key])].key == key)
    && (forall slot | slot in s.artifacts ::
          s.artifacts[slot].key in s.bucket && SlotOf(s.uploads[s.artifacts[slot].key]) == slot)
  }

  lemma OnePerSlot(s: State)
    requires Paired(s)
    ensures s.bucket.Keys == RowKeys(s.artifacts) <= s.uploads.Keys
    ensures forall a, b | a in s.bucket && b in s.bucket && SlotOf(s.uploads[a]) == SlotOf(s.uploads[b]) :: a == b
    ensures forall slot | slot in s.artifacts ::
              exists a :: a in s.bucket && SlotOf(s.uploads[a]) == slot && s.artifacts[slot].key == a
  {
  }

  lemma ObjectsInTheirSlots(o: Oracle, s: State)
    requires Inv(o, s) && AllDone(s) && NoFaults(s)
    ensures Paired(s)
  {
    forall key | key in s.bucket
      ensures key in s.uploads
      ensures SlotOf(s.uploads[key]) in s.artifacts && s.artifacts[SlotOf(s.uploads[key])].key == key
    {
      ObjectInItsSlot(o, s, key);
    }
    forall slot | slot in s.artifacts
      ensures s.artifacts[slot].key in s.bucket && SlotOf(s.uploads[s.artifacts[slot].key]) == slot
    {
      assert RowOk(o, s.bucket, s.uploads, slot, s.artifacts[slot]);
    }
  }

  // ---------- the audit log ----------

  function CountUploaded(audit: seq<Event>, slot: Slot): nat {
    if audit == [] then 0
    else
      var e := audit[|audit| - 1];
      CountUploaded(audit[..|audit| - 1], slot)
      + if e.Uploaded? && (e.project, e.filename) == slot then 1 else 0
  }

  function CountApproved(audit: seq<Event>, name: Name): nat {
    if audit == [] then 0
    else
      var e := audit[|audit| - 1];
      CountApproved(audit[..|audit| - 1], name) + if e.Approved? && e.project == name then 1 else 0
  }

  lemma {:induction false} UploadsUnique(audit: seq<Event>, slot: Slot)
    requires forall i, j | 0 <= i < j < |audit| && audit[i].Uploaded? && audit[j].Uploaded? ::
               (audit[i].project, audit[i].filename) != (audit[j].project, audit[j].filename)
    ensures CountUploaded(audit, slot) ==
            if exists e | e in audit :: e.Uploaded? && (e.project, e.filename) == slot then 1 else 0
  {
    if audit != [] {
      var front, e := audit[..|audit| - 1], audit[|audit| - 1];
      UploadsUnique(front, slot);
      assert audit == front + [e];
    }
  }

  lemma {:induction false} ApprovalsUnique(audit: seq<Event>, name: Name)
    requires forall i, j | 0 <= i < j < |audit| && audit[i].Approved? && audit[j].Approved? ::
               audit[i].project != audit[j].project
    ensures CountApproved(audit, name) ==
            if exists e | e in audit :: e.Approved? && e.project == name then 1 else 0
  {
    if audit != [] {
      var front, e := audit[..|audit| - 1], audit[|audit| - 1];
      ApprovalsUnique(front, name);
      assert audit == front + [e];
    }
  }

  /** Under concurrent retries and approvals the log has exactly one entry per artifact row and exactly
      one per approved name, each saying what the catalog says. */
  lemma AuditIsExact(o: Oracle, labels: seq<Label>, slot: Slot, name: Name)
    ensures
      var s := Reached(o, labels);
      && CountUploaded(s.audit, slot) == (if slot in s.artifacts then 1 else 0)
      && CountApproved(s.audit, name) == (if name in s.projects && s.projects[name].approved.Some? then 1 else 0)
      && (slot in s.artifacts ==> Uploaded(slot.0, slot.1, s.artifacts[slot].digest) in s.audit)
      && (name in s.projects && s.projects[name].approved.Some? ==>
            Approved(name, s.projects[name].collisions) in s.audit)
  {
    var s := Reached(o, labels);
    ReachedInv(o, labels);
    UploadsUnique(s.audit, slot);
    ApprovalsUnique(s.audit, name);
  }

  // ---------- serving ----------

  datatype Response = NotFound | Blocked | Unavailable | Body(bytes: Bytes)

  /** A row the download query may select for a digest and a file name. */
  predicate Selected(s: State, digest: Digest, filename: string, slot: Slot) {
    && slot in s.artifacts
    && slot.1 == filename && s.artifacts[slot].digest == digest
    && slot.0 in s.projects && s.projects[slot.0].claimed.Some?
  }

  function Artifact(s: State, row: Option<Row>, blocked: bool): Response {
    if row.None? then NotFound
    else if blocked then Blocked
    else if row.value.key in s.bucket then Body(s.bucket[row.value.key])
    else Unavailable
  }

  /** Bytes served for a digest hash to it and were inspected; a selected row is never unavailable. */
  lemma ServedBytesVerified(o: Oracle, labels: seq<Label>, digest: Digest, filename: string, slot: Slot, blocked: bool)
    requires Selected(Reached(o, labels), digest, filename, slot)
    ensures
      var s := Reached(o, labels);
      var response := Artifact(s, Some(s.artifacts[slot]), blocked);
      if blocked then response == Blocked
      else
        && response.Body?
        && o.hash(response.bytes) == digest
        && exists form: Form :: form.filename == filename && o.verify(form, response.bytes).Success?
  {
    var s := Reached(o, labels);
    ReachedInv(o, labels);
    var row := s.artifacts[slot];
    assert RowOk(o, s.bucket, s.uploads, slot, row);
    assert s.uploads[row.key].form.filename == filename;
  }

  /** From its success reply on, a file can be selected by its digest in every state. */
  lemma PublishedIsSelected(
      o: Oracle, labels: seq<Label>, later: seq<Label>, key: Key, name: Name, filename: string, digest: Digest)
    requires Replied(Reached(o, labels), key, name, filename, digest)
    ensures Selected(Reached(o, labels + later), digest, filename, (name, filename))
  {
    ReplyIsDurable(o, labels, later, key, name, filename, digest);
    OwnershipInvariant(o, labels + later, name);
    assert HasArtifact(Reached(o, labels + later).artifacts, name);
  }
}
