/** What every step of the publication protocol keeps, and what follows for whole runs. */
module PublicationSafety {
  import opened Prelude
  import opened Publication

  // ---------- the inductive invariant ----------

  predicate BeforeCommit(stage: Stage) {
    stage in {Receiving, Verifying, Checking, Probing, Recording, Rechecking, Committing}
  }

  /** The object of an upload: complete, non-empty and hashed by its digest. */
  predicate Stored(o: Oracle, u: Upload, stored: Option<Bytes>) {
    stored.Some? && 0 < u.size == |stored.value| && o.hash(stored.value) == u.digest
  }

  /** ... and inspected: its bytes are the release the upload is about to publish. */
  predicate Inspected(o: Oracle, u: Upload, stored: Option<Bytes>) {
    Stored(o, u, stored) && o.verify(u.form, stored.value) == Success(u.release)
  }

  predicate Underway(u: Upload) {
    u.completed && u.discard && u.fault == NoFault
  }

  /** The state of one upload, given its object and whether a catalog row holds its key. */
  predicate UploadOk(o: Oracle, u: Upload, stored: Option<Bytes>, held: bool) {
    && (u.reply.Published? ==> u.stage in {Cleanup, Done})
    && match u.stage
       case Receiving =>
         !u.completed && !u.commitAttempted && u.discard && u.fault == NoFault && stored.None? && !held
       case Verifying => Underway(u) && !u.commitAttempted && !held && Stored(o, u, stored)
       case Committing => Underway(u) && u.commitAttempted && !held && Inspected(o, u, stored)
       case Resolving => Underway(u) && u.commitAttempted && Inspected(o, u, stored)
       case Cleanup => CleanupOk(o, u, stored, held)
       case Done => DoneOk(u, stored, held)
       case _ => Underway(u) && !u.commitAttempted && !held && Inspected(o, u, stored)
  }

  /** receive_upload raised: there is an object exactly if its completion took effect unnoticed. */
  predicate Unreceived(u: Upload, stored: Option<Bytes>, held: bool) {
    !u.commitAttempted && !held && u.fault in {NoFault, ReceiveUncertain} &&
    (stored.Some? <==> u.fault == ReceiveUncertain)
  }

  /** At the finally clause: what is known about the object decides which of the three flags are set. */
  predicate CleanupOk(o: Oracle, u: Upload, stored: Option<Bytes>, held: bool) {
    if !u.completed then Unreceived(u, stored, held)
    else
      && Stored(o, u, stored)
      && if u.commitAttempted then u.fault == CommitUncertain
         else u.fault == NoFault && (held <==> !u.discard) && (held ==> u.reply.Published?)
  }

  predicate DoneOk(u: Upload, stored: Option<Bytes>, held: bool) {
    if !u.completed then Unreceived(u, stored, held)
    else if u.commitAttempted then u.fault == CommitUncertain && stored.Some?
    else
      && (held <==> !u.discard)
      && (held ==> u.fault == NoFault && u.reply.Published?)
      && u.fault in {NoFault, DeleteLost, DeleteFailed}
      && (stored.Some? <==> held || u.fault == DeleteFailed)
  }

  ghost predicate UploadsOk(
    o: Oracle, bucket: map<Key, Bytes>, artifacts: map<Slot, Row>, uploads: map<Key, Upload>)
  {
    forall key | key in uploads :: UploadOk(o, uploads[key], Get(bucket, key), Holds(artifacts, key))
  }

  /** A success reply names a row of the catalog with the digest replied. */
  predicate ReplyOk(artifacts: map<Slot, Row>, reply: Reply) {
    reply.Published? ==>
      && (reply.project, reply.filename) in artifacts
      && artifacts[(reply.project, reply.filename)].digest == reply.digest
  }

  ghost predicate RepliesOk(artifacts: map<Slot, Row>, uploads: map<Key, Upload>) {
    forall key | key in uploads :: ReplyOk(artifacts, uploads[key].reply)
  }

  /** A catalog row is the committed result of exactly the upload whose key it carries. */
  predicate RowOk(o: Oracle, bucket: map<Key, Bytes>, uploads: map<Key, Upload>, slot: Slot, row: Row) {
    && row.key in bucket
    && row.key in uploads
    && 0 < row.size == |bucket[row.key]|
    && o.hash(bucket[row.key]) == row.digest
    && var u := uploads[row.key];
    && slot == SlotOf(u)
    && u.digest == row.digest
    && o.verify(u.form, bucket[row.key]) == Success(u.release)
    && u.release.version == row.version
  }

  ghost predicate RowsOk(
    o: Oracle, bucket: map<Key, Bytes>, artifacts: map<Slot, Row>, uploads: map<Key, Upload>)
  {
    forall slot | slot in artifacts :: RowOk(o, bucket, uploads, slot, artifacts[slot])
  }

  ghost predicate DistinctKeys(artifacts: map<Slot, Row>) {
    forall a, b | a in artifacts && b in artifacts && artifacts[a].key == artifacts[b].key :: a == b
  }

  ghost predicate ProjectOk(artifacts: map<Slot, Row>, name: Name, p: Project) {
    && (p.claimed.Some? <==> HasArtifact(artifacts, name))
    && (p.claimed.Some? ==> p.collisions == [] || p.approved.Some?)
    && (p.approved.Some? ==> p.collisions != [])
  }

  ghost predicate ProjectsOk(artifacts: map<Slot, Row>, projects: map<Name, Project>) {
    && (forall slot | slot in artifacts :: slot.0 in projects)
    && (forall name | name in projects :: ProjectOk(artifacts, name, projects[name]))
  }

  /** Upload entries match artifact rows, one to one. */
  ghost predicate UploadsAudited(audit: seq<Event>, artifacts: map<Slot, Row>) {
    && (forall i | 0 <= i < |audit| && audit[i].Uploaded? ::
          var slot := (audit[i].project, audit[i].filename);
          slot in artifacts && artifacts[slot].digest == audit[i].digest)
    && (forall i, j | 0 <= i < j < |audit| && audit[i].Uploaded? && audit[j].Uploaded? ::
          (audit[i].project, audit[i].filename) != (audit[j].project, audit[j].filename))
    && (forall slot | slot in artifacts :: Uploaded(slot.0, slot.1, artifacts[slot].digest) in audit)
  }

  /** Approval entries match approved names, one to one, and carry their collisions. */
  ghost predicate ApprovalsAudited(audit: seq<Event>, projects: map<Name, Project>) {
    && (forall i | 0 <= i < |audit| && audit[i].Approved? ::
          && audit[i].project in projects
          && projects[audit[i].project].approved.Some?
          && projects[audit[i].project].collisions == audit[i].collisions)
    && (forall i, j | 0 <= i < j < |audit| && audit[i].Approved? && audit[j].Approved? ::
          audit[i].project != audit[j].project)
    && (forall name | name in projects && projects[name].approved.Some? ::
          Approved(name, projects[name].collisions) in audit)
  }

  ghost predicate PendingOk(approvals: map<nat, Approval>, projects: map<Name, Project>) {
    forall id | id in approvals ::
      && approvals[id].collisions != []
      && approvals[id].project in projects
      && projects[approvals[id].project].collisions == approvals[id].collisions
  }

  /** The part about objects and uploads. */
  ghost predicate ObjectInv(
    o: Oracle, bucket: map<Key, Bytes>, artifacts: map<Slot, Row>, uploads: map<Key, Upload>)
  {
    && bucket.Keys <= uploads.Keys
    && UploadsOk(o, bucket, artifacts, uploads)
    && RepliesOk(artifacts, uploads)
    && RowsOk(o, bucket, artifacts, uploads)
    && DistinctKeys(artifacts)
  }

  /** The part about names and the audit log. */
  ghost predicate CatalogInv(
    projects: map<Name, Project>, artifacts: map<Slot, Row>, audit: seq<Event>, approvals: map<nat, Approval>)
  {
    && ProjectsOk(artifacts, projects)
    && UploadsAudited(audit, artifacts)
    && ApprovalsAudited(audit, projects)
    && PendingOk(approvals, projects)
  }

  ghost predicate Inv(o: Oracle, s: State) {
    && ObjectInv(o, s.bucket, s.artifacts, s.uploads)
    && CatalogInv(s.projects, s.artifacts, s.audit, s.approvals)
  }

  // ---------- what one step may change ----------

  /** Claims, approvals and recorded collisions are final. */
  ghost predicate ProjectsGrow(s: map<Name, Project>, t: map<Name, Project>) {
    forall name | name in s ::
      && name in t
      && (s[name].claimed.Some? ==> t[name].claimed == s[name].claimed)
      && (s[name].approved.Some? ==> t[name].approved == s[name].approved)
      && (s[name].collisions != [] || s[name].claimed.Some? ==> t[name].collisions == s[name].collisions)
  }

  ghost predicate ArtifactsGrow(s: map<Slot, Row>, t: map<Slot, Row>) {
    forall slot | slot in s :: slot in t && t[slot] == s[slot]
  }

  /** The objects of catalog rows stay, byte for byte. */
  ghost predicate ObjectsStay(artifacts: map<Slot, Row>, s: map<Key, Bytes>, t: map<Key, Bytes>) {
    forall slot | slot in artifacts && artifacts[slot].key in s ::
      artifacts[slot].key in t && t[artifacts[slot].key] == s[artifacts[slot].key]
  }

  /** A finished upload is final, and one whose batch is over never gains a row. */
  ghost predicate UploadsGrow(
    artifacts: map<Slot, Row>, s: map<Key, Upload>, artifacts': map<Slot, Row>, t: map<Key, Upload>)
  {
    forall key | key in s ::
      && key in t
      && (s[key].stage == Done ==> t[key] == s[key])
      && (!BeforeCommit(s[key].stage) ==> !BeforeCommit(t[key].stage))
      && (!BeforeCommit(s[key].stage) && !Holds(artifacts, key) ==> !Holds(artifacts', key))
  }

  ghost predicate Grows(s: State, t: State) {
    && ProjectsGrow(s.projects, t.projects)
    && ArtifactsGrow(s.artifacts, t.artifacts)
    && ObjectsStay(s.artifacts, s.bucket, t.bucket)
    && s.audit <= t.audit
    && UploadsGrow(s.artifacts, s.uploads, t.artifacts, t.uploads)
  }

  lemma GrowsTransitive(s: State, t: State, u: State)
    requires Grows(s, t) && Grows(t, u)
    ensures Grows(s, u)
  {
  }

  /** A step that only moves upload `key` and possibly adds or removes its own unpublished object. */
  lemma LocalStep(
      o: Oracle, s: State, key: Key, bucket: map<Key, Bytes>, u: Upload)
    requires ObjectInv(o, s.bucket, s.artifacts, s.uploads)
    requires bucket.Keys <= s.uploads.Keys + {key}
    requires forall k | k != key :: k in bucket <==> k in s.bucket
    requires forall k | k != key && k in bucket :: bucket[k] == s.bucket[k]
    requires UploadOk(o, u, Get(bucket, key), Holds(s.artifacts, key)) && ReplyOk(s.artifacts, u.reply)
    requires Holds(s.artifacts, key) ==>
               && key in s.uploads && key in bucket && key in s.bucket && bucket[key] == s.bucket[key]
               && u.digest == s.uploads[key].digest && u.form == s.uploads[key].form
               && u.release == s.uploads[key].release
    ensures ObjectInv(o, bucket, s.artifacts, s.uploads[key := u])
  {
    forall slot | slot in s.artifacts
      ensures RowOk(o, bucket, s.uploads[key := u], slot, s.artifacts[slot])
    {
      assert RowOk(o, s.bucket, s.uploads, slot, s.artifacts[slot]);
    }
    forall k | k in s.uploads && k != key
      ensures UploadOk(o, s.uploads[k], Get(bucket, k), Holds(s.artifacts, k))
    {
      assert Get(bucket, k) == Get(s.bucket, k);
    }
  }
}
