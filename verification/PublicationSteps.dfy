/** Each label keeps the invariant of the publication protocol and only accumulates published facts. */
module PublicationSteps {
  import opened Prelude
  import opened Publication
  import opened PublicationSafety

  /** The effect of a step that leaves the catalog alone. */
  lemma Local(o: Oracle, s: State, key: Key, bucket: map<Key, Bytes>, u: Upload)
    requires Inv(o, s)
    requires key in s.uploads ==>
               && s.uploads[key].stage != Done
               && (BeforeCommit(s.uploads[key].stage) || !BeforeCommit(u.stage))
    requires bucket.Keys <= s.uploads.Keys + {key}
    requires forall k | k != key :: k in bucket <==> k in s.bucket
    requires forall k | k != key && k in bucket :: bucket[k] == s.bucket[k]
    requires UploadOk(o, u, Get(bucket, key), Holds(s.artifacts, key)) && ReplyOk(s.artifacts, u.reply)
    requires Holds(s.artifacts, key) ==>
               && key in s.uploads && key in bucket && key in s.bucket && bucket[key] == s.bucket[key]
               && u.digest == s.uploads[key].digest && u.form == s.uploads[key].form
               && u.release == s.uploads[key].release
    ensures
      var t := Put(s.(bucket := bucket), key, u);
      Inv(o, t) && Grows(s, t)
  {
    LocalStep(o, s, key, bucket, u);
  }

  lemma BeginKeeps(o: Oracle, s: State, key: Key)
    requires Inv(o, s) && key !in s.uploads
    ensures Inv(o, Put(s, key, FRESH)) && Grows(s, Put(s, key, FRESH))
  {
    assert !Holds(s.artifacts, key);
    Local(o, s, key, s.bucket, FRESH);
    assert s.(bucket := s.bucket) == s;
  }

  // ---------- the locals stay consistent with the object and the catalog ----------

  lemma ReceiveMoves(o: Oracle, s: State, u: Upload, key: Key, receipt: Receipt, held: bool)
    requires u.stage == Receiving && UploadOk(o, u, Get(s.bucket, key), held)
    ensures
      var l := Receive(key, receipt);
      && UploadOk(o, Move(o, s, u, l), Get(Effect(s, u, l).bucket, key), held)
      && (Effect(s, u, l) == s || exists bytes {:trigger s.bucket[key := bytes]} ::
            Effect(s, u, l) == s.(bucket := s.bucket[key := bytes]))
  {
    if receipt.CompletionLost? || (receipt.Received? && receipt.bytes != []) {
      assert Effect(s, u, Receive(key, receipt)) == s.(bucket := s.bucket[key := receipt.bytes]);
    }
  }

  lemma EarlyMoves(o: Oracle, s: State, u: Upload, l: Label, held: bool)
    requires l.Verify? || l.Check? || l.Probe? || l.Record? || l.Recheck?
    requires u.stage == StageOf(l) && UploadOk(o, u, Get(s.bucket, l.key), held)
    ensures UploadOk(o, Move(o, s, u, l), Get(s.bucket, l.key), held) && Move(o, s, u, l).reply.Refused?
  {
  }

  lemma CommitMoves(o: Oracle, u: Upload, write: Write, stored: Option<Bytes>, held: bool)
    requires u.stage == Committing && UploadOk(o, u, stored, held)
    ensures UploadOk(o, AfterCommit(u, write), stored, held) && AfterCommit(u, write).reply.Refused?
    ensures write != Failed ==> UploadOk(o, AfterCommit(u, write), stored, true)
  {
  }

  /** The crux of the cleanup rule: `discard` is cleared exactly when the row read back is the upload's own. */
  lemma ResolveMoves(o: Oracle, u: Upload, key: Key, saved: Option<Row>, ok: bool, stored: Option<Bytes>, held: bool)
    requires u.stage == Resolving && UploadOk(o, u, stored, held)
    requires held <==> saved.Some? && saved.value.key == key
    requires held ==> saved.value.digest == u.digest
    ensures UploadOk(o, AfterResolve(u, key, saved, ok), stored, held)
  {
  }

  lemma FinishMoves(o: Oracle, s: State, u: Upload, key: Key, write: Write, held: bool)
    requires u.stage == Cleanup && UploadOk(o, u, Get(s.bucket, key), held)
    ensures
      var l := Finish(key, write);
      && UploadOk(o, AfterFinish(u, write), Get(Effect(s, u, l).bucket, key), held)
      && (held ==> Effect(s, u, l) == s)
      && (Effect(s, u, l) == s || Effect(s, u, l) == s.(bucket := s.bucket - {key}))
  {
  }

  // ---------- steps that leave the catalog alone ----------

  lemma ReceiveKeeps(o: Oracle, s: State, key: Key, receipt: Receipt)
    requires Inv(o, s) && key in s.uploads && s.uploads[key].stage == Receiving
    ensures
      var l := Receive(key, receipt);
      var t := Put(Effect(s, s.uploads[key], l), key, Move(o, s, s.uploads[key], l));
      Inv(o, t) && Grows(s, t)
  {
    var u, l := s.uploads[key], Receive(key, receipt);
    assert UploadOk(o, u, Get(s.bucket, key), Holds(s.artifacts, key));
    ReceiveMoves(o, s, u, key, receipt, Holds(s.artifacts, key));
    Local(o, s, key, Effect(s, u, l).bucket, Move(o, s, u, l));
  }

  /** Before its batch an upload without a row may move to any consistent locals. */
  lemma UnpublishedStep(o: Oracle, s: State, key: Key, v: Upload)
    requires Inv(o, s) && key in s.uploads && BeforeCommit(s.uploads[key].stage)
    requires UploadOk(o, v, Get(s.bucket, key), Holds(s.artifacts, key)) && v.reply.Refused?
    ensures Inv(o, Put(s, key, v)) && Grows(s, Put(s, key, v))
  {
    assert UploadOk(o, s.uploads[key], Get(s.bucket, key), Holds(s.artifacts, key));
    Local(o, s, key, s.bucket, v);
    assert s.(bucket := s.bucket) == s;
  }

  lemma EarlyStepKeeps(o: Oracle, s: State, l: Label)
    requires Inv(o, s) && Enabled(s, l)
    requires l.Verify? || l.Check? || l.Probe? || l.Recheck?
    ensures
      var t := Put(s, l.key, Move(o, s, s.uploads[l.key], l));
      Inv(o, t) && Grows(s, t)
  {
    var u := s.uploads[l.key];
    assert UploadOk(o, u, Get(s.bucket, l.key), Holds(s.artifacts, l.key));
    EarlyMoves(o, s, u, l, Holds(s.artifacts, l.key));
    UnpublishedStep(o, s, l.key, Move(o, s, u, l));
  }

  /** A row with the key of an upload can only be in that upload's slot. */
  lemma OwnRow(o: Oracle, s: State, key: Key)
    requires Inv(o, s) && key in s.uploads
    ensures
      var slot := SlotOf(s.uploads[key]);
      && (Holds(s.artifacts, key) <==> slot in s.artifacts && s.artifacts[slot].key == key)
      && (Holds(s.artifacts, key) ==> key in s.bucket && s.artifacts[slot].digest == s.uploads[key].digest)
      && UploadOk(o, s.uploads[key], Get(s.bucket, key), Holds(s.artifacts, key))
  {
    if own :| own in s.artifacts && s.artifacts[own].key == key {
      assert RowOk(o, s.bucket, s.uploads, own, s.artifacts[own]);
    }
  }

  lemma ResolveKeeps(o: Oracle, s: State, key: Key, ok: bool)
    requires Inv(o, s) && key in s.uploads && s.uploads[key].stage == Resolving
    ensures
      var u := s.uploads[key];
      var t := Put(s, key, AfterResolve(u, key, Get(s.artifacts, SlotOf(u)), ok));
      Inv(o, t) && Grows(s, t)
  {
    var u := s.uploads[key];
    OwnRow(o, s, key);
    ResolveMoves(o, u, key, Get(s.artifacts, SlotOf(u)), ok, Get(s.bucket, key), Holds(s.artifacts, key));
    Local(o, s, key, s.bucket, AfterResolve(u, key, Get(s.artifacts, SlotOf(u)), ok));
    assert s.(bucket := s.bucket) == s;
  }

  lemma FinishKeeps(o: Oracle, s: State, key: Key, write: Write)
    requires Inv(o, s) && key in s.uploads && s.uploads[key].stage == Cleanup
    ensures
      var t := Put(Effect(s, s.uploads[key], Finish(key, write)), key, AfterFinish(s.uploads[key], write));
      Inv(o, t) && Grows(s, t)
  {
    var u := s.uploads[key];
    OwnRow(o, s, key);
    FinishMoves(o, s, u, key, write, Holds(s.artifacts, key));
    FinishBucket(s, u, key, write);
    FinishFields(u, write);
    Local(o, s, key, Effect(s, u, Finish(key, write)).bucket, AfterFinish(u, write));
  }

  lemma FinishFields(u: Upload, write: Write)
    ensures
      var v := AfterFinish(u, write);
      && v.digest == u.digest && v.form == u.form && v.release == u.release
      && v.stage == Done && (v.reply == u.reply || v.reply.Refused?)
  {
  }

  lemma FinishBucket(s: State, u: Upload, key: Key, write: Write)
    requires u.stage == Cleanup
    ensures
      var t := Effect(s, u, Finish(key, write));
      && t == s.(bucket := t.bucket)
      && t.bucket.Keys <= s.bucket.Keys
      && (forall k | k != key :: k in t.bucket <==> k in s.bucket)
      && (forall k | k in t.bucket :: t.bucket[k] == s.bucket[k])
  {
  }

  /** Names and audit log may move on while artifacts, objects and uploads stay as in `moved`. */
  lemma CatalogStep(
      o: Oracle, s: State, moved: State, projects: map<Name, Project>, audit: seq<Event>,
      approvals: map<nat, Approval>)
    requires Inv(o, moved) && Grows(s, moved) && moved.projects == s.projects && moved.audit == s.audit
    requires CatalogInv(projects, moved.artifacts, audit, approvals)
    requires ProjectsGrow(s.projects, projects) && s.audit <= audit
    ensures
      var t := moved.(projects := projects, audit := audit, approvals := approvals);
      Inv(o, t) && Grows(s, t)
  {
  }

  // ---------- recording collisions ----------

  /** One project may be added, or move forward. */
  lemma ProjectMoves(
      projects: map<Name, Project>, artifacts: map<Slot, Row>, approvals: map<nat, Approval>, name: Name, q: Project)
    requires ProjectsOk(artifacts, projects) && PendingOk(approvals, projects)
    requires ProjectOk(artifacts, name, q)
    requires name in projects ==>
               var p := projects[name];
               && (p.claimed.Some? ==> q.claimed == p.claimed)
               && (p.approved.Some? ==> q.approved == p.approved)
               && (p.collisions != [] || p.claimed.Some? ==> q.collisions == p.collisions)
    ensures
      var t := projects[name := q];
      ProjectsOk(artifacts, t) && PendingOk(approvals, t) && ProjectsGrow(projects, t)
  {
  }

  lemma UnapprovedKeepsAudit(audit: seq<Event>, projects: map<Name, Project>, name: Name, q: Project)
    requires ApprovalsAudited(audit, projects) && q.approved.None?
    requires name in projects ==> projects[name].approved.None?
    ensures ApprovalsAudited(audit, projects[name := q])
  {
  }

  lemma RecordKeepsCatalog(
      projects: map<Name, Project>, artifacts: map<Slot, Row>, audit: seq<Event>, approvals: map<nat, Approval>,
      name: Name, found: seq<string>)
    requires CatalogInv(projects, artifacts, audit, approvals)
    ensures
      var t := RecordCollisions(projects, name, found);
      CatalogInv(t, artifacts, audit, approvals) && ProjectsGrow(projects, t)
  {
    if name !in projects {
      assert !HasArtifact(artifacts, name);
    } else {
      assert ProjectOk(artifacts, name, projects[name]);
    }
    var t := RecordCollisions(projects, name, found);
    if t != projects {
      ProjectMoves(projects, artifacts, approvals, name, t[name]);
      UnapprovedKeepsAudit(audit, projects, name, t[name]);
    }
  }

  lemma RecordKeeps(o: Oracle, s: State, key: Key, write: Write)
    requires Inv(o, s) && key in s.uploads && s.uploads[key].stage == Recording
    ensures
      var t := Put(Effect(s, s.uploads[key], Record(key, write)), key, AfterRecord(s.uploads[key], write));
      Inv(o, t) && Grows(s, t)
  {
    var u := s.uploads[key];
    assert UploadOk(o, u, Get(s.bucket, key), Holds(s.artifacts, key));
    EarlyMoves(o, s, u, Record(key, write), Holds(s.artifacts, key));
    var moved := Put(s, key, AfterRecord(u, write));
    UnpublishedStep(o, s, key, AfterRecord(u, write));
    if write != Failed {
      RecordKeepsCatalog(s.projects, s.artifacts, s.audit, s.approvals, u.release.project, u.found);
      CatalogStep(o, s, moved, RecordCollisions(s.projects, u.release.project, u.found), s.audit, s.approvals);
    }
  }

  // ---------- the batch ----------

  /** The batch in one formula: it has an effect exactly if the name may be published and the file is
      new, and then the name ends up claimed and the upload audited. */
  lemma BatchEffect(s: State, u: Upload, key: Key, now: int)
    requires ProjectsOk(s.artifacts, s.projects) && !Holds(s.artifacts, key)
    ensures
      var (name, slot) := (u.release.project, SlotOf(u));
      CommitBatch(s, u, key, now) ==
      if name in s.projects && MayPublish(s.projects[name]) && slot !in s.artifacts then
        WithRow(s, slot, RowOf(u, key), now)
      else s
  {
    var (name, slot) := (u.release.project, SlotOf(u));
    if name in s.projects && MayPublish(s.projects[name]) && slot !in s.artifacts {
      var inserted := InsertArtifact(s, slot, RowOf(u, key));
      assert slot in inserted.artifacts && inserted.artifacts[slot].key == key;
      assert HasArtifact(inserted.artifacts, name);
      assert Holds(inserted.artifacts, key);
      assert s.projects == s.projects[name := s.projects[name]];
    }
  }

  function Claimed(p: Project, now: int): Project {
    if p.claimed.None? then p.(claimed := Some(now)) else p
  }

  lemma InsertKeepsProjects(artifacts: map<Slot, Row>, projects: map<Name, Project>, slot: Slot, row: Row, now: int)
    requires ProjectsOk(artifacts, projects)
    requires slot.0 in projects && MayPublish(projects[slot.0])
    ensures
      var p := projects[slot.0];
      var t := projects[slot.0 := Claimed(p, now)];
      ProjectsOk(artifacts[slot := row], t) && ProjectsGrow(projects, t)
  {
    var p, after := projects[slot.0], artifacts[slot := row];
    var t := projects[slot.0 := Claimed(p, now)];
    assert slot in after;
    forall name | name in t ensures ProjectOk(after, name, t[name]) {
      assert ProjectOk(artifacts, name, projects[name]);
      assert HasArtifact(artifacts, name) ==> HasArtifact(after, name) by {
        if other :| other in artifacts && other.0 == name {
          assert other in after;
        }
      }
    }
  }

  lemma InsertKeepsAudit(artifacts: map<Slot, Row>, audit: seq<Event>, slot: Slot, row: Row)
    requires UploadsAudited(audit, artifacts) && slot !in artifacts
    ensures UploadsAudited(audit + [Uploaded(slot.0, slot.1, row.digest)], artifacts[slot := row])
  {
    var event := Uploaded(slot.0, slot.1, row.digest);
    var t := audit + [event];
    assert t[|audit|] == event;
    forall other | other in artifacts[slot := row]
      ensures Uploaded(other.0, other.1, artifacts[slot := row][other].digest) in t
    {
      if other != slot {
        assert Uploaded(other.0, other.1, artifacts[other].digest) in audit;
      }
    }
  }

  /** An `Uploaded` entry says nothing about approvals, and claiming a name leaves them as they are. */
  lemma ClaimKeepsApprovals(audit: seq<Event>, projects: map<Name, Project>, e: Event, name: Name, p: Project)
    requires ApprovalsAudited(audit, projects) && e.Uploaded? && name in projects
    requires p.collisions == projects[name].collisions && p.approved == projects[name].approved
    ensures ApprovalsAudited(audit + [e], projects[name := p])
  {
    var t := audit + [e];
    forall other | other in projects && projects[other].approved.Some?
      ensures Approved(other, projects[other].collisions) in t
    {
      assert Approved(other, projects[other].collisions) in audit;
    }
  }

  lemma NewRowKeepsCatalog(s: State, slot: Slot, row: Row, now: int)
    requires CatalogInv(s.projects, s.artifacts, s.audit, s.approvals)
    requires slot.0 in s.projects && MayPublish(s.projects[slot.0]) && slot !in s.artifacts
    ensures
      var p := s.projects[slot.0];
      var projects := s.projects[slot.0 := Claimed(p, now)];
      && CatalogInv(projects, s.artifacts[slot := row], s.audit + [Uploaded(slot.0, slot.1, row.digest)], s.approvals)
      && ProjectsGrow(s.projects, projects)
  {
    var p := s.projects[slot.0];
    InsertKeepsProjects(s.artifacts, s.projects, slot, row, now);
    InsertKeepsAudit(s.artifacts, s.audit, slot, row);
    ClaimKeepsApprovals(s.audit, s.projects, Uploaded(slot.0, slot.1, row.digest), slot.0,
                        Claimed(p, now));
  }

  lemma InsertHolds(artifacts: map<Slot, Row>, slot: Slot, row: Row)
    requires slot !in artifacts
    ensures forall k :: Holds(artifacts[slot := row], k) <==> Holds(artifacts, k) || k == row.key
  {
    var after := artifacts[slot := row];
    assert slot in after && after[slot] == row;
    forall k | Holds(artifacts, k) ensures Holds(after, k) {
      var other :| other in artifacts && artifacts[other].key == k;
      assert other in after && after[other].key == k;
    }
  }

  lemma InsertKeepsUploads(
      o: Oracle, bucket: map<Key, Bytes>, artifacts: map<Slot, Row>, uploads: map<Key, Upload>,
      slot: Slot, row: Row, v: Upload)
    requires UploadsOk(o, bucket, artifacts, uploads) && RepliesOk(artifacts, uploads)
    requires slot !in artifacts && row.key in uploads
    requires uploads[row.key].stage == Committing && (v == AfterCommit(uploads[row.key], Applied) || v == AfterCommit(uploads[row.key], Lost))
    ensures UploadsOk(o, bucket, artifacts[slot := row], uploads[row.key := v])
    ensures RepliesOk(artifacts[slot := row], uploads[row.key := v])
  {
    InsertHolds(artifacts, slot, row);
    assert UploadOk(o, uploads[row.key], Get(bucket, row.key), Holds(artifacts, row.key));
  }

  lemma InsertKeepsRows(
      o: Oracle, bucket: map<Key, Bytes>, artifacts: map<Slot, Row>, uploads: map<Key, Upload>,
      slot: Slot, row: Row, v: Upload)
    requires RowsOk(o, bucket, artifacts, uploads) && DistinctKeys(artifacts)
    requires slot !in artifacts && !Holds(artifacts, row.key) && RowOk(o, bucket, uploads, slot, row)
    requires (v == AfterCommit(uploads[row.key], Applied) || v == AfterCommit(uploads[row.key], Lost))
    ensures RowsOk(o, bucket, artifacts[slot := row], uploads[row.key := v])
    ensures DistinctKeys(artifacts[slot := row])
  {
    var after := artifacts[slot := row];
    forall other | other in after ensures RowOk(o, bucket, uploads[row.key := v], other, after[other]) {
      if other != slot {
        assert RowOk(o, bucket, uploads, other, artifacts[other]);
      }
    }
  }

  lemma NewRowKeepsObjects(
      o: Oracle, bucket: map<Key, Bytes>, artifacts: map<Slot, Row>, uploads: map<Key, Upload>,
      slot: Slot, row: Row, v: Upload)
    requires ObjectInv(o, bucket, artifacts, uploads)
    requires slot !in artifacts && !Holds(artifacts, row.key) && RowOk(o, bucket, uploads, slot, row)
    requires uploads[row.key].stage == Committing && (v == AfterCommit(uploads[row.key], Applied) || v == AfterCommit(uploads[row.key], Lost))
    ensures ObjectInv(o, bucket, artifacts[slot := row], uploads[row.key := v])
    ensures UploadsGrow(artifacts, uploads, artifacts[slot := row], uploads[row.key := v])
  {
    InsertHolds(artifacts, slot, row);
    InsertKeepsUploads(o, bucket, artifacts, uploads, slot, row, v);
    InsertKeepsRows(o, bucket, artifacts, uploads, slot, row, v);
  }

  /** The state after a batch that inserted `row`. */
  function WithRow(s: State, slot: Slot, row: Row, now: int): State
    requires slot.0 in s.projects
  {
    s.(artifacts := s.artifacts[slot := row],
       audit := s.audit + [Uploaded(slot.0, slot.1, row.digest)],
       projects := s.projects[slot.0 := Claimed(s.projects[slot.0], now)])
  }

  lemma NewRowKeeps(o: Oracle, s: State, slot: Slot, row: Row, now: int, v: Upload)
    requires Inv(o, s) && slot !in s.artifacts && slot.0 in s.projects && MayPublish(s.projects[slot.0])
    requires !Holds(s.artifacts, row.key) && RowOk(o, s.bucket, s.uploads, slot, row)
    requires s.uploads[row.key].stage == Committing
    requires v == AfterCommit(s.uploads[row.key], Applied) || v == AfterCommit(s.uploads[row.key], Lost)
    ensures
      var t := Put(WithRow(s, slot, row, now), row.key, v);
      Inv(o, t) && Grows(s, t)
  {
    NewRowKeepsCatalog(s, slot, row, now);
    NewRowKeepsObjects(o, s.bucket, s.artifacts, s.uploads, slot, row, v);
    NewRowGrows(s, slot, row, now, v);
  }

  lemma NewRowGrows(s: State, slot: Slot, row: Row, now: int, v: Upload)
    requires slot !in s.artifacts && slot.0 in s.projects
    requires ProjectsGrow(s.projects, s.projects[slot.0 := Claimed(s.projects[slot.0], now)])
    requires UploadsGrow(s.artifacts, s.uploads, s.artifacts[slot := row], s.uploads[row.key := v])
    ensures Grows(s, Put(WithRow(s, slot, row, now), row.key, v))
  {
  }

  lemma NoRowKeeps(o: Oracle, s: State, key: Key, write: Write)
    requires Inv(o, s) && key in s.uploads && s.uploads[key].stage == Committing
    ensures
      var t := Put(s, key, AfterCommit(s.uploads[key], write));
      Inv(o, t) && Grows(s, t)
  {
    var u := s.uploads[key];
    assert UploadOk(o, u, Get(s.bucket, key), Holds(s.artifacts, key));
    CommitMoves(o, u, write, Get(s.bucket, key), Holds(s.artifacts, key));
    UnpublishedStep(o, s, key, AfterCommit(u, write));
  }

  lemma CommitKeeps(o: Oracle, s: State, key: Key, now: int, write: Write)
    requires Inv(o, s) && key in s.uploads && s.uploads[key].stage == Committing
    ensures
      var u := s.uploads[key];
      var t := Put(if write == Failed then s else CommitBatch(s, u, key, now), key, AfterCommit(u, write));
      Inv(o, t) && Grows(s, t)
  {
    var u := s.uploads[key];
    var slot := SlotOf(u);
    assert UploadOk(o, u, Get(s.bucket, key), Holds(s.artifacts, key));
    BatchEffect(s, u, key, now);
    if write != Failed && slot.0 in s.projects && MayPublish(s.projects[slot.0]) && slot !in s.artifacts {
      NewRowKeeps(o, s, slot, RowOf(u, key), now, AfterCommit(u, write));
    } else {
      NoRowKeeps(o, s, key, write);
    }
  }

  lemma CommitIs(o: Oracle, s: State, key: Key, now: int, write: Write)
    requires key in s.uploads && s.uploads[key].stage == Committing && write != Failed
    ensures
      var u := s.uploads[key];
      Next(o, s, Commit(key, now, write)) == Put(CommitBatch(s, u, key, now), key, AfterCommit(u, write))
  {
  }

  // ---------- approvals ----------

  lemma ApproveKeepsAudit(
      projects: map<Name, Project>, audit: seq<Event>, name: Name, p: Project, e: Event)
    requires ApprovalsAudited(audit, projects)
    requires name in projects && projects[name].approved.None?
    requires p.approved.Some? && p.collisions == projects[name].collisions && e == Approved(name, p.collisions)
    ensures ApprovalsAudited(audit + [e], projects[name := p])
  {
    var after := projects[name := p];
    assert (audit + [e])[|audit|] == e;
    forall other | other in after && after[other].approved.Some?
      ensures Approved(other, after[other].collisions) in audit + [e]
    {
      if other != name {
        assert Approved(other, projects[other].collisions) in audit;
      }
    }
  }

  lemma EntryKeepsUploads(audit: seq<Event>, artifacts: map<Slot, Row>, e: Event)
    requires UploadsAudited(audit, artifacts) && e.Approved?
    ensures UploadsAudited(audit + [e], artifacts)
  {
    forall slot | slot in artifacts ensures Uploaded(slot.0, slot.1, artifacts[slot].digest) in audit + [e] {
      assert Uploaded(slot.0, slot.1, artifacts[slot].digest) in audit;
    }
  }

  lemma ApproveKeepsCatalog(s: State, a: Approval, actor: string)
    requires CatalogInv(s.projects, s.artifacts, s.audit, s.approvals)
    requires a.collisions != [] && a.project in s.projects && s.projects[a.project].collisions == a.collisions
    ensures
      var t := ApproveBatch(s, a, actor);
      && CatalogInv(t.projects, s.artifacts, t.audit, s.approvals)
      && ProjectsGrow(s.projects, t.projects) && s.audit <= t.audit
  {
    var p := s.projects[a.project];
    if p.approved.None? {
      var event := Approved(a.project, a.collisions);
      assert ProjectOk(s.artifacts, a.project, p);
      ApproveKeepsAudit(s.projects, s.audit, a.project, p.(approved := Some(actor)), event);
      EntryKeepsUploads(s.audit, s.artifacts, event);
      ProjectMoves(s.projects, s.artifacts, s.approvals, a.project, p.(approved := Some(actor)));
    }
  }

  lemma ApproveReadKeeps(o: Oracle, s: State, id: nat, name: Name)
    requires Inv(o, s) && Enabled(s, ApproveRead(id, name))
    ensures
      var t := s.(approvals := s.approvals[id := Approval(name, s.projects[name].collisions)]);
      Inv(o, t) && Grows(s, t)
  {
  }

  lemma DropKeeps(o: Oracle, s: State, id: nat)
    requires Inv(o, s)
    ensures Inv(o, s.(approvals := s.approvals - {id})) && Grows(s, s.(approvals := s.approvals - {id}))
  {
  }

  lemma ApproveKeeps(o: Oracle, s: State, a: Approval, actor: string)
    requires Inv(o, s)
    requires a.collisions != [] && a.project in s.projects && s.projects[a.project].collisions == a.collisions
    ensures Inv(o, ApproveBatch(s, a, actor)) && Grows(s, ApproveBatch(s, a, actor))
  {
    ApproveKeepsCatalog(s, a, actor);
    ApproveTouchesCatalog(s, a, actor);
    CatalogOnly(o, s, ApproveBatch(s, a, actor).projects, ApproveBatch(s, a, actor).audit);
  }

  lemma ApproveTouchesCatalog(s: State, a: Approval, actor: string)
    ensures
      var t := ApproveBatch(s, a, actor);
      t == s.(projects := t.projects, audit := t.audit)
  {
  }

  lemma CatalogOnly(o: Oracle, s: State, projects: map<Name, Project>, audit: seq<Event>)
    requires Inv(o, s) && CatalogInv(projects, s.artifacts, audit, s.approvals)
    requires ProjectsGrow(s.projects, projects) && s.audit <= audit
    ensures
      var t := s.(projects := projects, audit := audit);
      Inv(o, t) && Grows(s, t)
  {
  }

  // ---------- every step, every run ----------

  lemma ApproveWriteKeeps(o: Oracle, s: State, id: nat, actor: string, write: Write)
    requires Inv(o, s) && Enabled(s, ApproveWrite(id, actor, write))
    ensures
      var after := s.(approvals := s.approvals - {id});
      var t := if write == Failed then after else ApproveBatch(after, s.approvals[id], actor);
      Inv(o, t) && Grows(s, t)
  {
    var after := s.(approvals := s.approvals - {id});
    DropKeeps(o, s, id);
    if write != Failed {
      ApproveKeeps(o, after, s.approvals[id], actor);
      GrowsTransitive(s, after, ApproveBatch(after, s.approvals[id], actor));
    }
  }

  lemma LateStepKeeps(o: Oracle, s: State, l: Label)
    requires Inv(o, s) && Enabled(s, l) && (l.Commit? || l.Resolve? || l.Finish?)
    ensures Inv(o, Next(o, s, l)) && Grows(s, Next(o, s, l))
  {
    match l
    case Commit(key, now, write) => CommitKeeps(o, s, key, now, write);
    case Resolve(key, ok) => ResolveKeeps(o, s, key, ok);
    case Finish(key, write) => FinishKeeps(o, s, key, write);
  }

  lemma WritingStepKeeps(o: Oracle, s: State, l: Label)
    requires Inv(o, s) && Enabled(s, l) && (l.Begin? || l.Receive? || l.Record?)
    ensures Inv(o, Next(o, s, l)) && Grows(s, Next(o, s, l))
  {
    match l
    case Begin(key) => BeginKeeps(o, s, key);
    case Receive(key, receipt) => ReceiveKeeps(o, s, key, receipt);
    case Record(key, write) => RecordKeeps(o, s, key, write);
  }

  lemma ApprovalStepKeeps(o: Oracle, s: State, l: Label)
    requires Inv(o, s) && Enabled(s, l) && (l.ApproveRead? || l.ApproveWrite?)
    ensures Inv(o, Next(o, s, l)) && Grows(s, Next(o, s, l))
  {
    match l
    case ApproveRead(id, name) => ApproveReadKeeps(o, s, id, name);
    case ApproveWrite(id, actor, write) => ApproveWriteKeeps(o, s, id, actor, write);
  }

  /** No interleaving of atomic steps breaks the invariant or takes back a published fact. */
  lemma StepKeeps(o: Oracle, s: State, l: Label)
    requires Inv(o, s)
    ensures Inv(o, Next(o, s, l)) && Grows(s, Next(o, s, l))
  {
    if !Enabled(s, l) {
      GrowsItself(s);
    } else if l.ApproveRead? || l.ApproveWrite? {
      ApprovalStepKeeps(o, s, l);
    } else if l.Commit? || l.Resolve? || l.Finish? {
      LateStepKeeps(o, s, l);
    } else if l.Begin? || l.Receive? || l.Record? {
      WritingStepKeeps(o, s, l);
    } else {
      EarlyStepKeeps(o, s, l);
    }
  }

  lemma GrowsItself(s: State)
    ensures Grows(s, s)
  {
  }

  lemma {:induction false} RunKeeps(o: Oracle, s: State, labels: seq<Label>)
    requires Inv(o, s)
    ensures Inv(o, Run(o, s, labels)) && Grows(s, Run(o, s, labels))
    decreases labels
  {
    if labels != [] {
      var t := Next(o, s, labels[0]);
      StepKeeps(o, s, labels[0]);
      RunKeeps(o, t, labels[1..]);
      GrowsTransitive(s, t, Run(o, t, labels[1..]));
    }
  }

  /** The state after `labels`, starting from an empty catalog and bucket. */
  ghost function Reached(o: Oracle, labels: seq<Label>): State {
    Run(o, EMPTY, labels)
  }

  lemma ReachedInv(o: Oracle, labels: seq<Label>)
    ensures Inv(o, Reached(o, labels))
  {
    RunKeeps(o, EMPTY, labels);
  }
}
