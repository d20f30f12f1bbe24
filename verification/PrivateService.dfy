/** The PostgreSQL form of the same protocol (private_service.py over postgres.py): the publication
    transaction inserts, claims, reads back and audits at once. It refines the D1 form: the transaction is
    the D1 batch followed immediately by the upload's own read, so every result about runs carries over. */
module PrivateService {
  import opened Prelude
  import opened Publication
  import opened PublicationSafety
  import opened PublicationSteps

  /** publish_private_artifact: the new state and the row that now holds the file, if any. */
  function PublishTransaction(s: State, u: Upload, key: Key, now: int): (State, Option<Row>) {
    var slot := (u.release.project, u.form.filename);
    var inserted := InsertArtifact(s, slot, Row(u.release.version, u.digest, u.size, key));
    var claimed := ClaimProject(inserted, u.release.project, now);
    if slot !in claimed.artifacts then (claimed, None)
    else
      var row := claimed.artifacts[slot];
      if row.key == key then
        (claimed.(audit := claimed.audit + [Uploaded(slot.0, slot.1, u.digest)]), Some(row))
      else (claimed, Some(row))
  }

  /** The flags and the reply after the transaction returned `saved`. */
  function AfterPublish(u: Upload, key: Key, saved: Option<Row>): Upload {
    match saved
    case None => u.(commitAttempted := false, stage := Cleanup, reply := Refused(409))
    case Some(row) =>
      var v := u.(discard := row.key != key, commitAttempted := false, stage := Cleanup);
      if row.digest != u.digest then v.(reply := Refused(409))
      else v.(reply := Published(u.release.project, u.form.filename, u.digest))
  }

  /** The audit condition differs in form only: the upload's object is a row exactly if it is the file's row. */
  lemma TransactionIsBatch(o: Oracle, s: State, key: Key, now: int)
    requires Inv(o, s) && key in s.uploads && s.uploads[key].stage == Committing
    ensures
      var u := s.uploads[key];
      var (t, saved) := PublishTransaction(s, u, key, now);
      t == CommitBatch(s, u, key, now) && saved == Get(t.artifacts, SlotOf(u))
  {
    var u := s.uploads[key];
    var slot := SlotOf(u);
    assert UploadOk(o, u, Get(s.bucket, key), Holds(s.artifacts, key));
    BatchEffect(s, u, key, now);
    var inserted := InsertArtifact(s, slot, RowOf(u, key));
    if slot in inserted.artifacts && inserted.artifacts[slot].key == key {
      assert Holds(inserted.artifacts, key);
    } else {
      assert inserted == s;
    }
  }

  /** One PostgreSQL publication is two steps of the protocol with nothing in between. */
  lemma PublishIsBatchThenRead(o: Oracle, s: State, key: Key, now: int)
    requires Inv(o, s) && key in s.uploads && s.uploads[key].stage == Committing
    ensures
      var u := s.uploads[key];
      var (t, saved) := PublishTransaction(s, u, key, now);
      Put(t, key, AfterPublish(u, key, saved)) ==
      Next(o, Next(o, s, Commit(key, now, Applied)), Resolve(key, true))
  {
    var u := s.uploads[key];
    TransactionIsBatch(o, s, key, now);
    CommitIs(o, s, key, now, Applied);
    ReadAfterBatch(o, CommitBatch(s, u, key, now), key, u);
  }

  /** When its response is lost, it is the lost batch. */
  lemma LostPublishIsLostBatch(o: Oracle, s: State, key: Key, now: int)
    requires Inv(o, s) && key in s.uploads && s.uploads[key].stage == Committing
    ensures
      var u := s.uploads[key];
      Put(PublishTransaction(s, u, key, now).0, key, Uncertain(u)) == Next(o, s, Commit(key, now, Lost))
  {
    TransactionIsBatch(o, s, key, now);
    CommitIs(o, s, key, now, Lost);
  }

  lemma ReadAfterBatch(o: Oracle, t: State, key: Key, u: Upload)
    requires u.stage == Committing
    ensures
      var mid := Put(t, key, AfterCommit(u, Applied));
      Next(o, mid, Resolve(key, true)) == Put(t, key, AfterPublish(u, key, Get(t.artifacts, SlotOf(u))))
  {
    var resolving := AfterCommit(u, Applied);
    var mid := Put(t, key, resolving);
    var v := AfterResolve(resolving, key, Get(t.artifacts, SlotOf(u)), true);
    assert v == AfterPublish(u, key, Get(t.artifacts, SlotOf(u)));
    assert SlotOf(resolving) == SlotOf(u);
    assert Put(mid, key, v) == Put(t, key, v);
  }

  /** record_private_collisions upserts and reads back in one transaction. */
  lemma RecordIsUpsertThenRead(o: Oracle, s: State, key: Key)
    requires key in s.uploads && s.uploads[key].stage == Recording
    ensures
      var u := s.uploads[key];
      var projects := RecordCollisions(s.projects, u.release.project, u.found);
      var row := projects[u.release.project];
      var v := if row.claimed.None? && row.approved.None? && row.collisions != [] then Refuse(u, 409) else Advance(u);
      Put(s.(projects := projects), key, v) ==
      Next(o, Next(o, s, Record(key, Applied)), Recheck(key, true))
  {
    var u := s.uploads[key];
    var projects := RecordCollisions(s.projects, u.release.project, u.found);
    var mid := Next(o, s, Record(key, Applied));
    assert mid == Put(s.(projects := projects), key, u.(stage := Rechecking));
    var v := AfterRecheck(u.(stage := Rechecking), Some(projects[u.release.project]), true);
    assert Put(mid, key, v) == Put(s.(projects := projects), key, v);
  }
}
