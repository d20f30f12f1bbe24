/** The private publication protocol: concurrent uploads and administrator approvals over one catalog
    (projects, artifacts, audit log) and one object bucket.

    Every awaited database or bucket call of an upload is one atomic step; between two steps anything may
    happen to the shared state. A run is any list of labels, so any number of uploads and approvals
    interleave in any order, and an upload that is never scheduled again models a crashed worker. */
module Publication {
  import opened Prelude

  type Name = string
  type Digest = string
  type Key = string
  type Slot = (Name, string)  // primary key of private_artifacts: project and filename

  datatype Form = Form(filename: string, fields: map<string, seq<string>>)

  datatype Release = Release(project: Name, version: string, requiresPython: Option<string>)

  /** SHA-256, and the inspection of an uploaded object against its form: a release, or the status to refuse with. */
  datatype Oracle = Oracle(hash: Bytes -> Digest, verify: (Form, Bytes) -> Result<Release, nat>)

  // ---------- the catalog ----------

  datatype Project = Project(collisions: seq<string>, approved: Option<string>, claimed: Option<int>)

  datatype Row = Row(version: string, digest: Digest, size: nat, key: Key)

  datatype Event =
    | Uploaded(project: Name, filename: string, digest: Digest)
    | Approved(project: Name, collisions: seq<string>)

  // ---------- one upload ----------

  datatype Stage =
    | Receiving   // receive_upload: stream into a multipart object
    | Verifying   // validate_distribution
    | Checking    // _claimable: first read of the project
    | Probing     // _claimable: ask the public indexes
    | Recording   // _claimable: record the collisions found
    | Rechecking  // _claimable: second read of the project
    | Committing  // the batch
    | Resolving   // read back the row that won
    | Cleanup     // the finally clause
    | Done

  datatype Reply =
    | Published(project: Name, filename: string, digest: Digest)
    | Refused(status: nat)

  /** History of what went wrong for the client; no step reads it. */
  datatype Fault = NoFault | ReceiveUncertain | CommitUncertain | DeleteLost | DeleteFailed

  datatype Upload = Upload(
    stage: Stage,
    completed: bool,
    commitAttempted: bool,
    discard: bool,
    form: Form,
    size: nat,
    digest: Digest,
    release: Release,
    found: seq<string>,
    reply: Reply,
    fault: Fault)

  const FRESH: Upload :=
    Upload(Receiving, false, false, true, Form("", map[]), 0, "", Release("", "", None), [], Refused(503), NoFault)

  datatype Approval = Approval(project: Name, collisions: seq<string>)

  datatype State = State(
    projects: map<Name, Project>,
    artifacts: map<Slot, Row>,
    audit: seq<Event>,
    bucket: map<Key, Bytes>,
    uploads: map<Key, Upload>,
    approvals: map<nat, Approval>)

  const EMPTY: State := State(map[], map[], [], map[], map[], map[])

  /** How a write ends for its client: `Lost` takes effect but the client sees an exception. */
  datatype Write = Applied | Lost | Failed

  datatype Receipt =
    | Received(form: Form, bytes: Bytes)
    | Aborted(status: nat)
    | CompletionLost(bytes: Bytes)  // the object exists, yet receive_upload raised

  datatype Label =
    | Begin(key: Key)
    | Receive(key: Key, receipt: Receipt)
    | Verify(key: Key, ok: bool)
    | Check(key: Key, ok: bool)
    | Probe(key: Key, found: Option<seq<string>>)
    | Record(key: Key, write: Write)
    | Recheck(key: Key, ok: bool)
    | Commit(key: Key, now: int, write: Write)
    | Resolve(key: Key, ok: bool)
    | Finish(key: Key, write: Write)
    | ApproveRead(id: nat, project: Name)
    | ApproveWrite(id: nat, actor: string, write: Write)

  // ---------- atomic catalog operations ----------

  /** The upsert of `_claimable`: only an unclaimed, unapproved name without collisions is rewritten. */
  function RecordCollisions(projects: map<Name, Project>, name: Name, found: seq<string>): map<Name, Project> {
    if name !in projects then projects[name := Project(found, None, None)]
    else
      var p := projects[name];
      if p.claimed.None? && p.approved.None? && p.collisions == [] then projects[name := p.(collisions := found)]
      else projects
  }

  predicate MayPublish(p: Project) {
    p.collisions == [] || p.approved.Some? || p.claimed.Some?
  }

  /** First statement of the batch: insert unless the name is not claimable or the file exists. */
  function InsertArtifact(s: State, slot: Slot, row: Row): State {
    if slot.0 in s.projects && MayPublish(s.projects[slot.0]) && slot !in s.artifacts then
      s.(artifacts := s.artifacts[slot := row])
    else s
  }

  predicate HasArtifact(artifacts: map<Slot, Row>, name: Name) {
    exists slot :: slot in artifacts && slot.0 == name
  }

  predicate Holds(artifacts: map<Slot, Row>, key: Key) {
    exists slot :: slot in artifacts && artifacts[slot].key == key
  }

  /** Second statement: claim the name once it has an artifact. */
  function ClaimProject(s: State, name: Name, now: int): State {
    if name in s.projects && s.projects[name].claimed.None? && HasArtifact(s.artifacts, name) then
      s.(projects := s.projects[name := s.projects[name].(claimed := Some(now))])
    else s
  }

  /** Third statement: audit the upload if its own object became a row. */
  function AuditUpload(s: State, key: Key, event: Event): State {
    if Holds(s.artifacts, key) then s.(audit := s.audit + [event]) else s
  }

  function RowOf(u: Upload, key: Key): Row {
    Row(u.release.version, u.digest, u.size, key)
  }

  function SlotOf(u: Upload): Slot {
    (u.release.project, u.form.filename)
  }

  /** The three statements, as one transaction. */
  function CommitBatch(s: State, u: Upload, key: Key, now: int): State {
    var inserted := InsertArtifact(s, SlotOf(u), RowOf(u, key));
    var claimed := ClaimProject(inserted, u.release.project, now);
    AuditUpload(claimed, key, Uploaded(u.release.project, u.form.filename, u.digest))
  }

  /** The administrator's batch: audit, then approve, unless the name was approved meanwhile. */
  function ApproveBatch(s: State, a: Approval, actor: string): State {
    if a.project in s.projects && s.projects[a.project].approved.None? then
      s.(audit := s.audit + [Approved(a.project, a.collisions)],
         projects := s.projects[a.project := s.projects[a.project].(approved := Some(actor))])
    else s
  }

  // ---------- the locals of one upload, after each await ----------

  function Refuse(u: Upload, status: nat): Upload {
    u.(stage := Cleanup, reply := Refused(status))
  }

  function Uncertain(u: Upload): Upload {
    Refuse(u, 503).(fault := CommitUncertain)
  }

  function Advance(u: Upload): Upload {
    // No await separates the end of `_claimable` from the batch.
    u.(stage := Committing, commitAttempted := true)
  }

  function AfterReceive(o: Oracle, u: Upload, receipt: Receipt): Upload {
    match receipt
    case Received(form, bytes) =>
      if bytes == [] then Refuse(u, 400)
      else u.(stage := Verifying, completed := true, form := form, size := |bytes|, digest := o.hash(bytes))
    case Aborted(status) => Refuse(u, status)
    case CompletionLost(_) => Refuse(u, 503).(fault := ReceiveUncertain)
  }

  function AfterVerify(o: Oracle, u: Upload, stored: Option<Bytes>, ok: bool): Upload {
    if !ok || stored.None? then Refuse(u, 503)
    else match o.verify(u.form, stored.value)
      case Failure(status) => Refuse(u, status)
      case Success(release) => u.(stage := Checking, release := release)
  }

  function AfterCheck(u: Upload, project: Option<Project>, ok: bool): Upload {
    if !ok then Refuse(u, 503)
    else if project.Some? && (project.value.claimed.Some? || project.value.approved.Some?) then Advance(u)
    else if project.Some? && project.value.collisions != [] then Refuse(u, 409)
    else u.(stage := Probing)
  }

  function AfterProbe(u: Upload, found: Option<seq<string>>): Upload {
    match found
    case None => Refuse(u, 503)
    case Some(urls) => u.(stage := Recording, found := urls)
  }

  function AfterRecord(u: Upload, write: Write): Upload {
    if write == Applied then u.(stage := Rechecking) else Refuse(u, 503)
  }

  function AfterRecheck(u: Upload, project: Option<Project>, ok: bool): Upload {
    if !ok then Refuse(u, 503)
    else if project.Some? && !MayPublish(project.value) then Refuse(u, 409)
    else Advance(u)
  }

  function AfterCommit(u: Upload, write: Write): Upload {
    if write == Applied then u.(stage := Resolving) else Uncertain(u)
  }

  function AfterResolve(u: Upload, key: Key, saved: Option<Row>, ok: bool): Upload {
    if !ok then Uncertain(u)
    else if saved.None? then Refuse(u, 409).(commitAttempted := false)
    else
      var resolved := u.(discard := saved.value.key != key, commitAttempted := false);
      if saved.value.digest != u.digest then Refuse(resolved, 409)
      else resolved.(stage := Cleanup, reply := Published(u.release.project, u.form.filename, u.digest))
  }

  /** The cleanup rule of the finally clause. */
  predicate WillDelete(u: Upload) {
    u.completed && u.discard && !u.commitAttempted
  }

  /** A delete that ends with an exception either took effect or did not. */
  function DeleteFault(write: Write): Fault {
    if write == Lost then DeleteLost else DeleteFailed
  }

  function AfterFinish(u: Upload, write: Write): Upload {
    if WillDelete(u) && write != Applied then
      // An exception of the delete replaces the reply.
      u.(stage := Done, reply := Refused(500), fault := DeleteFault(write))
    else u.(stage := Done)
  }

  function Get<K, V>(m: map<K, V>, key: K): Option<V> {
    if key in m then Some(m[key]) else None
  }

  /** The locals of the upload of label `l` once its await returns. */
  function Move(o: Oracle, s: State, u: Upload, l: Label): Upload {
    match l
    case Receive(_, receipt) => AfterReceive(o, u, receipt)
    case Verify(key, ok) => AfterVerify(o, u, Get(s.bucket, key), ok)
    case Check(_, ok) => AfterCheck(u, Get(s.projects, u.release.project), ok)
    case Probe(_, found) => AfterProbe(u, found)
    case Record(_, write) => AfterRecord(u, write)
    case Recheck(_, ok) => AfterRecheck(u, Get(s.projects, u.release.project), ok)
    case Commit(_, _, write) => AfterCommit(u, write)
    case Resolve(key, ok) => AfterResolve(u, key, Get(s.artifacts, SlotOf(u)), ok)
    case Finish(_, write) => AfterFinish(u, write)
    case _ => u
  }

  /** What the await of label `l` does to the shared catalog and bucket. */
  function Effect(s: State, u: Upload, l: Label): State {
    match l
    case Receive(key, Received(_, bytes)) => if bytes == [] then s else s.(bucket := s.bucket[key := bytes])
    case Receive(key, CompletionLost(bytes)) => s.(bucket := s.bucket[key := bytes])
    case Record(_, write) =>
      if write == Failed then s
      else s.(projects := RecordCollisions(s.projects, u.release.project, u.found))
    case Commit(key, now, write) => if write == Failed then s else CommitBatch(s, u, key, now)
    case Finish(key, write) =>
      if WillDelete(u) && write != Failed then s.(bucket := s.bucket - {key}) else s
    case _ => s
  }

  function Put(s: State, key: Key, u: Upload): State {
    s.(uploads := s.uploads[key := u])
  }

  /** The label `l` of an upload that stands at the matching stage. */
  predicate Enabled(s: State, l: Label) {
    match l
    case Begin(key) => key !in s.uploads
    case ApproveRead(id, name) => id !in s.approvals && name in s.projects && s.projects[name].collisions != []
    case ApproveWrite(id, _, _) => id in s.approvals
    case _ => l.key in s.uploads && s.uploads[l.key].stage == StageOf(l)
  }

  function StageOf(l: Label): Stage {
    match l
    case Receive(_, _) => Receiving
    case Verify(_, _) => Verifying
    case Check(_, _) => Checking
    case Probe(_, _) => Probing
    case Record(_, _) => Recording
    case Recheck(_, _) => Rechecking
    case Commit(_, _, _) => Committing
    case Resolve(_, _) => Resolving
    case Finish(_, _) => Cleanup
    case _ => Done
  }

  /** One step of the system; a label that is not enabled changes nothing. */
  function Next(o: Oracle, s: State, l: Label): State {
    if !Enabled(s, l) then s
    else match l
      case Begin(key) => Put(s, key, FRESH)
      case ApproveRead(id, name) =>
        s.(approvals := s.approvals[id := Approval(name, s.projects[name].collisions)])
      case ApproveWrite(id, actor, write) =>
        var after := s.(approvals := s.approvals - {id});
        if write == Failed then after else ApproveBatch(after, s.approvals[id], actor)
      case _ => Put(Effect(s, s.uploads[l.key], l), l.key, Move(o, s, s.uploads[l.key], l))
  }

  function Run(o: Oracle, s: State, labels: seq<Label>): State
    decreases labels
  {
    if labels == [] then s else Run(o, Next(o, s, labels[0]), labels[1..])
  }

  lemma {:induction false} RunAppend(o: Oracle, s: State, a: seq<Label>, b: seq<Label>)
    ensures Run(o, s, a + b) == Run(o, Run(o, s, a), b)
    decreases a
  {
    if a == [] {
      assert a + b == b;
    } else {
      assert (a + b)[0] == a[0] && (a + b)[1..] == a[1..] + b;
      RunAppend(o, Next(o, s, a[0]), a[1..], b);
    }
  }
}
