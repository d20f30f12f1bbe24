/** One upload against its environment: the outcome of each of its awaits. Left alone, an upload has exactly one
    result, computed here by taking its turns; the concurrent code is held to the same turns. */
module UploadTurns {
  import opened Prelude
  import opened Publication
  import opened PublicationSafety
  import opened PublicationSteps

  /** Everything the code does not decide: the outcome of each await, and what others do before it. */
  datatype Environment = Environment(
    receipt: Receipt,
    verified: bool,
    checked: bool,
    probe: Option<seq<string>>,
    record: Write,
    rechecked: bool,
    now: int,
    commit: Write,
    resolved: bool,
    delete: Write,
    others: nat -> seq<Label>)

  predicate Concerns(l: Label, key: Key) {
    !l.ApproveRead? && !l.ApproveWrite? && l.key == key
  }

  /** The turn of the upload that stands at `stage`. */
  function TurnAt(stage: Stage, key: Key, env: Environment): Label {
    match stage
    case Receiving => Receive(key, env.receipt)
    case Verifying => Verify(key, env.verified)
    case Checking => Check(key, env.checked)
    case Probing => Probe(key, env.probe)
    case Recording => Record(key, env.record)
    case Rechecking => Recheck(key, env.rechecked)
    case Committing => Commit(key, env.now, env.commit)
    case Resolving => Resolve(key, env.resolved)
    case Cleanup => Finish(key, env.delete)
    case Done => Begin(key)
  }

  /** A step of the upload gets what the environment has for it. */
  predicate Prescribed(l: Label, key: Key, env: Environment) {
    Concerns(l, key) && (l == Begin(key) || l == TurnAt(StageOf(l), key, env))
  }

  /** Between two states, the upload took its own turns, and others those steps that the environment has for them. */
  ghost predicate Follows(before: seq<Label>, after: seq<Label>, key: Key, env: Environment) {
    && before <= after
    && forall n | |before| <= n < |after| :: Prescribed(after[n], key, env) || OfOthers(after[n], key, env)
  }

  ghost predicate OfOthers(l: Label, key: Key, env: Environment) {
    !Concerns(l, key) && exists i :: l in env.others(i)
  }

  function Turn(s: State, key: Key, env: Environment): Label {
    if key in s.uploads then TurnAt(s.uploads[key].stage, key, env) else Begin(key)
  }

  function Iterate<S>(f: S -> S, s: S, n: nat): S
    decreases n
  {
    if n == 0 then s else Iterate(f, f(s), n - 1)
  }

  lemma {:induction false} IterateOn<S>(f: S -> S, s: S, a: nat, b: nat)
    ensures Iterate(f, s, a + b) == Iterate(f, Iterate(f, s, a), b)
    decreases a
  {
    if a > 0 {
      IterateOn(f, f(s), a - 1, b);
    }
  }

  function TakeTurn(o: Oracle, key: Key, env: Environment): State -> State {
    s => Next(o, s, Turn(s, key, env))
  }

  function Drive(o: Oracle, s: State, key: Key, env: Environment, turns: nat): State {
    Iterate(TakeTurn(o, key, env), s, turns)
  }

  /** How many turns are still to come at most. */
  function Rank(stage: Stage): nat {
    match stage
    case Receiving => 9
    case Verifying => 8
    case Checking => 7
    case Probing => 6
    case Recording => 5
    case Rechecking => 4
    case Committing => 3
    case Resolving => 2
    case Cleanup => 1
    case Done => 0
  }

  function Left(s: State, key: Key): nat {
    if key in s.uploads then Rank(s.uploads[key].stage) else 10
  }

  /** The state an undisturbed upload leaves. */
  function Alone(o: Oracle, s: State, key: Key, env: Environment): State {
    Drive(o, s, key, env, Left(s, key))
  }

  predicate IsDone(s: State, key: Key) {
    key in s.uploads && s.uploads[key].stage == Done
  }

  /** No two stages accept the same label: a prescribed step is the upload's turn or nothing. */
  lemma OnlyItsTurn(o: Oracle, s: State, l: Label, key: Key, env: Environment)
    requires Prescribed(l, key, env)
    ensures Next(o, s, l) == s || l == Turn(s, key, env)
  {
  }

  lemma {:induction false} DoneStays(o: Oracle, s: State, key: Key, env: Environment, turns: nat)
    requires IsDone(s, key)
    ensures Drive(o, s, key, env, turns) == s
    decreases turns
  {
    if turns > 0 {
      assert Next(o, s, Turn(s, key, env)) == s;
      DoneStays(o, s, key, env, turns - 1);
    }
  }

  lemma DriveOn(o: Oracle, s: State, key: Key, env: Environment, a: nat, b: nat)
    ensures Drive(o, s, key, env, a + b) == Drive(o, Drive(o, s, key, env, a), key, env, b)
  {
    IterateOn(TakeTurn(o, key, env), s, a, b);
  }

  /** Any steps of the upload alone amount to some number of its turns. */
  lemma {:induction false} StepsAreTurns(o: Oracle, s: State, steps: seq<Label>, key: Key, env: Environment)
    returns (turns: nat)
    requires forall l | l in steps :: Prescribed(l, key, env)
    ensures Run(o, s, steps) == Drive(o, s, key, env, turns)
    decreases |steps|
  {
    turns := 0;
    if steps != [] {
      var next := Next(o, s, steps[0]);
      OnlyItsTurn(o, s, steps[0], key, env);
      var rest := StepsAreTurns(o, next, steps[1..], key, env);
      turns := if next == s then rest else rest + 1;
    }
  }

  lemma EarlyMoveAdvances(o: Oracle, s: State, u: Upload, key: Key, env: Environment)
    requires u.stage in {Receiving, Verifying, Checking, Probing, Recording}
    ensures Rank(Move(o, s, u, TurnAt(u.stage, key, env)).stage) < Rank(u.stage)
  {
    var l := TurnAt(u.stage, key, env);
    match u.stage
    case Receiving => assert Move(o, s, u, l) == AfterReceive(o, u, env.receipt);
    case Verifying => assert Move(o, s, u, l) == AfterVerify(o, u, Get(s.bucket, key), env.verified);
    case Checking => assert Move(o, s, u, l) == AfterCheck(u, Get(s.projects, u.release.project), env.checked);
    case Probing => assert Move(o, s, u, l) == AfterProbe(u, env.probe);
    case Recording => assert Move(o, s, u, l) == AfterRecord(u, env.record);
  }

  lemma LateMoveAdvances(o: Oracle, s: State, u: Upload, key: Key, env: Environment)
    requires u.stage in {Rechecking, Committing, Resolving, Cleanup}
    ensures Rank(Move(o, s, u, TurnAt(u.stage, key, env)).stage) < Rank(u.stage)
  {
    var l := TurnAt(u.stage, key, env);
    match u.stage
    case Rechecking => assert Move(o, s, u, l) == AfterRecheck(u, Get(s.projects, u.release.project), env.rechecked);
    case Committing => assert Move(o, s, u, l) == AfterCommit(u, env.commit);
    case Resolving => assert Move(o, s, u, l) == AfterResolve(u, key, Get(s.artifacts, SlotOf(u)), env.resolved);
    case Cleanup => assert Move(o, s, u, l) == AfterFinish(u, env.delete);
  }

  lemma TurnIs(o: Oracle, s: State, key: Key, env: Environment)
    requires key in s.uploads && s.uploads[key].stage != Done
    ensures
      var (u, l) := (s.uploads[key], Turn(s, key, env));
      Next(o, s, l) == Put(Effect(s, u, l), key, Move(o, s, u, l))
  {
  }

  lemma TurnAdvances(o: Oracle, s: State, key: Key, env: Environment)
    requires !IsDone(s, key)
    ensures Left(Next(o, s, Turn(s, key, env)), key) < Left(s, key)
  {
    if key in s.uploads {
      TurnIs(o, s, key, env);
      if s.uploads[key].stage in {Receiving, Verifying, Checking, Probing, Recording} {
        EarlyMoveAdvances(o, s, s.uploads[key], key, env);
      } else {
        LateMoveAdvances(o, s, s.uploads[key], key, env);
      }
    }
  }

  lemma {:induction false} EndsDone(o: Oracle, s: State, key: Key, env: Environment, turns: nat)
    requires Left(s, key) <= turns
    ensures IsDone(Drive(o, s, key, env, turns), key)
    decreases turns
  {
    if IsDone(s, key) {
      DoneStays(o, s, key, env, turns);
    } else {
      TurnAdvances(o, s, key, env);
      EndsDone(o, Next(o, s, Turn(s, key, env)), key, env, turns - 1);
    }
  }

  /** However many turns it took, an upload that is done has reached the one state it can leave. */
  lemma DoneIsAlone(o: Oracle, s: State, key: Key, env: Environment, turns: nat)
    requires IsDone(Drive(o, s, key, env, turns), key)
    ensures Drive(o, s, key, env, turns) == Alone(o, s, key, env)
  {
    var all := Left(s, key);
    EndsDone(o, s, key, env, all);
    DriveOn(o, s, key, env, turns, all);
    DriveOn(o, s, key, env, all, turns);
    DoneStays(o, Drive(o, s, key, env, turns), key, env, all);
    DoneStays(o, Alone(o, s, key, env), key, env, turns);
  }

  /** Every upload that runs alone to its end leaves the same state, whatever its steps were. */
  lemma AloneIsDetermined(o: Oracle, s: State, steps: seq<Label>, key: Key, env: Environment)
    requires forall l | l in steps :: Prescribed(l, key, env)
    requires IsDone(Run(o, s, steps), key)
    ensures Run(o, s, steps) == Alone(o, s, key, env)
  {
    var turns := StepsAreTurns(o, s, steps, key, env);
    DoneIsAlone(o, s, key, env, turns);
  }

  lemma {:induction false} DriveKeeps(o: Oracle, s: State, key: Key, env: Environment, turns: nat)
    requires Inv(o, s)
    ensures Inv(o, Drive(o, s, key, env, turns))
    decreases turns
  {
    if turns > 0 {
      StepKeeps(o, s, Turn(s, key, env));
      DriveKeeps(o, Next(o, s, Turn(s, key, env)), key, env, turns - 1);
    }
  }

  // ---------- what an undisturbed upload does ----------

  /** Nothing fails, and the object is a release. */
  predicate Favourable(o: Oracle, env: Environment, form: Form, bytes: Bytes, release: Release) {
    && env.receipt == Received(form, bytes) && bytes != []
    && o.verify(form, bytes) == Success(release)
    && env.verified && env.checked && env.probe.Some? && env.record == Applied && env.rechecked
    && env.commit == Applied && env.resolved && env.delete == Applied
  }

  /** The name is claimed or approved, or neither recorded nor found in a public index. */
  predicate Open(projects: map<Name, Project>, name: Name, found: seq<string>) {
    if name !in projects then found == []
    else
      var p := projects[name];
      p.claimed.Some? || p.approved.Some? || (p.collisions == [] && found == [])
  }

  /** The upload up to its ownership check. */
  function Inspecting(o: Oracle, form: Form, bytes: Bytes, release: Release): Upload {
    FRESH.(stage := Checking, completed := true, form := form, size := |bytes|, digest := o.hash(bytes),
           release := release)
  }

  lemma AloneReceives(
    o: Oracle, s: State, key: Key, env: Environment, form: Form, bytes: Bytes, release: Release)
    requires Favourable(o, env, form, bytes, release) && key !in s.uploads
    ensures Drive(o, s, key, env, 3) ==
            Put(s.(bucket := s.bucket[key := bytes]), key, Inspecting(o, form, bytes, release))
  {
    var begun := Put(s, key, FRESH);
    var received := FRESH.(stage := Verifying, completed := true, form := form, size := |bytes|, digest := o.hash(bytes));
    var stored := s.(bucket := s.bucket[key := bytes]);
    assert Drive(o, s, key, env, 1) == begun;
    DriveOne(o, begun, key, env);
    assert Drive(o, begun, key, env, 1) == Put(stored, key, received);
    DriveOne(o, Put(stored, key, received), key, env);
    DriveThree(o, s, key, env);
  }

  lemma DriveThree(o: Oracle, s: State, key: Key, env: Environment)
    ensures
      Drive(o, s, key, env, 3) == Drive(o, Drive(o, Drive(o, s, key, env, 1), key, env, 1), key, env, 1)
  {
    IterateOn(TakeTurn(o, key, env), s, 2, 1);
    IterateOn(TakeTurn(o, key, env), s, 1, 1);
  }

  lemma DriveOne(o: Oracle, s: State, key: Key, env: Environment)
    requires key in s.uploads && s.uploads[key].stage != Done
    ensures
      var (u, l) := (s.uploads[key], Turn(s, key, env));
      Drive(o, s, key, env, 1) == Put(Effect(s, u, l), key, Move(o, s, u, l))
  {
    TurnIs(o, s, key, env);
  }

  /** What the check and the recheck decide, together with the upsert between them. */
  lemma ClaimDecides(projects: map<Name, Project>, u: Upload, found: seq<string>)
    ensures
      var name := u.release.project;
      var checked := AfterCheck(u, Get(projects, name), true);
      var recorded := RecordCollisions(projects, name, found);
      var rechecked := AfterRecheck(u.(stage := Rechecking, found := found), Get(recorded, name), true);
      if checked.stage == Probing then
        && checked == u.(stage := Probing)
        && rechecked == if Open(projects, name, found) then Advance(u.(found := found)) else Refuse(u.(found := found), 409)
      else
        && recorded == projects
        && checked == if Open(projects, name, found) then Advance(u) else Refuse(u, 409)
  {
  }

  /** From the ownership check to its answer: the name is open, or the upload is refused. */
  lemma AloneClaims(o: Oracle, s: State, key: Key, env: Environment, u: Upload) returns (turns: nat, v: Upload)
    requires key in s.uploads && s.uploads[key] == u && u.stage == Checking
    requires env.checked && env.probe.Some? && env.record == Applied && env.rechecked
    ensures
      var (name, found) := (u.release.project, env.probe.value);
      && Drive(o, s, key, env, turns) == Put(s.(projects := RecordCollisions(s.projects, name, found)), key, v)
      && v == if Open(s.projects, name, found) then Advance(u.(found := v.found)) else Refuse(u.(found := v.found), 409)
  {
    var name, found := u.release.project, env.probe.value;
    var checked := AfterCheck(u, Get(s.projects, name), true);
    ClaimDecides(s.projects, u, found);
    AloneChecks(o, s, key, env, u);
    if checked.stage != Probing {
      return 1, checked;
    }
    var probing := Put(s, key, checked);
    AloneRecords(o, probing, key, env, checked);
    DriveOn(o, s, key, env, 1, 3);
    turns, v := 4, AfterRecheck(u.(stage := Rechecking, found := found), Get(RecordCollisions(s.projects, name, found), name), true);
    PutTwice(s, RecordCollisions(s.projects, name, found), key, checked, v);
  }

  lemma PutTwice(s: State, projects: map<Name, Project>, key: Key, u: Upload, v: Upload)
    ensures Put(Put(s, key, u).(projects := projects), key, v) == Put(s.(projects := projects), key, v)
  {
  }

  lemma AloneChecks(o: Oracle, s: State, key: Key, env: Environment, u: Upload)
    requires key in s.uploads && s.uploads[key] == u && u.stage == Checking && env.checked
    ensures Drive(o, s, key, env, 1) == Put(s, key, AfterCheck(u, Get(s.projects, u.release.project), true))
  {
    DriveOne(o, s, key, env);
  }

  lemma AloneRecords(o: Oracle, s: State, key: Key, env: Environment, u: Upload)
    requires key in s.uploads && s.uploads[key] == u && u.stage == Probing
    requires env.probe.Some? && env.record == Applied && env.rechecked
    ensures
      var (name, found) := (u.release.project, env.probe.value);
      var projects := RecordCollisions(s.projects, name, found);
      Drive(o, s, key, env, 3) ==
      Put(s.(projects := projects), key,
          AfterRecheck(u.(stage := Rechecking, found := found), Get(projects, name), true))
  {
    var name, found := u.release.project, env.probe.value;
    var projects := RecordCollisions(s.projects, name, found);
    var recording := u.(stage := Recording, found := found);
    var rechecking := u.(stage := Rechecking, found := found);
    DriveOne(o, s, key, env);
    AloneUpserts(o, Put(s, key, recording), key, env, recording);
    PutTwice(s, projects, key, recording, rechecking);
    AloneRechecks(o, Put(s.(projects := projects), key, rechecking), key, env, rechecking);
    PutTwice(s.(projects := projects), projects, key, rechecking, AfterRecheck(rechecking, Get(projects, name), true));
    DriveThree(o, s, key, env);
  }

  lemma AloneUpserts(o: Oracle, s: State, key: Key, env: Environment, u: Upload)
    requires key in s.uploads && s.uploads[key] == u && u.stage == Recording && env.record == Applied
    ensures Drive(o, s, key, env, 1) ==
            Put(s.(projects := RecordCollisions(s.projects, u.release.project, u.found)), key, u.(stage := Rechecking))
  {
    DriveOne(o, s, key, env);
  }

  lemma AloneRechecks(o: Oracle, s: State, key: Key, env: Environment, u: Upload)
    requires key in s.uploads && s.uploads[key] == u && u.stage == Rechecking && env.rechecked
    ensures Drive(o, s, key, env, 1) == Put(s, key, AfterRecheck(u, Get(s.projects, u.release.project), true))
  {
    DriveOne(o, s, key, env);
  }

  /** The state after an upload whose file is new, and after one whose file exists. */
  function Stored(s: State, u: Upload, key: Key, now: int): State
    requires u.release.project in s.projects
  {
    var done := u.(stage := Done, discard := false, commitAttempted := false,
                   reply := Published(u.release.project, u.form.filename, u.digest));
    Put(WithRow(s, SlotOf(u), RowOf(u, key), now), key, done)
  }

  function Kept(s: State, u: Upload, key: Key): State
    requires SlotOf(u) in s.artifacts
  {
    var done := u.(stage := Done, commitAttempted := false,
                   reply := if s.artifacts[SlotOf(u)].digest == u.digest
                            then Published(u.release.project, u.form.filename, u.digest) else Refused(409));
    Put(s.(bucket := s.bucket - {key}), key, done)
  }

  lemma AloneCommits(o: Oracle, s: State, key: Key, env: Environment, u: Upload)
    requires Inv(o, s) && key in s.uploads && s.uploads[key] == u
    requires u.stage == Committing && u.completed && u.commitAttempted && u.discard
    requires u.release.project in s.projects && MayPublish(s.projects[u.release.project])
    requires env.commit == Applied && env.resolved && env.delete == Applied
    ensures Drive(o, s, key, env, 3) == if SlotOf(u) in s.artifacts then Kept(s, u, key) else Stored(s, u, key, env.now)
  {
    var batch := CommitBatch(s, u, key, env.now);
    var resolved := AfterResolve(u.(stage := Resolving), key, Get(batch.artifacts, SlotOf(u)), true);
    AloneResolves(o, s, key, env, u);
    AloneFinishes(o, batch, key, env, resolved);
    DriveOn(o, s, key, env, 2, 1);
    assert UploadOk(o, u, Get(s.bucket, key), Holds(s.artifacts, key));
    BatchEffect(s, u, key, env.now);
    CommitDecides(s, u, key, env.now);
  }

  lemma AloneResolves(o: Oracle, s: State, key: Key, env: Environment, u: Upload)
    requires key in s.uploads && s.uploads[key] == u && u.stage == Committing && env.commit == Applied && env.resolved
    ensures
      var batch := CommitBatch(s, u, key, env.now);
      Drive(o, s, key, env, 2) ==
      Put(batch, key, AfterResolve(u.(stage := Resolving), key, Get(batch.artifacts, SlotOf(u)), true))
  {
    var batch := CommitBatch(s, u, key, env.now);
    var resolving := Put(batch, key, u.(stage := Resolving));
    DriveOne(o, s, key, env);
    assert Drive(o, s, key, env, 1) == resolving;
    DriveOne(o, resolving, key, env);
    DriveOn(o, s, key, env, 1, 1);
  }

  lemma AloneFinishes(o: Oracle, s: State, key: Key, env: Environment, u: Upload)
    requires u.stage == Cleanup && env.delete == Applied
    ensures
      Drive(o, Put(s, key, u), key, env, 1) ==
      Put(if WillDelete(u) then s.(bucket := s.bucket - {key}) else s, key, u.(stage := Done))
  {
    DriveOne(o, Put(s, key, u), key, env);
  }

  /** Commit, read back and clean up, in closed form. */
  lemma CommitDecides(s: State, u: Upload, key: Key, now: int)
    requires u.completed && u.commitAttempted && u.discard && !Holds(s.artifacts, key)
    requires u.release.project in s.projects
    ensures
      var slot := SlotOf(u);
      var batch := if slot in s.artifacts then s else WithRow(s, slot, RowOf(u, key), now);
      var v := AfterResolve(u.(stage := Resolving), key, Get(batch.artifacts, slot), true);
      && v.stage == Cleanup
      && Put(if WillDelete(v) then batch.(bucket := batch.bucket - {key}) else batch, key, v.(stage := Done)) ==
         if slot in s.artifacts then Kept(s, u, key) else Stored(s, u, key, now)
  {
    if SlotOf(u) in s.artifacts {
      assert Holds(s.artifacts, s.artifacts[SlotOf(u)].key);
    }
  }

  /** The first half of an undisturbed upload: the object is stored and inspected, and the name answered for. */
  lemma UploadClaims(
    o: Oracle, s: State, key: Key, env: Environment, form: Form, bytes: Bytes, release: Release)
    returns (turns: nat, v: Upload)
    requires Favourable(o, env, form, bytes, release) && key !in s.uploads
    ensures
      var u := Inspecting(o, form, bytes, release);
      var (name, found) := (release.project, env.probe.value);
      && Drive(o, s, key, env, turns) ==
         Put(s.(bucket := s.bucket[key := bytes], projects := RecordCollisions(s.projects, name, found)), key, v)
      && v == if Open(s.projects, name, found) then Advance(u.(found := v.found)) else Refuse(u.(found := v.found), 409)
  {
    var u := Inspecting(o, form, bytes, release);
    var stored := s.(bucket := s.bucket[key := bytes]);
    AloneReceives(o, s, key, env, form, bytes, release);
    turns, v := AloneClaims(o, Put(stored, key, u), key, env, u);
    DriveOn(o, s, key, env, 3, turns);
    turns := 3 + turns;
    PutTwice(stored, RecordCollisions(s.projects, release.project, env.probe.value), key, u, v);
  }

  /** `t` publishes exactly the new row of `u` over `s`, or nothing. */
  ghost predicate Publishes(s: State, t: State, key: Key, slot: Slot, row: Row, bytes: Bytes, open: bool) {
    && IsDone(t, key)
    && t.uploads[key].reply == ReplyTo(s, open, slot, row.digest)
    && (if open && slot !in s.artifacts then
          && t.artifacts == s.artifacts[slot := row]
          && t.bucket == s.bucket[key := bytes]
          && t.audit == s.audit + [Uploaded(slot.0, slot.1, row.digest)]
        else t.artifacts == s.artifacts && t.bucket == s.bucket && t.audit == s.audit)
  }

  function ReplyTo(s: State, open: bool, slot: Slot, digest: Digest): Reply {
    if !open || (slot in s.artifacts && s.artifacts[slot].digest != digest) then Refused(409)
    else Published(slot.0, slot.1, digest)
  }

  lemma OpenEnds(o: Oracle, s: State, c: State, key: Key, env: Environment, u: Upload, bytes: Bytes)
    requires Inv(o, c) && key in c.uploads && c.uploads[key] == u && key !in s.bucket
    requires c.bucket == s.bucket[key := bytes] && c.artifacts == s.artifacts && c.audit == s.audit
    requires u.stage == Committing && u.completed && u.commitAttempted && u.discard
    requires u.release.project in c.projects && MayPublish(c.projects[u.release.project])
    requires env.commit == Applied && env.resolved && env.delete == Applied
    ensures Publishes(s, Drive(o, c, key, env, 3), key, SlotOf(u), RowOf(u, key), bytes, true)
  {
    AloneCommits(o, c, key, env, u);
    if SlotOf(u) in c.artifacts {
      KeptPublishes(s, c, key, u, bytes);
    } else {
      StoredPublishes(s, c, key, u, env.now, bytes);
    }
  }

  lemma StoredPublishes(s: State, c: State, key: Key, u: Upload, now: int, bytes: Bytes)
    requires c.bucket == s.bucket[key := bytes] && c.artifacts == s.artifacts && c.audit == s.audit
    requires u.release.project in c.projects && SlotOf(u) !in s.artifacts
    ensures Publishes(s, Stored(c, u, key, now), key, SlotOf(u), RowOf(u, key), bytes, true)
  {
  }

  lemma KeptPublishes(s: State, c: State, key: Key, u: Upload, bytes: Bytes)
    requires c.bucket == s.bucket[key := bytes] && c.artifacts == s.artifacts && c.audit == s.audit
    requires key !in s.bucket && SlotOf(u) in s.artifacts
    ensures Publishes(s, Kept(c, u, key), key, SlotOf(u), RowOf(u, key), bytes, true)
  {
    assert s.bucket[key := bytes] - {key} == s.bucket;
  }

  lemma ClosedEnds(o: Oracle, s: State, c: State, key: Key, env: Environment, u: Upload, bytes: Bytes)
    requires key !in s.bucket && u.stage == Cleanup && u.reply == Refused(409) && WillDelete(u)
    requires c.bucket == s.bucket[key := bytes] && c.artifacts == s.artifacts && c.audit == s.audit
    requires env.delete == Applied
    ensures Publishes(s, Drive(o, Put(c, key, u), key, env, 1), key, SlotOf(u), RowOf(u, key), bytes, false)
  {
    AloneFinishes(o, c, key, env, u);
    assert s.bucket[key := bytes] - {key} == s.bucket;
  }

  lemma OpenMayPublish(projects: map<Name, Project>, name: Name, found: seq<string>)
    requires Open(projects, name, found)
    ensures var recorded := RecordCollisions(projects, name, found);
            name in recorded && MayPublish(recorded[name])
  {
  }

  /** What an undisturbed upload does to a reachable state: it publishes a new file of an open name and nothing else
      changes; in every other case it leaves artifacts, audit log and bucket as they were. */
  lemma UploadAlone(
    o: Oracle, s: State, key: Key, env: Environment, form: Form, bytes: Bytes, release: Release)
    requires Inv(o, s) && key !in s.uploads && Favourable(o, env, form, bytes, release)
    ensures Publishes(s, Alone(o, s, key, env), key, (release.project, form.filename),
                      Row(release.version, o.hash(bytes), |bytes|, key), bytes,
                      Open(s.projects, release.project, env.probe.value))
  {
    var name, found := release.project, env.probe.value;
    var turns, v := UploadClaims(o, s, key, env, form, bytes, release);
    var c := s.(bucket := s.bucket[key := bytes], projects := RecordCollisions(s.projects, name, found));
    DriveKeeps(o, s, key, env, turns);
    var last: nat := 1;
    if Open(s.projects, name, found) {
      last := 3;
      OpenMayPublish(s.projects, name, found);
      OpenEnds(o, s, Put(c, key, v), key, env, v, bytes);
    } else {
      ClosedEnds(o, s, c, key, env, v, bytes);
    }
    DriveOn(o, s, key, env, turns, last);
    DoneIsAlone(o, s, key, env, turns + last);
  }

  /** Publishing the same bytes again succeeds again and changes neither artifacts, audit log nor bucket. */
  lemma RetryChangesNothing(
    o: Oracle, s: State, key: Key, env: Environment, form: Form, bytes: Bytes, release: Release)
    requires Inv(o, s) && key !in s.uploads && Favourable(o, env, form, bytes, release)
    requires var slot := (release.project, form.filename);
             slot in s.artifacts && s.artifacts[slot].digest == o.hash(bytes)
    ensures
      var t := Alone(o, s, key, env);
      && key in t.uploads && t.uploads[key].reply == Published(release.project, form.filename, o.hash(bytes))
      && t.artifacts == s.artifacts && t.audit == s.audit && t.bucket == s.bucket
  {
    UploadAlone(o, s, key, env, form, bytes, release);
    assert ProjectOk(s.artifacts, release.project, s.projects[release.project]);
  }
}
