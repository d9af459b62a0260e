/** Publication and removal of jobs as a transition system over the records of the queues. `add` and `remove` are
    atomic; a removal reads twice before it removes, and anything may happen in between. */
module JobPublication {
  import opened Wrappers
  import JobPayload
  import opened JobEnvelope
  import opened JobIdentity

  datatype QueueName = Emergency | Notifications | Integrations | Evidences | Risk

  datatype Identity = Identity(queue: QueueName, id: JobId)

  datatype JobState = Waiting | Active | Delayed | Completed | Failed

  predicate Settled(state: JobState) {
    state == Completed || state == Failed
  }

  /** A record and the mark that created it: two records of one identity differ in it. */
  datatype Record = Record(incarnation: nat, state: JobState)

  type CallId = nat

  /** What a removal in flight has learnt. */
  datatype Removal = Found(target: Identity) | Observed(target: Identity, record: Record)

  /** How removeSettled ended: true, false, or an error because the job was locked by a worker. */
  datatype Answer = True | False | Locked

  /** The writes, oldest first. */
  datatype Mark = Created(target: Identity) | Removed(target: Identity, record: Record, call: CallId, observed: Record)

  datatype World = World(
    records: map<Identity, Record>, removals: map<CallId, Removal>, answers: map<CallId, Answer>, marks: seq<Mark>)

  datatype Event =
    | Publish(target: Identity)
    | Advance(target: Identity, to: JobState)
    | Look(call: CallId, target: Identity)
    | ReadState(call: CallId)
    | Remove(call: CallId)

  /** A worker moves a record between any states until it is settled. A removal looks, reads the state and removes. */
  predicate Enabled(w: World, e: Event) {
    match e
    case Publish(_) => true
    case Advance(target, _) => target in w.records && !Settled(w.records[target].state)
    case Look(call, _) => call !in w.removals && call !in w.answers
    case ReadState(call) => call in w.removals && w.removals[call].Found?
    case Remove(call) => call in w.removals && w.removals[call].Observed?
  }

  function End(w: World, call: CallId, answer: Answer): World {
    w.(removals := w.removals - {call}, answers := w.answers[call := answer])
  }

  /** A record that exists is found, not written again. */
  function Add(w: World, target: Identity): World {
    if target in w.records then w
    else w.(records := w.records[target := Record(|w.marks|, Waiting)], marks := w.marks + [Created(target)])
  }

  /** Removing what is gone succeeds; a job being worked on is locked. */
  function Delete(w: World, call: CallId, target: Identity, observed: Record): World {
    if target !in w.records then End(w, call, True)
    else if w.records[target].state == Active then End(w, call, Locked)
    else
      End(w, call, True).(
        records := w.records - {target},
        marks := w.marks + [Removed(target, w.records[target], call, observed)])
  }

  function Step(w: World, e: Event): World {
    if !Enabled(w, e) then w
    else
      match e
      case Publish(target) => Add(w, target)
      case Advance(target, to) => w.(records := w.records[target := w.records[target].(state := to)])
      case Look(call, target) =>
        if target !in w.records then End(w, call, False) else w.(removals := w.removals[call := Found(target)])
      case ReadState(call) =>
        var target := w.removals[call].target;
        if target !in w.records || !Settled(w.records[target].state) then End(w, call, False)
        else w.(removals := w.removals[call := Observed(target, w.records[target])])
      case Remove(call) => Delete(w, call, w.removals[call].target, w.removals[call].record)
  }

  function Run(w: World, events: seq<Event>): World {
    if events == [] then w else Step(Run(w, events[..|events| - 1]), events[|events| - 1])
  }

  const EMPTY := World(map[], map[], map[], [])

  /* ---- What every run keeps ---- */

  predicate Holds(records: map<Identity, Record>, target: Identity, incarnation: nat) {
    target in records && records[target].incarnation == incarnation
  }

  predicate RemovedAt(marks: seq<Mark>, k: nat, target: Identity, incarnation: nat) {
    k < |marks| && marks[k].Removed? && marks[k].target == target && marks[k].record.incarnation == incarnation
  }

  predicate Gone(marks: seq<Mark>, target: Identity, incarnation: nat) {
    exists k | 0 <= k < |marks| :: RemovedAt(marks, k, target, incarnation)
  }

  /** Every record was created, and every creation is either still there or has been removed, never both. */
  predicate RecordsInv(w: World) {
    && (forall t | t in w.records :: w.records[t].incarnation < |w.marks| && w.marks[w.records[t].incarnation] == Created(t))
    && (forall i | 0 <= i < |w.marks| && w.marks[i].Created? ::
          Holds(w.records, w.marks[i].target, i) <==> !Gone(w.marks, w.marks[i].target, i))
  }

  /** Each removal names a creation before it, and no other removal names the same one. */
  predicate MarksInv(marks: seq<Mark>) {
    && (forall k | 0 <= k < |marks| && marks[k].Removed? ::
          && marks[k].record.incarnation < k && marks[k].observed.incarnation < k
          && marks[marks[k].record.incarnation] == Created(marks[k].target)
          && marks[marks[k].observed.incarnation] == Created(marks[k].target)
          && Settled(marks[k].observed.state) && marks[k].record.state != Active)
    && (forall k, l | 0 <= k < l < |marks| && marks[k].Removed? && marks[l].Removed? ::
          marks[k].record.incarnation != marks[l].record.incarnation)
  }

  /** A removal that has seen a settled record: that very record is unchanged or gone. */
  predicate RemovalsInv(w: World) {
    forall c | c in w.removals && w.removals[c].Observed? ::
      var seen := w.removals[c];
      && Settled(seen.record.state)
      && seen.record.incarnation < |w.marks| && w.marks[seen.record.incarnation] == Created(seen.target)
      && (Holds(w.records, seen.target, seen.record.incarnation) ==> w.records[seen.target] == seen.record)
  }

  /** A removal that deleted another record than the one it saw came after the removal of the one it saw. */
  predicate OvertakenInv(marks: seq<Mark>) {
    forall k | 0 <= k < |marks| && marks[k].Removed? ::
      && (marks[k].record.incarnation == marks[k].observed.incarnation ==> marks[k].record == marks[k].observed)
      && (marks[k].record.incarnation != marks[k].observed.incarnation ==>
            Gone(marks[..k], marks[k].target, marks[k].observed.incarnation))
  }

  /** Whoever removed was answered true, and is no longer in flight. */
  predicate AnswersInv(w: World) {
    && (forall k | 0 <= k < |w.marks| && w.marks[k].Removed? ::
          w.marks[k].call in w.answers && w.answers[w.marks[k].call] == True)
    && (forall c | c in w.removals :: c !in w.answers)
  }

  predicate Inv(w: World) {
    RecordsInv(w) && MarksInv(w.marks) && RemovalsInv(w) && OvertakenInv(w.marks) && AnswersInv(w)
  }

  lemma GoneGrows(marks: seq<Mark>, mark: Mark, target: Identity, incarnation: nat)
    ensures Gone(marks + [mark], target, incarnation) <==>
            Gone(marks, target, incarnation) || (mark.Removed? && mark.target == target && mark.record.incarnation == incarnation)
  {
    var n := |marks|;
    if Gone(marks, target, incarnation) {
      var k :| 0 <= k < n && RemovedAt(marks, k, target, incarnation);
      assert RemovedAt(marks + [mark], k, target, incarnation);
    }
    if mark.Removed? && mark.target == target && mark.record.incarnation == incarnation {
      assert RemovedAt(marks + [mark], n, target, incarnation);
    }
    if Gone(marks + [mark], target, incarnation) {
      var k :| 0 <= k <= n && RemovedAt(marks + [mark], k, target, incarnation);
      assert k < n ==> RemovedAt(marks, k, target, incarnation);
    }
  }

  lemma NotYetGone(marks: seq<Mark>, target: Identity, incarnation: nat)
    requires MarksInv(marks) && incarnation >= |marks|
    ensures !Gone(marks, target, incarnation)
  {
  }

  lemma RemovedIsGone(marks: seq<Mark>, k: nat)
    requires k < |marks| && marks[k].Removed?
    ensures Gone(marks, marks[k].target, marks[k].record.incarnation)
  {
    assert RemovedAt(marks, k, marks[k].target, marks[k].record.incarnation);
  }

  /** The mark a removal leaves: of a record that is not gone, and not what was seen unless it is the same record. */
  predicate MarkFits(marks: seq<Mark>, mark: Mark) {
    mark.Removed? ==>
      && mark.record.incarnation < |marks| && mark.observed.incarnation < |marks|
      && marks[mark.record.incarnation] == Created(mark.target) == marks[mark.observed.incarnation]
      && Settled(mark.observed.state) && mark.record.state != Active
      && !Gone(marks, mark.target, mark.record.incarnation)
      && (if mark.record.incarnation == mark.observed.incarnation then mark.record == mark.observed
          else Gone(marks, mark.target, mark.observed.incarnation))
  }

  lemma MarksInvGrows(marks: seq<Mark>, mark: Mark)
    requires MarksInv(marks) && OvertakenInv(marks) && MarkFits(marks, mark)
    ensures MarksInv(marks + [mark]) && OvertakenInv(marks + [mark])
  {
    hide Gone, Settled;
    forall k | 0 <= k < |marks| && marks[k].Removed? && mark.Removed?
      ensures marks[k].record.incarnation != mark.record.incarnation
    {
      if marks[k].record.incarnation == mark.record.incarnation {
        RemovedIsGone(marks, k);
      }
    }
    assert forall k | 0 <= k <= |marks| :: (marks + [mark])[..k] == marks[..k];
    assert marks[..|marks|] == marks;
  }

  /** Only an enabled add or delete writes a mark. */
  lemma AdvanceInv(w: World, e: Event)
    requires Inv(w) && Enabled(w, e) && e.Advance?
    ensures Inv(Step(w, e))
  {
    hide Gone, MarksInv, OvertakenInv;
    var after := Step(w, e);
    assert forall t, i: nat :: Holds(after.records, t, i) <==> Holds(w.records, t, i);
  }

  lemma ReadingInv(w: World, e: Event)
    requires Inv(w) && Enabled(w, e) && (e.Look? || e.ReadState?)
    ensures Inv(Step(w, e))
  {
    hide Gone, MarksInv, OvertakenInv;
    var after := Step(w, e);
    assert after.records == w.records && after.marks == w.marks;
    assert RecordsInv(after) by {
      hide RemovalsInv, AnswersInv, Settled;
    }
    assert AnswersInv(after) by {
      hide RecordsInv, RemovalsInv, Settled;
    }
    assert RemovalsInv(after) by {
      hide AnswersInv;
    }
  }

  lemma AddInv(w: World, target: Identity)
    requires Inv(w) && target !in w.records
    ensures Inv(Add(w, target))
  {
    hide Gone, Settled, MarksInv, OvertakenInv;
    var after := Add(w, target);
    var n := |w.marks|;
    MarksInvGrows(w.marks, Created(target));
    NotYetGone(w.marks, target, n);
    forall i | 0 <= i <= n && after.marks[i].Created?
      ensures Holds(after.records, after.marks[i].target, i) <==> !Gone(after.marks, after.marks[i].target, i)
    {
      GoneGrows(w.marks, Created(target), after.marks[i].target, i);
    }
  }

  lemma DeleteInv(w: World, call: CallId)
    requires Inv(w) && Enabled(w, Remove(call))
    ensures Inv(Step(w, Remove(call)))
  {
    hide Gone, Settled, MarksInv, OvertakenInv;
    var seen := w.removals[call];
    var target := seen.target;
    var after := Step(w, Remove(call));
    if target in w.records && w.records[target].state != Active {
      var mark := Removed(target, w.records[target], call, seen.record);
      MarksInvGrows(w.marks, mark);
      DeleteRecordsInv(w, target, mark, after);
    } else {
      assert after.marks == w.marks && after.records == w.records;
    }
  }

  lemma DeleteRecordsInv(w: World, target: Identity, mark: Mark, after: World)
    requires RecordsInv(w) && target in w.records
    requires mark.Removed? && mark.target == target && mark.record == w.records[target]
    requires after.records == w.records - {target} && after.marks == w.marks + [mark]
    ensures RecordsInv(after)
  {
    hide Gone;
    forall i | 0 <= i < |after.marks| && after.marks[i].Created?
      ensures Holds(after.records, after.marks[i].target, i) <==> !Gone(after.marks, after.marks[i].target, i)
    {
      GoneGrows(w.marks, mark, after.marks[i].target, i);
    }
  }

  lemma StepInv(w: World, e: Event)
    requires Inv(w)
    ensures Inv(Step(w, e))
  {
    hide Inv, Add, Delete;
    if Enabled(w, e) {
      match e
      case Publish(target) => if target !in w.records { AddInv(w, target); } else { AddIsIdempotent(w, target); }
      case Remove(call) => DeleteInv(w, call);
      case Advance(_, _) => AdvanceInv(w, e);
      case Look(_, _) => ReadingInv(w, e);
      case ReadState(_) => ReadingInv(w, e);
    }
  }

  /** A second publish of the same parts changes nothing. */
  lemma AddIsIdempotent(w: World, target: Identity)
    ensures target in w.records ==> Add(w, target) == w
    ensures Add(Add(w, target), target) == Add(w, target)
  {
  }

  lemma {:induction false} RunInv(events: seq<Event>)
    ensures Inv(Run(EMPTY, events))
  {
    hide Step, Inv;
    if events == [] {
      EmptyInv();
    } else {
      RunInv(events[..|events| - 1]);
      StepInv(Run(EMPTY, events[..|events| - 1]), events[|events| - 1]);
    }
  }

  lemma EmptyInv()
    ensures Inv(EMPTY)
  {
  }

  /* ---- Theorems over every run ---- */

  /** Between two creations of one identity, the first record was removed by a removeSettled that returned true. */
  lemma OneRecordUntilRemoved(events: seq<Event>, i: nat, j: nat) returns (k: nat)
    requires
      var marks := Run(EMPTY, events).marks;
      i < j < |marks| && marks[i].Created? && marks[j].Created? && marks[i].target == marks[j].target
    ensures
      var w := Run(EMPTY, events);
      && i < k < j && RemovedAt(w.marks, k, w.marks[i].target, i)
      && w.marks[k].call in w.answers && w.answers[w.marks[k].call] == True
  {
    hide Step, Inv, RemovedAt, Run;
    RunInv(events);
    var before := RunPrefix(events);
    var after := Run(EMPTY, events);
    if j < |before.marks| {
      k := OneRecordUntilRemoved(events[..|events| - 1], i, j);
    } else {
      k := AbsentWasRemoved(before, i);
    }
    RemovedAtKept(before.marks, after.marks, k, after.marks[i].target, i);
    AnswerOfRemoval(after, k);
  }

  /** The world before the last event, and what that event can add. */
  lemma RunPrefix(events: seq<Event>) returns (before: World)
    requires Run(EMPTY, events).marks != []
    ensures events != [] && before == Run(EMPTY, events[..|events| - 1]) && Inv(before)
    ensures
      var marks := Run(EMPTY, events).marks;
      && before.marks <= marks && |marks| <= |before.marks| + 1
      && (|marks| == |before.marks| + 1 && marks[|before.marks|].Created? ==> marks[|before.marks|].target !in before.records)
  {
    hide Step, Inv;
    before := Run(EMPTY, events[..|events| - 1]);
    RunInv(events[..|events| - 1]);
    MarksOnlyGrow(before, events[|events| - 1]);
  }

  lemma RemovedAtKept(marks: seq<Mark>, later: seq<Mark>, k: nat, target: Identity, incarnation: nat)
    requires marks <= later && RemovedAt(marks, k, target, incarnation)
    ensures RemovedAt(later, k, target, incarnation) && later[k].Removed?
  {
  }

  /** A created record that is not there was removed. */
  lemma AbsentWasRemoved(w: World, i: nat) returns (k: nat)
    requires Inv(w) && i < |w.marks| && w.marks[i].Created? && w.marks[i].target !in w.records
    ensures i < k < |w.marks| && RemovedAt(w.marks, k, w.marks[i].target, i)
  {
    hide RemovalsInv, OvertakenInv, AnswersInv;
    k :| 0 <= k < |w.marks| && RemovedAt(w.marks, k, w.marks[i].target, i);
  }

  lemma AnswerOfRemoval(w: World, k: nat)
    requires Inv(w) && k < |w.marks| && w.marks[k].Removed?
    ensures w.marks[k].call in w.answers && w.answers[w.marks[k].call] == True
  {
  }

  lemma MarksOnlyGrow(w: World, e: Event)
    ensures |Step(w, e).marks| <= |w.marks| + 1 && w.marks <= Step(w, e).marks
    ensures |Step(w, e).marks| == |w.marks| + 1 && Step(w, e).marks[|w.marks|].Created? ==>
            Step(w, e).marks[|w.marks|].target !in w.records
  {
  }

  /** A publish is without effect exactly while an earlier record of the identity has not been removed; otherwise it creates
      a waiting one. */
  lemma PublishCreatesExactlyAfterRemoval(events: seq<Event>, target: Identity)
    ensures
      var w := Run(EMPTY, events);
      var after := Run(EMPTY, events + [Publish(target)]);
      if exists i | 0 <= i < |w.marks| :: w.marks[i] == Created(target) && !Gone(w.marks, target, i)
      then after == w
      else after == w.(records := w.records[target := Record(|w.marks|, Waiting)], marks := w.marks + [Created(target)])
  {
    hide Gone;
    var w := Run(EMPTY, events);
    RunInv(events);
    assert (events + [Publish(target)])[..|events|] == events;
    if target in w.records {
      assert w.marks[w.records[target].incarnation] == Created(target);
    }
  }

  /** A removal deletes another record than the one it saw settled exactly when some other call had already removed
      that one. Only then can the deleted record be waiting or delayed; an active one is never deleted. */
  lemma WhatARemovalDeletes(events: seq<Event>, k: nat)
    requires k < |Run(EMPTY, events).marks| && Run(EMPTY, events).marks[k].Removed?
    ensures
      var marks := Run(EMPTY, events).marks;
      && (marks[k].observed.state == Completed || marks[k].observed.state == Failed)
      && marks[k].record.state != Active
      && (marks[k].record != marks[k].observed <==> Gone(marks[..k], marks[k].target, marks[k].observed.incarnation))
      && (marks[k].record.state == Waiting || marks[k].record.state == Delayed ==> Gone(marks[..k], marks[k].target, marks[k].observed.incarnation))
  {
    RunInv(events);
    var marks := Run(EMPTY, events).marks;
    var seen := marks[k].observed.incarnation;
    if Gone(marks[..k], marks[k].target, seen) {
      var l :| 0 <= l < k && RemovedAt(marks[..k], l, marks[k].target, seen);
      assert marks[l].record.incarnation != marks[k].record.incarnation;
    }
  }

  /** The record of the identity is the same in both worlds, or absent from both. */
  predicate Untouched(before: World, after: World, target: Identity) {
    && (target in after.records <==> target in before.records)
    && (target in before.records ==> after.records[target] == before.records[target])
  }

  /** A removal whose record nobody touches between its steps answers true and deletes it if and only if its state is completed
      or failed; for a waiting, active or delayed record and for an absent one it answers false and deletes nothing. */
  lemma UndisturbedRemoval(w: World, call: CallId, target: Identity, meanwhile: seq<Event>, before: seq<Event>)
    requires call !in w.removals && call !in w.answers
    requires ByOthers(meanwhile, call) && ByOthers(before, call)
    requires
      var met := Run(Step(w, Look(call, target)), meanwhile);
      var last := Run(Step(met, ReadState(call)), before);
      Untouched(w, met, target) && Untouched(w, last, target)
    ensures
      var met := Run(Step(w, Look(call, target)), meanwhile);
      var last := Run(Step(met, ReadState(call)), before);
      var after := Step(last, Remove(call));
      && call in after.answers
      && if target in w.records && (w.records[target].state == Completed || w.records[target].state == Failed)
         then
           && after.answers[call] == True
           && after.records == last.records - {target}
           && after.marks == last.marks + [Removed(target, w.records[target], call, w.records[target])]
         else
           && after.answers[call] == False
           && after.records == last.records && after.marks == last.marks
  {
    hide Run;
    var looked := Step(w, Look(call, target));
    var met := Run(looked, meanwhile);
    OthersKeep(looked, meanwhile, call);
    var read := Step(met, ReadState(call));
    OthersKeep(read, before, call);
  }

  /** What the others do leaves a removal, in flight or answered, alone. */
  lemma OthersKeep(w: World, others: seq<Event>, call: CallId)
    requires ByOthers(others, call)
    ensures call in w.removals ==> call in Run(w, others).removals && Run(w, others).removals[call] == w.removals[call]
    ensures call in w.answers ==> call in Run(w, others).answers && Run(w, others).answers[call] == w.answers[call]
    ensures call !in w.removals ==> call !in Run(w, others).removals
  {
    hide Step;
    if others != [] {
      OthersKeep(w, others[..|others| - 1], call);
      assert !Concerns(others[|others| - 1], call);
      OtherStepKeeps(Run(w, others[..|others| - 1]), others[|others| - 1], call);
    }
  }

  lemma OtherStepKeeps(w: World, e: Event, call: CallId)
    requires !Concerns(e, call)
    ensures call in w.removals <==> call in Step(w, e).removals
    ensures call in w.removals ==> Step(w, e).removals[call] == w.removals[call]
    ensures call in w.answers ==> call in Step(w, e).answers && Step(w, e).answers[call] == w.answers[call]
  {
  }

  /** The last step of a removal: gone is as good as removed, an active record is locked, any other is deleted. */
  lemma LastStepOfARemoval(w: World, call: CallId)
    requires Enabled(w, Remove(call))
    ensures
      var Observed(target, observed) := w.removals[call];
      var ended := w.(removals := w.removals - {call});
      Step(w, Remove(call)) ==
        if target !in w.records then ended.(answers := w.answers[call := True])
        else if w.records[target].state == Active then ended.(answers := w.answers[call := Locked])
        else ended.(
          records := w.records - {target},
          answers := w.answers[call := True],
          marks := w.marks + [Removed(target, w.records[target], call, observed)])
  {
  }

  /** Two removals of one job that overlap can delete a job published in between, before any worker has run it. */
  lemma OverlappingRemovalsDeleteANewJob(t: Identity) returns (events: seq<Event>)
    ensures
      var w := Run(EMPTY, events);
      && w.marks == [Created(t), Removed(t, Record(0, Completed), 1, Record(0, Completed)), Created(t),
                     Removed(t, Record(2, Waiting), 2, Record(0, Completed))]
      && t !in w.records
      && 2 in w.answers && w.answers[2] == True
  {
    var first := [Publish(t), Advance(t, Completed), Look(1, t)];
    var second := [ReadState(1), Look(2, t), ReadState(2)];
    var third := [Remove(1), Publish(t), Remove(2)];
    OverlapFirst(t);
    OverlapSecond(t);
    OverlapThird(t);
    RunAppend(EMPTY, first, second);
    RunAppend(EMPTY, first + second, third);
    events := first + second + third;
    hide Step, Run;
  }

  function OneLooked(t: Identity): World {
    World(map[t := Record(0, Completed)], map[1 := Found(t)], map[], [Created(t)])
  }

  function BothObserved(t: Identity): World {
    var seen := Observed(t, Record(0, Completed));
    World(map[t := Record(0, Completed)], map[1 := seen, 2 := seen], map[], [Created(t)])
  }

  lemma OverlapFirst(t: Identity)
    ensures Run(EMPTY, [Publish(t), Advance(t, Completed), Look(1, t)]) == OneLooked(t)
  {
    RunsThrough(EMPTY, [Publish(t), Advance(t, Completed), Look(1, t)]);
    hide Run;
    assert Step(EMPTY, Publish(t)) == World(map[t := Record(0, Waiting)], map[], map[], [Created(t)]);
  }

  lemma OverlapSecond(t: Identity)
    ensures Run(OneLooked(t), [ReadState(1), Look(2, t), ReadState(2)]) == BothObserved(t)
  {
    RunsThrough(OneLooked(t), [ReadState(1), Look(2, t), ReadState(2)]);
    hide Run;
  }

  lemma OverlapThird(t: Identity)
    ensures
      var w := Run(BothObserved(t), [Remove(1), Publish(t), Remove(2)]);
      && w.marks == [Created(t), Removed(t, Record(0, Completed), 1, Record(0, Completed)), Created(t),
                     Removed(t, Record(2, Waiting), 2, Record(0, Completed))]
      && t !in w.records
      && 2 in w.answers && w.answers[2] == True
  {
    RunsThrough(BothObserved(t), [Remove(1), Publish(t), Remove(2)]);
    hide Run;
    var done := Record(0, Completed);
    var w1 := Step(BothObserved(t), Remove(1));
    assert w1.marks == [Created(t), Removed(t, done, 1, done)] && t !in w1.records;
  }

  lemma RunsThrough(w: World, events: seq<Event>)
    requires |events| == 3
    ensures Run(w, events) == Step(Step(Step(w, events[0]), events[1]), events[2])
  {
    hide Step;
    assert events[..2][..1][..0] == [];
    assert Run(w, events[..2]) == Step(Run(w, events[..2][..1]), events[1]);
  }

  lemma {:induction false} RunAppend(w: World, events: seq<Event>, more: seq<Event>)
    ensures Run(w, events + more) == Run(Run(w, events), more)
  {
    hide Step;
    if more == [] {
      assert events + more == events;
    } else {
      var n := |more| - 1;
      RunAppend(w, events, more[..n]);
      assert (events + more)[..|events| + n] == events + more[..n];
    }
  }

  /* ---- Removals one at a time ---- */

  /** No removal is started while another one of the same identity is in flight. */
  predicate Exclusive(events: seq<Event>) {
    events == [] ||
    var n := |events| - 1;
    && Exclusive(events[..n])
    && (events[n].Look? ==> forall c | c in Run(EMPTY, events[..n]).removals :: Run(EMPTY, events[..n]).removals[c].target != events[n].target)
  }

  /** Then removals in flight have different targets, what they saw is there unchanged, and all that was removed or
      answered was as seen. */
  predicate ExclusiveInv(w: World) {
    ExclusiveFlight(w) && ExclusiveOutcomes(w)
  }

  predicate ExclusiveFlight(w: World) {
    && (forall c, d | c in w.removals && d in w.removals && c != d :: w.removals[c].target != w.removals[d].target)
    && (forall c | c in w.removals && w.removals[c].Observed? ::
          w.removals[c].target in w.records && w.records[w.removals[c].target] == w.removals[c].record)
  }

  predicate ExclusiveOutcomes(w: World) {
    && (forall k | 0 <= k < |w.marks| && w.marks[k].Removed? :: w.marks[k].record == w.marks[k].observed)
    && (forall c | c in w.answers :: w.answers[c] == True ==> exists k | 0 <= k < |w.marks| :: RemovedBy(w.marks, k, c))
    && (forall c | c in w.answers :: w.answers[c] != Locked)
  }

  predicate RemovedBy(marks: seq<Mark>, k: nat, call: CallId) {
    k < |marks| && marks[k].Removed? && marks[k].call == call
  }

  lemma ExclusiveStep(w: World, e: Event)
    requires Inv(w) && ExclusiveInv(w)
    requires e.Look? ==> forall c | c in w.removals :: w.removals[c].target != e.target
    ensures ExclusiveInv(Step(w, e))
  {
    hide Step, Inv;
    if !Enabled(w, e) {
      hide ExclusiveFlight, ExclusiveOutcomes, Enabled;
      DisabledKeeps(w, e);
    } else if e.Remove? {
      ExclusiveRemove(w, e.call);
    } else {
      QuietFlight(w, e);
      QuietOutcomes(w, e);
    }
  }

  lemma DisabledKeeps(w: World, e: Event)
    requires !Enabled(w, e)
    ensures Step(w, e) == w
  {
  }

  lemma QuietFlight(w: World, e: Event)
    requires Inv(w) && ExclusiveFlight(w) && Enabled(w, e) && !e.Remove?
    requires e.Look? ==> forall c | c in w.removals :: w.removals[c].target != e.target
    ensures ExclusiveFlight(Step(w, e))
  {
    hide RecordsInv, MarksInv, OvertakenInv, AnswersInv, Delete;
  }

  lemma QuietOutcomes(w: World, e: Event)
    requires ExclusiveOutcomes(w) && Enabled(w, e) && !e.Remove?
    ensures ExclusiveOutcomes(Step(w, e))
  {
    hide Delete, RemovedBy;
    var after := Step(w, e);
    if e.Publish? {
      forall c, k | 0 <= k < |w.marks| && RemovedBy(w.marks, k, c)
        ensures RemovedBy(after.marks, k, c)
      {
        RemovedByKept(w.marks, after.marks, k, c);
      }
    }
  }

  lemma RemovedByKept(marks: seq<Mark>, later: seq<Mark>, k: nat, call: CallId)
    requires marks <= later && RemovedBy(marks, k, call)
    ensures RemovedBy(later, k, call)
  {
  }

  /** The record seen is still there and settled, so it is what is removed. */
  lemma ExclusiveRemove(w: World, call: CallId)
    requires Inv(w) && ExclusiveInv(w) && Enabled(w, Remove(call))
    ensures ExclusiveInv(Step(w, Remove(call)))
  {
    hide RecordsInv, MarksInv, OvertakenInv;
    var seen := w.removals[call];
    var after := Step(w, Remove(call));
    assert w.records[seen.target] == seen.record && Settled(seen.record.state);
    assert after.marks == w.marks + [Removed(seen.target, seen.record, call, seen.record)];
    assert RemovedBy(after.marks, |w.marks|, call);
    forall c | c in after.answers && after.answers[c] == True
      ensures exists k | 0 <= k < |after.marks| :: RemovedBy(after.marks, k, c)
    {
      if c != call {
        var k :| 0 <= k < |w.marks| && RemovedBy(w.marks, k, c);
        assert RemovedBy(after.marks, k, c);
      }
    }
  }

  /** When no two removals of one identity overlap, every removal that returns true has deleted exactly the settled
      record it saw, and none fails on a lock. */
  lemma {:induction false} ExclusiveRemovalsAreSafe(events: seq<Event>)
    requires Exclusive(events)
    ensures ExclusiveInv(Run(EMPTY, events))
    ensures forall k | 0 <= k < |Run(EMPTY, events).marks| ::
              Run(EMPTY, events).marks[k].Removed? ==>
                Run(EMPTY, events).marks[k].record.state == Completed || Run(EMPTY, events).marks[k].record.state == Failed
  {
    RunInv(events);
    if events != [] {
      hide Step;
      var n := |events| - 1;
      ExclusiveRemovalsAreSafe(events[..n]);
      RunInv(events[..n]);
      ExclusiveStep(Run(EMPTY, events[..n]), events[n]);
    }
  }

  /* ---- The producer ---- */

  predicate Concerns(e: Event, call: CallId) {
    (e.Look? || e.ReadState? || e.Remove?) && e.call == call
  }

  predicate ByOthers(events: seq<Event>, call: CallId) {
    forall e | e in events :: !Concerns(e, call)
  }

  /** What the others do leaves a removal in flight alone. */
  lemma {:induction false} OthersKeepCall(w: World, others: seq<Event>, call: CallId)
    requires ByOthers(others, call) && call in w.removals
    ensures call in Run(w, others).removals && Run(w, others).removals[call] == w.removals[call]
  {
    if others != [] {
      OthersKeepCall(w, others[..|others| - 1], call);
      assert !Concerns(others[|others| - 1], call);
    }
  }

  datatype PublishFault = Refused(fault: IdentityFault) | InvalidEnvelope

  /** The outcome of publish before anything is written: name, envelope and key are looked at in this order. */
  function Prepare(h: JobPayload.Heap, data: Data, bytes: Option<nat>, name: Text, key: Text): Result<JobId, PublishFault> {
    if !ValidJobName(name) then Err(Refused(InvalidJobName))
    else if ParseJobEnvelope(h, data, bytes).None? then Err(InvalidEnvelope)
    else
      var id := QueueJobId(name, key);
      if id.Err? then Err(Refused(id.error)) else Ok(id.value)
  }

  /** Exactly what can be published, in the order in which it is looked at: a name of the pattern, an acceptable envelope, and a
      trimmed key of 1 to 512 units without C0 controls or DEL. The id is then the digest of name, NUL and key. */
  lemma PublishAcceptsExactly(h: JobPayload.Heap, data: Data, bytes: Option<nat>, name: Text, key: Text)
    ensures Prepare(h, data, bytes, name, key) ==
      if !(|name| <= 128 && NamePattern(name, AtStart)) then Err(Refused(InvalidJobName))
      else if !Acceptable(h, data, bytes) then Err(InvalidEnvelope)
      else if !(1 <= |key| <= 512 && !SpaceUnit(key[0]) && !SpaceUnit(key[|key| - 1])
                && forall i | 0 <= i < |key| :: 31 < key[i] && key[i] != 127)
      then Err(Refused(InvalidIdempotencyKey))
      else Ok(Generated(Scalars(name) + [0] + Scalars(key)))
  {
    hide ParseJobEnvelope, Acceptable, NamePattern, Scalars, SpaceUnit;
    ValidNamesMatchThePattern(name);
    ParsedExactlyWhenAcceptable(h, data, bytes);
  }

  class QueueProducer {
    var records: map<Identity, Record>
    var removals: map<CallId, Removal>
    var answers: map<CallId, Answer>
    var marks: seq<Mark>

    constructor ()
      ensures State() == EMPTY
    {
      records, removals, answers, marks := map[], map[], map[], [];
    }

    function State(): World
      reads this
    {
      World(records, removals, answers, marks)
    }

    /** The workers and the other callers take their steps. */
    method Interleave(others: seq<Event>)
      modifies this
      ensures State() == Run(old(State()), others)
    {
      for i := 0 to |others|
        invariant State() == Run(old(State()), others[..i])
      {
        var next := Step(State(), others[i]);
        assert others[..i + 1][..i] == others[..i];
        records, removals, answers, marks := next.records, next.removals, next.answers, next.marks;
      }
      assert others[..|others|] == others;
    }

    method Publish(h: JobPayload.Heap, data: Data, bytes: Option<nat>, queue: QueueName, name: Text, key: Text)
      returns (published: Result<JobId, PublishFault>)
      modifies this
      ensures published == Prepare(h, data, bytes, name, key)
      ensures State() == if published.Ok? then Step(old(State()), Event.Publish(Identity(queue, published.value))) else old(State())
    {
      if !ValidJobName(name) {
        return Err(Refused(InvalidJobName));
      }
      var envelope := ParseJobEnvelope(h, data, bytes);
      if envelope.None? {
        return Err(InvalidEnvelope);
      }
      var id := QueueJobId(name, key);
      if id.Err? {
        return Err(Refused(id.error));
      }
      var target := Identity(queue, id.value);
      if target !in records {
        records := records[target := Record(|marks|, Waiting)];
        marks := marks + [Created(target)];
      }
      published := Ok(id.value);
    }

    /** The answer false, or the call stays in flight. */
    method Settle(call: CallId, answer: Answer)
      modifies this
      ensures State() == End(old(State()), call, answer)
    {
      removals := removals - {call};
      answers := answers[call := answer];
    }

    /** removeSettled: three steps with other steps in between. */
    method RemoveSettled(call: CallId, queue: QueueName, name: Text, key: Text, meanwhile: seq<Event>, before: seq<Event>)
      returns (removed: Result<Answer, IdentityFault>)
      requires call !in removals && call !in answers && ByOthers(meanwhile, call) && ByOthers(before, call)
      modifies this
      ensures removed.Err? <==> QueueJobId(name, key).Err?
      ensures removed.Err? ==> State() == old(State()) && removed.error == QueueJobId(name, key).error
      ensures removed.Ok? ==>
        var looked := Step(old(State()), Look(call, Identity(queue, QueueJobId(name, key).value)));
        var read := Step(Run(looked, meanwhile), ReadState(call));
        && State() == (if call in looked.answers then looked
                       else if call in read.answers then read
                       else Step(Run(read, before), Remove(call)))
        && call in answers && answers[call] == removed.value
    {
      var id := QueueJobId(name, key);
      if id.Err? {
        return Err(id.error);
      }
      var target := Identity(queue, id.value);
      if target !in records {
        Settle(call, False);
        return Ok(False);
      }
      removals := removals[call := Found(target)];
      ghost var looked := State();
      Interleave(meanwhile);
      OthersKeepCall(looked, meanwhile, call);
      OthersDoNotAnswer(looked, meanwhile, call);
      if target !in records || !Settled(records[target].state) {
        Settle(call, False);
        return Ok(False);
      }
      removals := removals[call := Observed(target, records[target])];
      ghost var read := State();
      Interleave(before);
      OthersKeepCall(read, before, call);
      var answer := Delete(call);
      removed := Ok(answer);
    }

    /** The atomic removal. */
    method Delete(call: CallId) returns (answer: Answer)
      requires Enabled(State(), Event.Remove(call))
      modifies this
      ensures State() == Step(old(State()), Event.Remove(call))
      ensures call in answers && answers[call] == answer
    {
      var target := removals[call].target;
      answer := True;
      if target in records {
        if records[target].state == Active {
          answer := Locked;
        } else {
          marks := marks + [Removed(target, records[target], call, removals[call].record)];
          records := records - {target};
        }
      }
      Settle(call, answer);
    }
  }

  lemma {:induction false} OthersDoNotAnswer(w: World, others: seq<Event>, call: CallId)
    requires ByOthers(others, call)
    ensures call in Run(w, others).answers <==> call in w.answers
  {
    if others != [] {
      OthersDoNotAnswer(w, others[..|others| - 1], call);
      assert !Concerns(others[|others| - 1], call);
    }
  }
}
