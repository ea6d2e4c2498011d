/** Many ingest calls at once over one connection: each call moves through its transaction step
    by step, other operations and failures fall in between, and what is committed is always what
    some serial order leaves. */
module IngestProtocol {
  import opened Options
  import opened TimeText
  import opened Tables
  import opened TableLaws

  datatype Phase =
    | Waiting
    | Begun
    | Checked
    | Upserted(issueId: int)
    | Stored(issueId: int)
    | Done(out: Outcome)
    | Aborted  // cancelled or failed by the engine; the caller gets an error

  datatype Call = Call(r: Incoming, phase: Phase)

  /** committed is the database; work is the open transaction's view of it; owner holds the only
      connection; order lists what has finished, in the order it finished. */
  datatype State = State(committed: Db, work: Db, owner: Option<nat>, calls: seq<Call>, order: seq<Entry>)

  /** A finished ingest call, or another operation. */
  datatype Entry = Finished(call: nat) | Other(op: Op)

  predicate InTransaction(ph: Phase) {
    ph.Begun? || ph.Checked? || ph.Upserted? || ph.Stored?
  }

  function WithPhase(s: State, c: nat, ph: Phase): State
    requires c < |s.calls|
  {
    s.(calls := s.calls[c := s.calls[c].(phase := ph)])
  }

  /** Rolling back: the connection is free again and nothing was committed. */
  function Release(s: State, c: nat, ph: Phase): State
    requires c < |s.calls|
  {
    WithPhase(s, c, ph).(owner := None, work := s.committed)
  }

  function Finish(s: State, c: nat, out: Outcome): State
    requires c < |s.calls|
  {
    Release(s, c, Done(out)).(order := s.order + [Finished(c)])
  }

  /** The next step of call c inside its transaction. */
  ghost function Advance(s: State, c: nat): State
    requires c < |s.calls| && InTransaction(s.calls[c].phase)
  {
    var r := s.calls[c].r;
    match s.calls[c].phase
    case Begun =>
      if r.id in s.work.reports then Finish(s, c, Duplicate) else WithPhase(s, c, Checked)
    case Checked =>
      (match Upsert(s.work, r)
       case None => Finish(s, c, Failed)
       case Some((work, i)) => WithPhase(s, c, Upserted(i)).(work := work))
    case Upserted(i) =>
      if r.id in s.work.reports then Finish(s, c, Duplicate)  // the row is ignored: roll back
      else (match InsertReport(s.work, r, i)
            case None => Finish(s, c, Failed)
            case Some(work) => WithPhase(s, c, Stored(i)).(work := work))
    case Stored(i) =>
      Finish(s.(committed := s.work), c, Inserted(i))
  }

  datatype Step = Begin(c: nat) | Next(c: nat) | Abort(c: nat) | Arrive(r: Incoming) | Operate(op: Op)

  predicate Enabled(s: State, step: Step) {
    match step
    case Begin(c) => s.owner.None? && c < |s.calls| && s.calls[c].phase.Waiting?
    case Next(c) => s.owner == Some(c) && c < |s.calls| && InTransaction(s.calls[c].phase)
    case Abort(c) => c < |s.calls| && (s.calls[c].phase.Waiting? || (s.owner == Some(c) && InTransaction(s.calls[c].phase)))
    case Arrive(_) => true
    case Operate(op) => s.owner.None? && !op.IngestOp?
  }

  ghost function Take(s: State, step: Step): State
    requires Enabled(s, step)
  {
    match step
    case Begin(c) => WithPhase(s, c, Begun).(owner := Some(c), work := s.committed)
    case Next(c) => Advance(s, c)
    case Abort(c) => if s.calls[c].phase.Waiting? then WithPhase(s, c, Aborted) else Release(s, c, Aborted)
    case Arrive(r) => s.(calls := s.calls + [Call(r, Waiting)])
    case Operate(op) =>
      var db := After(s.committed, op);
      s.(committed := db, work := db, order := s.order + [Other(op)])
  }

  const START := State(EMPTY, EMPTY, None, [], [])

  /** Where an interleaving leads, None when some step was not possible. */
  ghost function Explore(steps: seq<Step>): Option<State> {
    ExploreFrom(START, steps)
  }

  ghost function ExploreFrom(start: State, steps: seq<Step>): Option<State>
    decreases |steps|
  {
    if steps == [] then Some(start) else
      match ExploreFrom(start, steps[..|steps| - 1])
      case None => None
      case Some(s) =>
        var step := steps[|steps| - 1];
        if Enabled(s, step) then Some(Take(s, step)) else None
  }

  // ---------- the serial order ----------

  function OpOf(s: State, e: Entry): Op
    requires e.Finished? ==> e.call < |s.calls|
  {
    match e
    case Finished(c) => IngestOp(s.calls[c].r)
    case Other(op) => op
  }

  ghost predicate OrderOk(s: State) {
    && (forall k :: 0 <= k < |s.order| && s.order[k].Finished? ==>
          s.order[k].call < |s.calls| && s.calls[s.order[k].call].phase.Done?)
    && (forall c :: 0 <= c < |s.calls| && s.calls[c].phase.Done? ==> Finished(c) in s.order)
    && (forall j, k :: 0 <= j < k < |s.order| && s.order[j].Finished? ==> s.order[j] != s.order[k])
    && (forall k :: 0 <= k < |s.order| && s.order[k].Other? ==> !s.order[k].op.IngestOp?)
  }

  function Serial(s: State): seq<Op>
    requires OrderOk(s)
  {
    seq(|s.order|, k requires 0 <= k < |s.order| => OpOf(s, s.order[k]))
  }

  /** Each finished call was told what the whole call, run at its place in the order, tells. */
  ghost predicate Told(s: State)
    requires OrderOk(s)
  {
    forall k :: 0 <= k < |s.order| && s.order[k].Finished? ==>
      s.calls[s.order[k].call].phase.out == Ingest(Run(EMPTY, Serial(s)[..k]), s.calls[s.order[k].call].r).1
  }

  /** What the owner's transaction has done so far to the committed tables. */
  ghost predicate Progress(committed: Db, work: Db, call: Call) {
    match call.phase
    case Begun => work == committed
    case Checked => work == committed && call.r.id !in committed.reports
    case Upserted(i) => call.r.id !in committed.reports && Upsert(committed, call.r) == Some((work, i))
    case Stored(i) =>
      call.r.id !in committed.reports && Upsert(committed, call.r).Some? &&
      Upsert(committed, call.r).value.1 == i &&
      InsertReport(Upsert(committed, call.r).value.0, call.r, i) == Some(work)
    case _ => false
  }

  ghost predicate Exclusive(s: State) {
    && (s.owner.Some? ==> s.owner.value < |s.calls| && Progress(s.committed, s.work, s.calls[s.owner.value]))
    && (forall c :: 0 <= c < |s.calls| && InTransaction(s.calls[c].phase) ==> s.owner == Some(c))
  }

  ghost predicate Serializable(s: State) {
    OrderOk(s) && s.committed == Run(EMPTY, Serial(s)) && Told(s)
  }

  ghost predicate Good(s: State) {
    Exclusive(s) && Serializable(s)
  }

  // ---------- steps that finish nothing ----------

  /** A step that touches neither the committed tables nor any finished call. */
  lemma Untouched(s: State, t: State)
    requires Serializable(s) && t.committed == s.committed && t.order == s.order
    requires |s.calls| <= |t.calls|
    requires forall c :: 0 <= c < |s.calls| ==> t.calls[c].r == s.calls[c].r
    requires forall c :: 0 <= c < |t.calls| ==>
               if c < |s.calls| && s.calls[c].phase.Done? then t.calls[c] == s.calls[c] else !t.calls[c].phase.Done?
    ensures Serializable(t)
  {
    hide Run, Ingest, OpOf;
    SameSerial(s, t);
  }

  lemma SameSerial(s: State, t: State)
    requires OrderOk(s) && t.order == s.order && |s.calls| <= |t.calls|
    requires forall c :: 0 <= c < |s.calls| ==> t.calls[c].r == s.calls[c].r
    requires OrderOk(t)
    ensures Serial(t) == Serial(s)
  {
    assert forall k :: 0 <= k < |s.order| ==> Serial(t)[k] == Serial(s)[k];
  }

  // ---------- steps that finish something ----------

  lemma SerialSnoc(s: State, t: State, e: Entry)
    requires OrderOk(s) && OrderOk(t) && t.order == s.order + [e] && |s.calls| == |t.calls|
    requires forall c :: 0 <= c < |s.calls| ==> t.calls[c].r == s.calls[c].r
    ensures e.Finished? ==> e.call < |t.calls|
    ensures Serial(t) == Serial(s) + [OpOf(t, e)]
  {
    assert t.order[|s.order|] == e;
    assert forall k :: 0 <= k < |s.order| ==> t.order[k] == s.order[k];
    assert forall k :: 0 <= k < |s.order| ==> Serial(t)[k] == Serial(s)[k];
  }

  lemma FinishOrder(s: State, c: nat, out: Outcome)
    requires OrderOk(s) && c < |s.calls| && !s.calls[c].phase.Done?
    ensures OrderOk(Finish(s, c, out))
  {
    var t := Finish(s, c, out);
    assert forall k :: 0 <= k < |s.order| ==> t.order[k] == s.order[k];
    assert t.order[|s.order|] == Finished(c);
    assert forall d :: 0 <= d < |s.calls| && d != c ==> t.calls[d] == s.calls[d];
    assert forall k :: 0 <= k < |s.order| ==> s.order[k] != Finished(c);
  }

  /** Call c finishes with the committed tables and the answer the whole ingest would give. */
  lemma FinishSerializes(s: State, c: nat, db: Db, out: Outcome)
    requires Serializable(s) && c < |s.calls| && !s.calls[c].phase.Done?
    requires Ingest(s.committed, s.calls[c].r) == (db, out)
    ensures Serializable(Finish(s.(committed := db), c, out))
  {
    hide Run, Ingest, OrderOk;
    var t := Finish(s.(committed := db), c, out);
    FinishOrder(s, c, out);
    OrderIgnoresTables(s, c, db, out);
    SerialSnoc(s, t, Finished(c));
    RunSnoc(EMPTY, Serial(s), IngestOp(s.calls[c].r));
    FinishTold(s, t, c, out);
  }

  lemma OrderIgnoresTables(s: State, c: nat, db: Db, out: Outcome)
    requires c < |s.calls| && OrderOk(Finish(s, c, out))
    ensures OrderOk(Finish(s.(committed := db), c, out))
  {
    var t, t' := Finish(s, c, out), Finish(s.(committed := db), c, out);
    assert t.calls == t'.calls && t.order == t'.order;
  }

  lemma FinishTold(s: State, t: State, c: nat, out: Outcome)
    requires Serializable(s) && OrderOk(t) && c < |s.calls| && !s.calls[c].phase.Done?
    requires t.calls == s.calls[c := s.calls[c].(phase := Done(out))] && t.order == s.order + [Finished(c)]
    requires Serial(t) == Serial(s) + [IngestOp(s.calls[c].r)]
    requires Ingest(s.committed, s.calls[c].r).1 == out
    ensures Told(t)
  {
    hide Run, Ingest, Serial;
    assert |Serial(s)| == |s.order| by {
      SerialLength(s);
    }
    forall k | 0 <= k < |t.order| && t.order[k].Finished?
      ensures t.calls[t.order[k].call].phase.out == Ingest(Run(EMPTY, Serial(t)[..k]), t.calls[t.order[k].call].r).1
    {
      if k < |s.order| {
        assert t.order[k] == s.order[k];
        assert Serial(t)[..k] == Serial(s)[..k];
      } else {
        assert Serial(t)[..k] == Serial(s);
      }
    }
  }

  lemma SerialLength(s: State)
    requires OrderOk(s)
    ensures |Serial(s)| == |s.order|
  {}

  lemma OtherSerializes(s: State, op: Op)
    requires Serializable(s) && !op.IngestOp?
    ensures Serializable(Take(s.(owner := None), Operate(op)).(owner := s.owner))
  {
    hide Run, Ingest, After, Serial;
    var t := Take(s.(owner := None), Operate(op)).(owner := s.owner);
    assert forall k :: 0 <= k < |s.order| ==> t.order[k] == s.order[k];
    assert t.order[|s.order|] == Other(op);
    SerialSnoc(s, t, Other(op));
    RunSnoc(EMPTY, Serial(s), op);
    SerialLength(s);
    forall k | 0 <= k < |t.order| && t.order[k].Finished?
      ensures t.calls[t.order[k].call].phase.out == Ingest(Run(EMPTY, Serial(t)[..k]), t.calls[t.order[k].call].r).1
    {
      assert t.order[k] == s.order[k];
      assert Serial(t)[..k] == Serial(s)[..k];
    }
  }

  // ---------- the invariant ----------

  lemma {:induction false} CommittedIsSound(s: State)
    requires Serializable(s)
    ensures Inv(s.committed)
  {
    hide OrderOk, Told, Run, Inv;
    ReachableStatesAreSound(Serial(s));
  }

  lemma FinishExclusive(s: State, c: nat, out: Outcome)
    requires c < |s.calls| && s.owner == Some(c)
    requires forall d :: 0 <= d < |s.calls| && InTransaction(s.calls[d].phase) ==> s.owner == Some(d)
    ensures Exclusive(Finish(s, c, out))
  {}

  lemma AdvanceKeeps(s: State, c: nat)
    requires Good(s) && s.owner == Some(c) && c < |s.calls| && InTransaction(s.calls[c].phase)
    ensures Good(Advance(s, c))
  {
    hide Serializable, FmtTime, Inv, Upsert, InsertReport;
    CommittedIsSound(s);
    var r := s.calls[c].r;
    var t := Advance(s, c);
    IngestKeeps(s.committed, r);
    match s.calls[c].phase
    case Begun =>
      if r.id in s.work.reports {
        FinishSerializes(s, c, s.committed, Duplicate);
        FinishExclusive(s, c, Duplicate);
      } else {
        StaysSerializable(s, c, Checked, s.work);
      }
    case Checked =>
      if Upsert(s.work, r).None? {
        FinishSerializes(s, c, s.committed, Failed);
        FinishExclusive(s, c, Failed);
      } else {
        StaysSerializable(s, c, Upserted(Upsert(s.work, r).value.1), Upsert(s.work, r).value.0);
      }
    case Upserted(i) =>
      UpsertKeeps(s.committed, r);
      InsertKeeps(s.work, r, i);
      StaysSerializable(s, c, Stored(i), InsertReport(s.work, r, i).value);
    case Stored(i) =>
      FinishSerializes(s, c, s.work, Inserted(i));
      FinishExclusive(s.(committed := s.work), c, Inserted(i));
  }

  lemma StaysSerializable(s: State, c: nat, ph: Phase, work: Db)
    requires Serializable(s) && c < |s.calls| && !s.calls[c].phase.Done? && !ph.Done?
    ensures Serializable(WithPhase(s, c, ph).(work := work))
    ensures forall owner :: Serializable(WithPhase(s, c, ph).(work := work, owner := owner))
  {
    forall owner
      ensures Serializable(WithPhase(s, c, ph).(work := work, owner := owner))
    {
      Untouched(s, WithPhase(s, c, ph).(work := work, owner := owner));
    }
    Untouched(s, WithPhase(s, c, ph).(work := work));
  }

  lemma StepKeepsGood(s: State, step: Step)
    requires Good(s) && Enabled(s, step)
    ensures Good(Take(s, step))
  {
    hide Serializable, Upsert, InsertReport, Advance;
    match step
    case Begin(c) =>
      StaysSerializable(s, c, Begun, s.committed);
      assert Take(s, step) == WithPhase(s, c, Begun).(work := s.committed, owner := Some(c));
    case Next(c) =>
      AdvanceKeeps(s, c);
    case Abort(c) =>
      if s.calls[c].phase.Waiting? {
        StaysSerializable(s, c, Aborted, s.work);
        assert Take(s, step) == WithPhase(s, c, Aborted).(work := s.work);
      } else {
        StaysSerializable(s, c, Aborted, s.committed);
        assert Take(s, step) == WithPhase(s, c, Aborted).(work := s.committed, owner := None);
      }
    case Arrive(r) =>
      Untouched(s, Take(s, step));
    case Operate(op) =>
      OtherSerializes(s, op);
      assert Take(s.(owner := None), step).(owner := s.owner) == Take(s, step);
  }

  /** Every interleaving is serializable: the committed tables are those of the finished calls
      and other operations run one after another in finishing order, and every finished call was
      told what it would be told there. */
  lemma {:induction false} EveryInterleavingIsSerializable(steps: seq<Step>)
    requires Explore(steps).Some?
    ensures Good(Explore(steps).value) && Inv(Explore(steps).value.committed)
  {
    hide Take, Enabled, Good, Inv;
    if steps == [] {
      StartIsGood();
    } else {
      var front, last := steps[..|steps| - 1], steps[|steps| - 1];
      EveryInterleavingIsSerializable(front);
      StepKeepsGood(Explore(front).value, last);
    }
    GoodIsSound(Explore(steps).value);
  }

  lemma StartIsGood()
    ensures Good(START)
  {
    assert Serial(START) == [];
  }

  lemma GoodIsSound(s: State)
    requires Good(s)
    ensures Inv(s.committed)
  {
    CommittedIsSound(s);
  }

  /** A transaction that got past its duplicate check never has its row ignored or refused. */
  lemma CheckedInsertSucceeds(s: State, c: nat)
    requires Good(s) && s.owner == Some(c) && c < |s.calls| && s.calls[c].phase.Upserted?
    ensures s.calls[c].r.id !in s.work.reports
    ensures Advance(s, c).calls[c].phase == Stored(s.calls[c].phase.issueId)
  {
    hide Serializable, Inv, FmtTime, Upsert, InsertReport;
    CommittedIsSound(s);
    UpsertKeeps(s.committed, s.calls[c].r);
    InsertKeeps(s.work, s.calls[c].r, s.calls[c].phase.issueId);
  }

  /** Call c has returned, with "inserted" or with something else. */
  predicate Tells(s: State, c: nat, inserted: bool) {
    c < |s.calls| && s.calls[c].phase.Done? && s.calls[c].phase.out.Inserted? == inserted
  }

  /** Only a commit changes the database: a call that ends with false or an error, even after its
      upsert ran, leaves the committed tables as they were and the connection free. */
  lemma OnlyCommitsChangeTables(s: State, step: Step)
    requires Good(s) && Enabled(s, step) && !step.Operate?
    ensures Take(s, step).committed != s.committed ==> step.Next? && Tells(Take(s, step), step.c, true)
    ensures step.Next? && (Tells(Take(s, step), step.c, true) || Tells(Take(s, step), step.c, false)) ==>
              Take(s, step).owner.None?
    ensures step.Abort? && s.owner == Some(step.c) ==> Take(s, step).owner.None? && Take(s, step).work == s.committed
  {
    hide Upsert, InsertReport, Serializable;
  }

  /** A call can be given up before or during its transaction, and then leaves no trace: the tables
      are as they were, the connection is free if it was its own, nothing counts as finished, and
      no other call notices. */
  lemma AbortRollsBack(s: State, c: nat)
    requires Good(s) && c < |s.calls| && (s.calls[c].phase.Waiting? || s.owner == Some(c))
    ensures Enabled(s, Abort(c))
    ensures var t := Take(s, Abort(c));
            t.committed == s.committed && t.order == s.order &&
            t.calls == s.calls[c := Call(s.calls[c].r, Aborted)] &&
            t.owner == if s.owner == Some(c) then None else s.owner
  {
    hide Serializable, Upsert, InsertReport;
  }

  // ---------- every call can finish ----------

  lemma ExploreSnoc(start: State, steps: seq<Step>, step: Step)
    requires ExploreFrom(start, steps).Some? && Enabled(ExploreFrom(start, steps).value, step)
    ensures ExploreFrom(start, steps + [step]) == Some(Take(ExploreFrom(start, steps).value, step))
  {
    hide Enabled, Take;
    assert (steps + [step])[..|steps|] == steps;
  }

  lemma {:induction false} ExploreAppend(start: State, first: seq<Step>, more: seq<Step>)
    requires ExploreFrom(start, first).Some?
    ensures ExploreFrom(start, first + more) == ExploreFrom(ExploreFrom(start, first).value, more)
  {
    hide Enabled, Take;
    if more == [] {
      assert first + more == first;
    } else {
      var front := more[..|more| - 1];
      ExploreAppend(start, first, front);
      assert (first + more)[..|first + more| - 1] == first + front;
    }
  }

  /** Call c goes on alone: n times its next step. */
  function Alone(c: nat, n: nat): seq<Step> {
    seq(n, _ => Next(c))
  }

  /** t is s after call c has finished as the one ingest it stands for: told what that tells,
      committed what that commits, the connection free, nothing else touched. */
  ghost predicate FinishedFrom(s: State, c: nat, t: State)
    requires c < |s.calls|
  {
    var (db, out) := Ingest(s.committed, s.calls[c].r);
    t.committed == db && t.owner.None? && t.calls == s.calls[c := Call(s.calls[c].r, Done(out))] &&
    t.order == s.order + [Finished(c)]
  }

  lemma OneMoreNext(s: State, c: nat, n: nat)
    requires Enabled(s, Next(c)) && ExploreFrom(Take(s, Next(c)), Alone(c, n)).Some?
    ensures ExploreFrom(s, Alone(c, n + 1)) == ExploreFrom(Take(s, Next(c)), Alone(c, n))
  {
    hide Enabled, Take;
    assert Alone(c, n + 1) == [Next(c)] + Alone(c, n);
    assert ExploreFrom(s, []) == Some(s) && [] + [Next(c)] == [Next(c)];
    ExploreSnoc(s, [], Next(c));
    ExploreAppend(s, [Next(c)], Alone(c, n));
  }

  lemma NoneLeft(s: State, c: nat)
    ensures ExploreFrom(s, Alone(c, 0)) == Some(s)
  {}

  /** How many steps are left at most. */
  function StepsLeft(ph: Phase): nat {
    match ph
    case Begun => 4
    case Checked => 3
    case Upserted(_) => 2
    case Stored(_) => 1
    case _ => 0
  }

  /** One step of the owner finishes its call, or brings it nearer. */
  lemma NextIsNearer(s: State, c: nat)
    requires Good(s) && s.owner == Some(c) && c < |s.calls| && InTransaction(s.calls[c].phase)
    ensures var t := Take(s, Next(c));
            if t.owner.None? then FinishedFrom(s, c, t)
            else
              t.owner == s.owner && t.committed == s.committed && t.order == s.order &&
              |t.calls| == |s.calls| && t.calls == s.calls[c := t.calls[c]] && t.calls[c].r == s.calls[c].r &&
              InTransaction(t.calls[c].phase) && StepsLeft(t.calls[c].phase) < StepsLeft(s.calls[c].phase)
  {
    hide Serializable, Inv, FmtTime, Upsert, InsertReport;
    CommittedIsSound(s);
    var r := s.calls[c].r;
    IngestKeeps(s.committed, r);
    if s.calls[c].phase.Upserted? {
      UpsertKeeps(s.committed, r);
      InsertKeeps(s.work, r, s.calls[c].phase.issueId);
    }
  }

  /** An open transaction left to itself is done after at most four of its steps, whatever state
      the interleaving so far has left, and with exactly the effect of the whole ingest. */
  lemma {:induction false} TransactionFinishes(s: State, c: nat) returns (n: nat, t: State)
    requires Good(s) && s.owner == Some(c) && c < |s.calls| && InTransaction(s.calls[c].phase)
    ensures n <= StepsLeft(s.calls[c].phase) <= 4
    ensures ExploreFrom(s, Alone(c, n)) == Some(t) && FinishedFrom(s, c, t)
    decreases StepsLeft(s.calls[c].phase)
  {
    hide Good, Advance, Ingest, ExploreFrom, Alone;
    var u := Take(s, Next(c));
    NextIsNearer(s, c);
    StepKeepsGood(s, Next(c));
    if u.owner.None? {
      n, t := 1, u;
      NoneLeft(u, c);
      OneMoreNext(s, c, 0);
    } else {
      var m;
      m, t := TransactionFinishes(u, c);
      n := m + 1;
      OneMoreNext(s, c, m);
    }
  }

  /** No waiting call is ever stuck: whenever the connection is free it can begin, and at most four
      further steps of its own finish it, committed and told as one whole ingest. */
  lemma WaitingCallFinishes(s: State, c: nat) returns (n: nat, t: State)
    requires Good(s) && s.owner.None? && c < |s.calls| && s.calls[c].phase.Waiting?
    ensures n <= 4 && ExploreFrom(s, [Begin(c)] + Alone(c, n)) == Some(t)
    ensures t.owner.None? && t.committed == Ingest(s.committed, s.calls[c].r).0
    ensures t.calls == s.calls[c := Call(s.calls[c].r, Done(Ingest(s.committed, s.calls[c].r).1))]
    ensures t.order == s.order + [Finished(c)]
  {
    hide Good, Advance, Ingest, ExploreFrom, Alone;
    var u := Take(s, Begin(c));
    StepKeepsGood(s, Begin(c));
    n, t := TransactionFinishes(u, c);
    NothingExplored(s);
    ExploreSnoc(s, [], Begin(c));
    assert [] + [Begin(c)] == [Begin(c)];
    ExploreAppend(s, [Begin(c)], Alone(c, n));
  }

  lemma NothingExplored(s: State)
    ensures ExploreFrom(s, []) == Some(s)
  {}

  /** Nothing is ruled out: every serial run of operations is the run of some interleaving, with
      its tables, its order and, the interleaving being serializable, its answers. */
  lemma {:induction false} EverySerialRunHappens(ops: seq<Op>) returns (steps: seq<Step>, s: State)
    ensures Explore(steps) == Some(s) && Good(s) && s.owner.None?
    ensures Serial(s) == ops && s.committed == Run(EMPTY, ops)
  {
    hide Ingest, After, Take, Run, ExploreFrom;
    if ops == [] {
      steps, s := [], START;
      NothingExplored(START);
      StartIsGood();
      assert Serial(s) == [];
    } else {
      var front, last := ops[..|ops| - 1], ops[|ops| - 1];
      var before, u := EverySerialRunHappens(front);
      assert ops == front + [last];
      if last.IngestOp? {
        steps, s := OneMoreIngest(before, u, last.r);
      } else {
        steps, s := before + [Operate(last)], Take(u, Operate(last));
        ExploreSnoc(START, before, Operate(last));
        StepKeepsGood(u, Operate(last));
        OperateIsSerial(u, last);
      }
      GoodIsRun(s);
    }
  }

  lemma GoodIsRun(s: State)
    requires Good(s)
    ensures OrderOk(s) && s.committed == Run(EMPTY, Serial(s))
  {
    hide Run, OrderOk, Told;
  }

  lemma OperateIsSerial(s: State, op: Op)
    requires Good(s) && s.owner.None? && !op.IngestOp? && Good(Take(s, Operate(op)))
    ensures Serial(Take(s, Operate(op))) == Serial(s) + [op]
    ensures Take(s, Operate(op)).owner.None?
  {
    hide Run, After, Told, Exclusive, OrderOk;
    SerialSnoc(s, Take(s, Operate(op)), Other(op));
  }

  /** One more report arrives, begins and finishes. */
  lemma OneMoreIngest(before: seq<Step>, u: State, r: Incoming) returns (steps: seq<Step>, s: State)
    requires Explore(before) == Some(u) && Good(u) && u.owner.None?
    ensures Explore(steps) == Some(s) && Good(s) && s.owner.None?
    ensures Serial(s) == Serial(u) + [IngestOp(r)]
  {
    hide Good, Ingest, ExploreFrom, Advance, Alone, Serial;
    var v := Take(u, Arrive(r));
    StepKeepsGood(u, Arrive(r));
    ExploreSnoc(START, before, Arrive(r));
    var c := |u.calls|;
    var n;
    n, s := WaitingCallFinishes(v, c);
    steps := before + [Arrive(r)] + ([Begin(c)] + Alone(c, n));
    ExploreAppend(START, before + [Arrive(r)], [Begin(c)] + Alone(c, n));
    EveryInterleavingIsSerializable(steps);
    GoodIsRun(u);
    GoodIsRun(v);
    GoodIsRun(s);
    SameSerial(u, v);
    SerialSnoc(v, s, Finished(c));
  }

  // ---------- exactly once ----------

  /** The report is stored after the first k operations. */
  ghost predicate StoredAt(ops: seq<Op>, k: nat, id: string)
    requires k <= |ops|
  {
    id in Run(EMPTY, ops[..k]).reports
  }

  /** Operation k of the order removes the report. */
  ghost predicate RemovedBy(ops: seq<Op>, k: nat, id: string)
    requires k < |ops|
  {
    StoredAt(ops, k, id) && !StoredAt(ops, k + 1, id)
  }

  lemma RunAt(ops: seq<Op>, i: nat)
    requires i < |ops|
    ensures Run(EMPTY, ops[..i + 1]) == After(Run(EMPTY, ops[..i]), ops[i])
  {
    assert ops[..i + 1] == ops[..i] + [ops[i]];
    RunSnoc(EMPTY, ops[..i], ops[i]);
  }

  lemma InsertStores(ops: seq<Op>, i: nat, r: Incoming)
    requires i < |ops| && ops[i] == IngestOp(r) && Ingest(Run(EMPTY, ops[..i]), r).1.Inserted?
    ensures !StoredAt(ops, i, r.id) && StoredAt(ops, i + 1, r.id)
  {
    hide Run, Ingest;
    RunAt(ops, i);
    ReachableStatesAreSound(ops[..i]);
    IngestAdds(Run(EMPTY, ops[..i]), r);
  }

  lemma {:induction false} FindRemoval(ops: seq<Op>, i: nat, j: nat, id: string)
    requires i <= j <= |ops| && StoredAt(ops, i, id) && !StoredAt(ops, j, id)
    ensures exists k :: i <= k < j && RemovedBy(ops, k, id)
    decreases j - i
  {
    hide StoredAt;
    if StoredAt(ops, i + 1, id) {
      FindRemoval(ops, i + 1, j, id);
    } else {
      assert RemovedBy(ops, i, id);
    }
  }

  /** Two inserts of one id have an operation between them that removed the report. */
  lemma InsertedOnceWhileStored(ops: seq<Op>, i: nat, j: nat, r: Incoming, q: Incoming)
    requires i < j < |ops| && ops[i] == IngestOp(r) && ops[j] == IngestOp(q) && r.id == q.id
    requires Ingest(Run(EMPTY, ops[..i]), r).1.Inserted? && Ingest(Run(EMPTY, ops[..j]), q).1.Inserted?
    ensures exists k :: i < k < j && RemovedBy(ops, k, r.id)
  {
    hide Run, Ingest, StoredAt, RemovedBy;
    InsertStores(ops, i, r);
    InsertStores(ops, j, q);
    FindRemoval(ops, i + 1, j, r.id);
  }

  /** Of all calls with one report id, two can both have been told "inserted" only if the report
      was removed in between. */
  lemma ExactlyOnce(s: State, steps: seq<Step>, j: nat, k: nat)
    requires Explore(steps) == Some(s)
    requires j < k < |s.order| && s.order[j].Finished? && s.order[k].Finished?
    ensures OrderOk(s)
    ensures var a, b := s.calls[s.order[j].call], s.calls[s.order[k].call];
            a.r.id == b.r.id && a.phase.out.Inserted? && b.phase.out.Inserted? ==>
              exists m :: j < m < k && RemovedBy(Serial(s), m, a.r.id)
  {
    hide Ingest, Run, RemovedBy;
    EveryInterleavingIsSerializable(steps);
    var a, b := s.calls[s.order[j].call], s.calls[s.order[k].call];
    if a.r.id == b.r.id && a.phase.out.Inserted? && b.phase.out.Inserted? {
      InsertedOnceWhileStored(Serial(s), j, k, a.r, b.r);
    }
  }
}
