// Completing an I2C request exactly once (rp1-i2c/driver.c): the worker and the
// cancel routine may each be the last to leave, and the last one completes it.
module I2cHandshake {
  // The framework's record of the request: once it is marked, and until the
  // worker takes the mark back, the framework may call the cancel routine. It may
  // also refuse to mark it at all.
  datatype Mark = Unmarked | Marked | Fired | TakenBack

  datatype Canceller = Absent | Called | Noted | CancelGone
  datatype Worker = Starting | Busy | Published | Refused | WorkerGone

  datatype State = State(mark: Mark, cancel: Canceller, worker: Worker,
                         cancelled: bool, cancelBit: bool, workerBit: bool, completions: nat)

  datatype Step = Enter(granted: bool) | Fire | Note | LeaveCancel | Publish | Unmark | LeaveWorker

  const START: State := State(Unmarked, Absent, Starting, false, false, false, 0)

  predicate Possible(s: State, step: Step) {
    match step
    case Enter(_) => s.mark == Unmarked
    case Fire => s.mark == Marked
    case Note => s.cancel == Called
    case LeaveCancel => s.cancel == Noted
    case Publish => s.worker == Busy
    case Unmark => s.worker == Published
    case LeaveWorker => s.worker == Refused
  }

  function Completed(s: State): State {
    s.(completions := s.completions + 1)
  }

  function Apply(s: State, step: Step): State
    requires Possible(s, step)
  {
    match step
    // WdfRequestMarkCancelableEx: a request that cannot be marked is completed on
    // the spot, and its worker never runs.
    case Enter(granted) =>
      if granted then s.(mark := Marked, worker := Busy) else Completed(s.(mark := TakenBack, worker := WorkerGone))
    // The framework takes the request for cancelling, and calls I2cCancel.
    case Fire => s.(mark := Fired, cancel := Called)
    case Note => s.(cancel := Noted, cancelled := true)
    // InterlockedOr(&Completion, 1) & 2
    case LeaveCancel =>
      var r := s.(cancel := CancelGone, cancelBit := true);
      if s.workerBit then Completed(r) else r
    // The hardware is left alone, the result is in place.
    case Publish => s.(worker := Published)
    case Unmark =>
      if s.mark == Marked then Completed(s.(mark := TakenBack, worker := WorkerGone))
      else s.(worker := Refused)
    // InterlockedOr(&Completion, 2) & 1
    case LeaveWorker =>
      var r := s.(worker := WorkerGone, workerBit := true);
      if s.cancelBit then Completed(r) else r
  }

  predicate Over(s: State) {
    s.worker == WorkerGone && (s.cancel == Absent || s.cancel == CancelGone)
  }

  ghost predicate Inv(s: State) {
    && (s.mark == Unmarked <==> s.worker == Starting)
    && (s.cancel == Absent <==> s.mark != Fired)
    && (s.cancelBit <==> s.cancel == CancelGone)
    && (s.workerBit <==> s.worker == WorkerGone && s.mark == Fired)
    && (s.worker == Refused ==> s.mark == Fired)
    && (s.mark == TakenBack ==> s.worker == WorkerGone)
    && (s.worker == WorkerGone ==> s.mark != Marked)
    && s.completions == if Over(s) then 1 else 0
  }

  lemma InvStep(s: State, step: Step)
    requires Inv(s) && Possible(s, step)
    ensures Inv(Apply(s, step))
  {
  }

  ghost predicate Run(states: seq<State>, steps: seq<Step>) {
    && |states| == |steps| + 1 && states[0] == START
    && forall i :: 0 <= i < |steps| ==> Possible(states[i], steps[i]) && states[i + 1] == Apply(states[i], steps[i])
  }

  lemma {:induction false} RunInv(states: seq<State>, steps: seq<Step>, i: nat)
    requires Run(states, steps) && i < |states|
    ensures Inv(states[i])
  {
    if i > 0 {
      RunInv(states, steps, i - 1);
      InvStep(states[i - 1], steps[i - 1]);
      assert states[(i - 1) + 1] == Apply(states[i - 1], steps[i - 1]);
    }
  }

  // In every interleaving the request is completed at most once, and only when
  // neither side will touch it again; and as long as it is not completed,
  // somebody still has a step to take.
  lemma CompletedOnceAtTheEnd(states: seq<State>, steps: seq<Step>, i: nat)
    requires Run(states, steps) && i < |states|
    ensures states[i].completions <= 1
    ensures states[i].completions == 1 <==> Over(states[i])
    ensures states[i].completions == 1 ==> forall step :: !Possible(states[i], step)
    ensures states[i].completions == 0 ==> exists step :: Possible(states[i], step)
  {
    RunInv(states, steps, i);
    var s := states[i];
    if s.completions == 0 {
      var step := match s.worker
        case Starting => Enter(true)
        case Busy => Publish
        case Published => Unmark
        case Refused => LeaveWorker
        case WorkerGone => if s.cancel == Called then Note else LeaveCancel;
      assert Possible(s, step);
    }
  }

  // Each run ends: no step can be taken twice.
  function Left(s: State): nat {
    (match s.worker case Starting => 7 case Busy => 3 case Published => 2 case Refused => 1 case WorkerGone => 0)
    + (match s.cancel case Absent => (if s.mark == Marked then 3 else 0) case Called => 2 case Noted => 1 case CancelGone => 0)
  }

  lemma StepsRunOut(s: State, step: Step)
    requires Inv(s) && Possible(s, step)
    ensures Left(Apply(s, step)) < Left(s)
  {
  }
}
