/**
 * The pollable slot through which the storage handler reports completion
 * of an asynchronous call (include/versiondb/request/handler-result.h).
 * The flag transitions are functions on Flags; the class and the
 * operation nodes of the execution both move their flags with them.
 */
module HandlerResults {
  /** is_finished_ and is_error_. */
  datatype Flags = Flags(finished: bool, error: bool)

  /** Reset(): both flags cleared. */
  function ResetFlags(): (g: Flags)
    ensures !g.finished && !g.error
  {
    Flags(false, false)
  }

  /** SetFinished(): the call is finished; the error flag is kept. */
  function SetFinishedFlags(f: Flags): (g: Flags)
    ensures g.finished && g.error == f.error
  {
    f.(finished := true)
  }

  /** SetError(): the call failed, which also finishes it. */
  function SetErrorFlags(f: Flags): (g: Flags)
    ensures g.finished && g.error
  {
    SetFinishedFlags(f.(error := true))
  }

  /** The three mutators, for reasoning about any sequence of them. */
  datatype Action = ResetAction | FinishAction | ErrorAction

  function Apply(f: Flags, a: Action): Flags {
    match a
    case ResetAction => ResetFlags()
    case FinishAction => SetFinishedFlags(f)
    case ErrorAction => SetErrorFlags(f)
  }

  function ApplyAll(f: Flags, actions: seq<Action>): Flags
    decreases |actions|
  {
    if |actions| == 0 then f else ApplyAll(Apply(f, actions[0]), actions[1..])
  }

  /** An error is only ever reported on a finished call. */
  predicate Consistent(f: Flags) {
    f.error ==> f.finished
  }

  /**
   * After a Reset, whatever sequence of SetFinished, SetError and Reset
   * follows, IsError implies IsFinished; and IsError holds only if SetError
   * was called since the last Reset.
   */
  lemma {:induction false} ConsistentAfterReset(f: Flags, actions: seq<Action>)
    requires Consistent(f)
    ensures Consistent(ApplyAll(f, actions))
    ensures ApplyAll(f, actions).error && !f.error ==> ErrorAction in actions
    decreases |actions|
  {
    if |actions| > 0 {
      ConsistentAfterReset(Apply(f, actions[0]), actions[1..]);
      if ApplyAll(f, actions).error && !f.error && actions[0] != ErrorAction {
        assert !Apply(f, actions[0]).error;
        assert ErrorAction in actions[1..];
      }
    }
  }

  /** HandlerResult<T>: a result value written by the handler plus the two flags and a reference count. */
  class HandlerResult<T> {
    var result: T
    var isFinished: bool
    var isError: bool
    var refCnt: int

    /** The flags the class currently holds. */
    function State(): Flags
      reads this
    {
      Flags(isFinished, isError)
    }

    /** The default constructor leaves every member indeterminate: the initial values are the caller's. */
    constructor(initial: T, finished: bool, error: bool, count: int)
      ensures result == initial && isFinished == finished && isError == error && refCnt == count
    {
      result := initial;
      isFinished := finished;
      isError := error;
      refCnt := count;
    }

    method SetFinished()
      modifies this
      ensures State() == SetFinishedFlags(old(State()))
      ensures result == old(result) && refCnt == old(refCnt)
    {
      isFinished := true;
    }

    method SetError()
      modifies this
      ensures State() == SetErrorFlags(old(State()))
      ensures result == old(result) && refCnt == old(refCnt)
    {
      isError := true;
      SetFinished();
    }

    /** Reset(): clears both flags; the result value and the reference count are left as they were. */
    method Reset()
      modifies this
      ensures State() == ResetFlags()
      ensures result == old(result) && refCnt == old(refCnt)
    {
      isFinished := false;
      isError := false;
    }
  }
}
