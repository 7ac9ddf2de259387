/** Submitting, polling and waiting for jobs. What the accelerator and the host engine answer is not
    determined here: every answer is a parameter of the call that receives it. */
module JobProtocol {
  datatype Path = Auto | Hardware | Software | Pool

  datatype Operation = Decompress | Compress | Crc64 | Extract | Select | Expand | Scan

  datatype Status =
    | Ok
    | BeingProcessed
    | MoreOutputNeeded
    | NotSubmitted
    | UnsupportedLevel
    | NullPointer
    | Failed(code: nat)

  /** What an engine reports when it is done. The host engine always is. */
  type Final = s: Status | s != BeingProcessed witness Ok

  /** The fields of a job that the caller sets before a submission. */
  datatype Request = Request(
    op: Operation, highLevel: bool, first: bool, last: bool,
    cannedWithoutTable: bool,
    noHeaders: bool, bigEndianHuffman: bool, ignoreEndBits: nat, secondGeneration: bool,
    numaId: int, indexed: bool)

  predicate IsFilter(r: Request) {
    r.op.Scan? || r.op.Extract? || r.op.Select? || r.op.Expand?
  }

  predicate IsSingle(r: Request) {
    (r.first && r.last) || IsFilter(r) || r.op.Crc64?
  }

  predicate IsHighLevelCompression(r: Request) {
    r.op.Compress? && r.highLevel
  }

  predicate MayFallBack(path: Path, r: Request) {
    path.Auto? && (r.first || IsSingle(r))
  }

  predicate MayFallBackAfter(path: Path, r: Request, s: Status) {
    s != MoreOutputNeeded && MayFallBack(path, r)
  }

  /** Huffman-only big-endian decompression with more than seven ignored end bits needs a second
      generation accelerator or the host. */
  predicate NeedsHost(path: Path, r: Request) {
    && MayFallBack(path, r)
    && r.op.Decompress? && r.noHeaders && r.bigEndianHuffman
    && r.ignoreEndBits > 7 && !r.secondGeneration
  }

  datatype Event =
    | HwSubmitted(s: Status)
    | HwPolled(s: Status)
    | HwPerformed(s: Status)
    | SwExecuted(s: Status)

  /** A job, and what the engines have done for it so far. */
  datatype State = State(path: Path, request: Request, fallback: bool, status: Status, trace: seq<Event>) {
    function Then(e: Event): State {
      this.(trace := trace + [e])
    }
  }

  datatype Outcome = Outcome(state: State, result: Status)

  /** Answers met by a submission: whether the accelerator initialised, what it said to the descriptor and
      whether preparing it reset the job, and what the host engine returned. */
  datatype SubmitAnswers = SubmitAnswers(init: Status, hw: Status, resets: bool, sw: Final)

  /** The fallback flag when the engine is chosen. */
  predicate Latched(st: State, r: Request) {
    || (st.fallback && !r.first)
    || (IsHighLevelCompression(r) && st.path.Auto?)
    || NeedsHost(st.path, r)
  }

  function RunOnHost(st: State, sw: Final): Outcome {
    var ran := st.Then(SwExecuted(sw));
    Outcome(if sw == Ok && st.path.Auto? then ran.(status := BeingProcessed) else ran, sw)
  }

  function Submit(st0: State, r: Request, a: SubmitAnswers): Outcome {
    var st := st0.(request := r);
    if r.cannedWithoutTable then
      Outcome(st, NullPointer)
    else if st.path.Software? then
      RunOnHost(st, a.sw)
    else if IsHighLevelCompression(r) && st.path.Hardware? then
      Outcome(st.(fallback := st.fallback && !r.first), UnsupportedLevel)
    else if Latched(st, r) then
      RunOnHost(st.(fallback := true), a.sw)
    else
      var o := TrySubmit(st.(fallback := false), a);
      if o.state.fallback then RunOnHost(o.state, a.sw) else o
  }

  /** The accelerator's part of a submission; it ends with the flag set when the host is to take over. */
  function TrySubmit(st: State, a: SubmitAnswers): Outcome {
    var reached := st.path.Pool? || a.init == Ok;
    var status := if reached then a.hw else a.init;
    var tried := if reached then st.Then(HwSubmitted(a.hw)) else st;
    var stored := if status == Ok then BeingProcessed else if reached && a.resets then NotSubmitted else st.status;
    Outcome(tried.(status := stored, fallback := status != Ok && MayFallBackAfter(st.path, st.request, status)), status)
  }

  /** Whether a check or wait returns at once. */
  predicate Settled(st: State) {
    st.path.Software? || (st.path.Auto? && st.fallback) || st.status != BeingProcessed
  }

  function SettledResult(st: State): Status {
    if st.path.Software? || (st.path.Auto? && st.fallback) then Ok else st.status
  }

  /** The accelerator has reported: fall back, or store what it said. */
  function Conclude(st: State, hw: Final, sw: Final): Outcome {
    if hw != Ok && MayFallBackAfter(st.path, st.request, hw) then
      Outcome(st.Then(SwExecuted(sw)).(fallback := true, status := sw), sw)
    else
      Outcome(st.(status := hw), hw)
  }

  function Check(st: State, hw: Status, sw: Final): Outcome {
    if Settled(st) then
      Outcome(st, SettledResult(st))
    else if IsHighLevelCompression(st.request) then
      Conclude(st, Ok, sw)
    else if hw == BeingProcessed then
      Outcome(st.Then(HwPolled(hw)), hw)
    else
      Conclude(st.Then(HwPolled(hw)), hw, sw)
  }

  /** The polls of a wait: `pending` unfinished ones, then the last. */
  function Polled(st: State, pending: nat, hw: Final): State
    decreases pending
  {
    if pending == 0 then st.Then(HwPolled(hw)) else Polled(st.Then(HwPolled(BeingProcessed)), pending - 1, hw)
  }

  function Wait(st: State, pending: nat, hw: Final, sw: Final): Outcome {
    if Settled(st) then
      Outcome(st, SettledResult(st))
    else if IsHighLevelCompression(st.request) then
      Conclude(st, Ok, sw)
    else
      Conclude(Polled(st, pending, hw), hw, sw)
  }

  /** Jobs that the synchronous call sends through submission and waiting. */
  predicate IsLegacy(r: Request) {
    || -107 <= r.numaId <= -100
    || r.op.Crc64?
    || (r.op.Compress? && r.indexed && !IsSingle(r))
  }

  datatype ExecuteAnswers = ExecuteAnswers(
    init: Status, hw: Status, resets: bool, pending: nat, polled: Final, inWait: Final, performed: Status, sw: Final)

  /** The synchronous call. */
  function Execute(st0: State, r: Request, a: ExecuteAnswers): Outcome {
    var st := st0.(request := r);
    if r.cannedWithoutTable then
      Outcome(st, NullPointer)
    else if st.path.Software? then
      RunOnHost(st, a.sw)
    else if IsHighLevelCompression(r) && st.path.Hardware? then
      Outcome(st.(fallback := st.fallback && !r.first), UnsupportedLevel)
    else if Latched(st, r) then
      RunOnHost(st.(fallback := true), a.sw)
    else
      var o := TryExecute(st.(fallback := false), a);
      var fallsBack := o.result != Ok && MayFallBackAfter(st.path, r, o.result);
      var after := o.state.(fallback := o.state.fallback || fallsBack);
      if after.fallback then RunOnHost(after, a.sw) else Outcome(after, o.result)
  }

  function TryExecute(st: State, a: ExecuteAnswers): Outcome {
    if !st.path.Pool? && a.init != Ok then
      Outcome(st, a.init)
    else if !IsLegacy(st.request) then
      Outcome(st.Then(HwPerformed(a.performed)), a.performed)
    else if a.hw != Ok then
      var tried := st.Then(HwSubmitted(a.hw));
      Outcome(if a.resets then tried.(status := NotSubmitted) else tried, a.hw)
    else
      Wait(st.Then(HwSubmitted(Ok)).(status := BeingProcessed), a.pending, a.polled, a.inWait)
  }

  lemma {:induction false} PolledKeeps(st: State, pending: nat, hw: Final)
    ensures var p := Polled(st, pending, hw); p == st.(trace := p.trace)
    decreases pending
  {
    if pending > 0 { PolledKeeps(st.Then(HwPolled(BeingProcessed)), pending - 1, hw); }
  }

  lemma TryExecuteKeeps(st: State, a: ExecuteAnswers)
    ensures var o := TryExecute(st, a); o.state.path == st.path && o.state.request == st.request
  {
    hide Polled;
    PolledKeeps(st.Then(HwSubmitted(Ok)).(status := BeingProcessed), a.pending, a.polled);
  }

  // ----- the calls themselves -----

  class Job {
    var path: Path
    var request: Request
    var isSwFallback: bool
    var asyncStatus: Status
    ghost var trace: seq<Event>

    ghost function Current(): State
      reads this
    {
      State(path, request, isSwFallback, asyncStatus, trace)
    }

    constructor (path: Path, request: Request)
      ensures Current() == State(path, request, false, NotSubmitted, [])
    {
      this.path, this.request := path, request;
      isSwFallback, asyncStatus, trace := false, NotSubmitted, [];
    }

    /** The host engine runs with the job switched to the software path. */
    method SwExecuteJob(answer: Final) returns (status: Status)
      requires path.Software?
      modifies this`trace
      ensures status == answer && trace == old(trace) + [SwExecuted(answer)]
    {
      status := answer;
      trace := trace + [SwExecuted(answer)];
    }

    method HwSubmitJob(answer: Status, resets: bool) returns (status: Status)
      modifies this`asyncStatus, this`trace
      ensures status == answer && trace == old(trace) + [HwSubmitted(answer)]
      ensures asyncStatus == if resets then NotSubmitted else old(asyncStatus)
    {
      if resets { asyncStatus := NotSubmitted; }
      status := answer;
      trace := trace + [HwSubmitted(answer)];
    }

    method HwCheckJob(answer: Status) returns (status: Status)
      modifies this`trace
      ensures status == answer && trace == old(trace) + [HwPolled(answer)]
    {
      status := answer;
      trace := trace + [HwPolled(answer)];
    }

    /** A run of the host engine leaves the job on the path it was on. */
    method RunHostEngine(answer: Final) returns (status: Status)
      modifies this`path, this`trace
      ensures status == answer && trace == old(trace) + [SwExecuted(answer)] && path == old(path)
    {
      var saved := path;
      path := Software;
      status := SwExecuteJob(answer);
      path := saved;
    }

    /** The host engine takes over a job for good. */
    method TakeOver(answer: Final) returns (status: Status)
      modifies this`path, this`asyncStatus, this`trace
      ensures Outcome(Current(), status) == RunOnHost(old(Current()), answer)
    {
      status := RunHostEngine(answer);
      if status == Ok && path.Auto? { asyncStatus := BeingProcessed; }
    }

    /** The accelerator's part of a submission. */
    method TrySubmitJob(a: SubmitAnswers) returns (status: Status)
      requires !path.Software? && !isSwFallback
      modifies this`isSwFallback, this`asyncStatus, this`trace
      ensures Outcome(Current(), status) == TrySubmit(old(Current()), a)
    {
      status := Ok;
      if !path.Pool? && a.init != Ok { status := a.init; }
      if status == Ok {
        status := HwSubmitJob(a.hw, a.resets);
        if status == Ok { asyncStatus := BeingProcessed; }
      }
      if status != Ok && !path.Pool? && MayFallBackAfter(path, request, status) { isSwFallback := true; }
    }

    method SubmitJob(a: SubmitAnswers) returns (status: Status)
      modifies this`path, this`isSwFallback, this`asyncStatus, this`trace
      ensures Outcome(Current(), status) == Submit(old(Current()), request, a)
    {
      hide TrySubmit, NeedsHost, RunOnHost;
      if request.cannedWithoutTable { return NullPointer; }
      status := Ok;
      var fallback := false;
      if path.Hardware? || path.Auto? || path.Pool? {
        if request.first { isSwFallback := false; }
        if request.op.Compress? && request.highLevel {
          if path.Hardware? {
            return UnsupportedLevel;
          } else if path.Auto? {
            isSwFallback := true;
          }
        }
        if NeedsHost(path, request) { isSwFallback := true; }
        if !isSwFallback {
          status := TrySubmitJob(a);
          if !isSwFallback { return; }
        }
        fallback := isSwFallback;
      }
      if path.Software? || fallback {
        status := TakeOver(a.sw);
      }
    }

    /** What check and wait do once the accelerator has reported `hw`. */
    method ConcludeJob(hw: Final, sw: Final) returns (status: Status)
      modifies this`path, this`isSwFallback, this`asyncStatus, this`trace
      ensures Outcome(Current(), status) == Conclude(old(Current()), hw, sw)
    {
      status := hw;
      if status != Ok && !path.Pool? && MayFallBackAfter(path, request, status) {
        isSwFallback := true;
        status := RunHostEngine(sw);
      }
      asyncStatus := status;
    }

    method CheckJob(hw: Status, sw: Final) returns (status: Status)
      modifies this`path, this`isSwFallback, this`asyncStatus, this`trace
      ensures Outcome(Current(), status) == Check(old(Current()), hw, sw)
    {
      hide Conclude;
      status := Ok;
      if path.Software? || (path.Auto? && isSwFallback) { return Ok; }
      if asyncStatus != BeingProcessed { return asyncStatus; }
      if !IsHighLevelCompression(request) { status := HwCheckJob(hw); }
      if status == BeingProcessed { return status; }
      status := ConcludeJob(status, sw);
    }

    /** The polling loop of a wait. */
    method PollJob(pending: nat, hw: Final) returns (status: Status)
      modifies this`trace
      ensures status == hw && Current() == Polled(old(Current()), pending, hw)
    {
      var left := pending;
      status := HwCheckJob(if left > 0 then BeingProcessed else hw);
      while status == BeingProcessed
        invariant left <= pending && status == if left > 0 then BeingProcessed else hw
        invariant (if left > 0 then Polled(Current(), left - 1, hw) else Current())
               == Polled(old(Current()), pending, hw)
        decreases left
      {
        left := left - 1;
        status := HwCheckJob(if left > 0 then BeingProcessed else hw);
      }
    }

    method WaitJob(pending: nat, hw: Final, sw: Final) returns (status: Status)
      modifies this`path, this`isSwFallback, this`asyncStatus, this`trace
      ensures Outcome(Current(), status) == Wait(old(Current()), pending, hw, sw)
    {
      hide Conclude, Polled;
      status := Ok;
      if path.Software? || (path.Auto? && isSwFallback) { return Ok; }
      if asyncStatus != BeingProcessed { return asyncStatus; }
      if !IsHighLevelCompression(request) { status := PollJob(pending, hw); }
      status := ConcludeJob(status, sw);
    }

    /** The part of the synchronous call that uses the accelerator. */
    method TryExecuteJob(a: ExecuteAnswers) returns (status: Status)
      requires !path.Software? && !isSwFallback
      modifies this`path, this`isSwFallback, this`asyncStatus, this`trace
      ensures Outcome(Current(), status) == TryExecute(old(Current()), a)
    {
      hide Wait, IsLegacy;
      status := Ok;
      if !path.Pool? && a.init != Ok { status := a.init; }
      if status == Ok {
        if !IsLegacy(request) {
          status := a.performed;
          trace := trace + [HwPerformed(a.performed)];
        } else {
          status := HwSubmitJob(a.hw, a.resets);
          if status == Ok {
            asyncStatus := BeingProcessed;
            status := WaitJob(a.pending, a.polled, a.inWait);
          }
        }
      }
    }

    method ExecuteJob(a: ExecuteAnswers) returns (status: Status)
      modifies this`path, this`isSwFallback, this`asyncStatus, this`trace
      ensures Outcome(Current(), status) == Execute(old(Current()), request, a)
    {
      hide TryExecute, IsSingle, RunOnHost;
      if request.cannedWithoutTable { return NullPointer; }
      if path.Software? {
        status := TakeOver(a.sw);
        return;
      }
      status := Ok;
      if request.first { isSwFallback := false; }
      if NeedsHost(path, request) { isSwFallback := true; }
      if request.op.Compress? && request.highLevel {
        if path.Hardware? {
          return UnsupportedLevel;
        } else if path.Auto? {
          isSwFallback := true;
        }
      }
      if !isSwFallback {
        TryExecuteKeeps(Current(), a);
        status := TryExecuteJob(a);
        if status != Ok && !path.Pool? && MayFallBackAfter(path, request, status) { isSwFallback := true; }
      }
      if isSwFallback {
        status := TakeOver(a.sw);
      }
    }
  }
}
