/** What holds over whole runs of the job calls, whatever the engines answer. */
module JobRuns {
  import opened JobProtocol

  datatype Call =
    | SubmitCall(r: Request, s: SubmitAnswers)
    | CheckCall(hw: Status, sw: Final)
    | WaitCall(pending: nat, final: Final, sw: Final)
    | ExecuteCall(r: Request, e: ExecuteAnswers)

  function Step(st: State, c: Call): Outcome {
    match c
    case SubmitCall(r, s) => Submit(st, r, s)
    case CheckCall(hw, sw) => Check(st, hw, sw)
    case WaitCall(pending, final, sw) => Wait(st, pending, final, sw)
    case ExecuteCall(r, e) => Execute(st, r, e)
  }

  /** The job after a sequence of calls. */
  function Run(st: State, calls: seq<Call>): State {
    if calls == [] then st else Step(Run(st, calls[..|calls| - 1]), calls[|calls| - 1]).state
  }

  predicate Polling(c: Call) {
    c.CheckCall? || c.WaitCall?
  }

  predicate AllPolling(calls: seq<Call>) {
    forall i :: 0 <= i < |calls| ==> Polling(calls[i])
  }

  /** How often the host engine ran. */
  function HostRuns(trace: seq<Event>): nat {
    if trace == [] then 0 else HostRuns(trace[..|trace| - 1]) + (if trace[|trace| - 1].SwExecuted? then 1 else 0)
  }

  /** How often the accelerator reported that a job is complete. */
  function HwCompletions(trace: seq<Event>): nat {
    if trace == [] then 0
    else
      var e := trace[|trace| - 1];
      HwCompletions(trace[..|trace| - 1]) + (if (e.HwPolled? || e.HwPerformed?) && e.s == Ok then 1 else 0)
  }

  /** How often the host engine completed a job. */
  function HostCompletions(trace: seq<Event>): nat {
    if trace == [] then 0
    else HostCompletions(trace[..|trace| - 1]) + (if trace[|trace| - 1] == SwExecuted(Ok) then 1 else 0)
  }

  function Completions(trace: seq<Event>): nat {
    HwCompletions(trace) + HostCompletions(trace)
  }

  lemma CountNext(st: State, e: Event)
    ensures var t, u := st.trace, st.Then(e).trace;
        && HostRuns(u) == HostRuns(t) + (if e.SwExecuted? then 1 else 0)
        && HwCompletions(u) == HwCompletions(t) + (if (e.HwPolled? || e.HwPerformed?) && e.s == Ok then 1 else 0)
        && HostCompletions(u) == HostCompletions(t) + (if e == SwExecuted(Ok) then 1 else 0)
  {
    assert st.Then(e).trace[..|st.trace|] == st.trace;
  }

  /** Polling runs nothing on the host and completes at most the last time. */
  lemma {:induction false} PolledCounts(st: State, pending: nat, hw: Final)
    ensures var p := Polled(st, pending, hw);
        && p == st.(trace := p.trace)
        && HostRuns(p.trace) == HostRuns(st.trace)
        && HostCompletions(p.trace) == HostCompletions(st.trace)
        && HwCompletions(p.trace) == HwCompletions(st.trace) + (if hw == Ok then 1 else 0)
    decreases pending
  {
    hide HostRuns, HwCompletions, HostCompletions;
    PolledKeeps(st, pending, hw);
    if pending == 0 {
      CountNext(st, HwPolled(hw));
    } else {
      CountNext(st, HwPolled(BeingProcessed));
      PolledCounts(st.Then(HwPolled(BeingProcessed)), pending - 1, hw);
    }
  }

  /** A check or wait of a job that is in progress in hardware: what the accelerator finally said, if it did. */
  datatype Poll = Poll(reported: bool, hw: Status, sw: Final)

  function PollOf(st: State, c: Call): Poll
    requires Polling(c)
  {
    if IsHighLevelCompression(st.request) then Poll(true, Ok, c.sw)
    else if c.WaitCall? then Poll(true, c.final, c.sw)
    else Poll(c.hw != BeingProcessed, c.hw, c.sw)
  }

  /** All that check and wait do: answer at once, go on waiting, or conclude; and what it adds to the counts. */
  lemma PollingStep(st: State, c: Call)
    requires Polling(c)
    ensures var o, p, t := Step(st, c), PollOf(st, c), st.trace;
        var u := o.state.trace;
        var fallsBack := p.hw != Ok && MayFallBackAfter(st.path, st.request, p.hw);
        if Settled(st) then
          o == Outcome(st, SettledResult(st))
        else if !p.reported then
          && o.result == BeingProcessed && o.state == st.(trace := u)
          && HostRuns(u) == HostRuns(t)
          && HwCompletions(u) == HwCompletions(t) && HostCompletions(u) == HostCompletions(t)
        else if fallsBack then
          && o.result == p.sw && o.state == st.(fallback := true, status := p.sw, trace := u)
          && HostRuns(u) == HostRuns(t) + 1 && HwCompletions(u) == HwCompletions(t)
          && HostCompletions(u) == HostCompletions(t) + (if p.sw == Ok then 1 else 0)
        else
          && o.result == p.hw && o.state == st.(status := p.hw, trace := u)
          && HostRuns(u) == HostRuns(t) && HostCompletions(u) == HostCompletions(t)
          && HwCompletions(u) == HwCompletions(t)
               + (if p.hw == Ok && !IsHighLevelCompression(st.request) then 1 else 0)
  {
    hide HostRuns, HwCompletions, HostCompletions, Polled, MayFallBackAfter;
    if !Settled(st) && !IsHighLevelCompression(st.request) {
      var polled: State;
      if c.CheckCall? {
        polled := st.Then(HwPolled(c.hw));
        CountNext(st, HwPolled(c.hw));
      } else {
        polled := Polled(st, c.pending, c.final);
        PolledCounts(st, c.pending, c.final);
      }
      CountNext(polled, SwExecuted(c.sw));
    }
  }

  /** Only jobs on the auto path ever have the flag set; every run keeps this. */
  predicate Sound(st: State) {
    st.fallback ==> st.path.Auto?
  }

  /** The host has this job: nothing more will be done for it. */
  predicate OnHost(st: State) {
    st.path.Software? || (st.path.Auto? && st.fallback)
  }

  /** A submission runs the host engine once if the job ends up on the host, and otherwise leaves it to the
      accelerator. */
  lemma SubmitStep(st: State, r: Request, a: SubmitAnswers)
    requires Sound(st)
    ensures var o := Submit(st, r, a);
        var t, u := st.trace, o.state.trace;
        && Sound(o.state) && o.state.path == st.path && o.state.request == r
        && HwCompletions(u) == HwCompletions(t)
        && (if OnHost(o.state) && !r.cannedWithoutTable then
              && HostRuns(u) == HostRuns(t) + 1
              && HostCompletions(u) == HostCompletions(t) + (if o.result == Ok then 1 else 0)
            else
              && HostRuns(u) == HostRuns(t) && HostCompletions(u) == HostCompletions(t)
              && (o.result == Ok ==> o.state.status == BeingProcessed && !OnHost(o.state)))
  {
    hide HostRuns, HwCompletions, HostCompletions, NeedsHost, MayFallBack;
    NeedsHostIsAuto(st.path, r);
    var held := st.(request := r);
    CountNext(held.(fallback := true), SwExecuted(a.sw));
    CountNext(held, SwExecuted(a.sw));
    var tried := TrySubmit(held.(fallback := false), a).state;
    CountNext(held, HwSubmitted(a.hw));
    CountNext(tried, SwExecuted(a.sw));
  }

  lemma NeedsHostIsAuto(path: Path, r: Request)
    ensures NeedsHost(path, r) ==> path.Auto?
    ensures forall s :: MayFallBackAfter(path, r, s) ==> path.Auto?
  {
  }

  /** A check or wait runs the host engine exactly when the accelerator has just failed with an error other than a full
      output buffer, the job is on the auto path, and it is the first chunk of its stream or a single job. */
  lemma FallbackCause(st: State, c: Call)
    requires Polling(c)
    ensures HostRuns(Step(st, c).state.trace) > HostRuns(st.trace) <==>
        && !Settled(st) && PollOf(st, c).reported && PollOf(st, c).hw !in {Ok, MoreOutputNeeded}
        && st.path.Auto? && (st.request.first || IsSingle(st.request))
  {
    hide HostRuns, HwCompletions, HostCompletions, Step, IsSingle;
    PollingStep(st, c);
  }

  /** No call changes the path of a job, and only on the auto path is the flag ever set. */
  lemma {:induction false} RunsAreSound(st: State, calls: seq<Call>)
    requires Sound(st)
    ensures Sound(Run(st, calls)) && Run(st, calls).path == st.path
    decreases |calls|
  {
    hide Step;
    if calls != [] {
      var front, last := calls[..|calls| - 1], calls[|calls| - 1];
      RunsAreSound(st, front);
      SoundStep(Run(st, front), last);
    }
  }

  lemma SoundStep(st: State, c: Call)
    requires Sound(st)
    ensures Sound(Step(st, c).state) && Step(st, c).state.path == st.path
  {
    hide HostRuns, HwCompletions, HostCompletions, Submit, Check, Wait, NeedsHost, IsSingle, IsLegacy;
    match c
    case SubmitCall(r, a) => SubmitStep(st, r, a);
    case CheckCall(_, _) => PollingStep(st, c);
    case WaitCall(_, _, _) => PollingStep(st, c);
    case ExecuteCall(r, a) =>
      NeedsHostIsAuto(st.path, r);
      var waiting := st.(request := r, fallback := false).Then(HwSubmitted(Ok)).(status := BeingProcessed);
      PollingStep(waiting, WaitCall(a.pending, a.polled, a.inWait));
  }

  // ----- at most one run of the host engine -----

  lemma {:induction false} PollingKeepsOneHostRun(st: State, calls: seq<Call>, n: nat)
    requires AllPolling(calls)
    requires HostRuns(st.trace) <= n || (HostRuns(st.trace) <= n + 1 && OnHost(st))
    ensures var s := Run(st, calls); HostRuns(s.trace) <= n || (HostRuns(s.trace) <= n + 1 && OnHost(s))
    decreases |calls|
  {
    hide HostRuns, Step;
    if calls != [] {
      var front, last := calls[..|calls| - 1], calls[|calls| - 1];
      PollingKeepsOneHostRun(st, front, n);
      PollingStep(Run(st, front), last);
    }
  }

  /** However often a submitted job is checked and waited for, the host engine runs at most once for it. */
  lemma AtMostOneHostRun(st: State, r: Request, a: SubmitAnswers, calls: seq<Call>)
    requires Sound(st) && AllPolling(calls)
    ensures HostRuns(Run(Submit(st, r, a).state, calls).trace) <= HostRuns(st.trace) + 1
  {
    hide HostRuns, Submit, Run;
    SubmitStep(st, r, a);
    PollingKeepsOneHostRun(Submit(st, r, a).state, calls, HostRuns(st.trace));
  }

  // ----- the first result -----

  /** Every one of the calls answers that the job is being processed. */
  predicate Unfinished(st: State, calls: seq<Call>)
    decreases |calls|
  {
    calls == [] ||
    var front := calls[..|calls| - 1];
    Unfinished(st, front) && Step(Run(st, front), calls[|calls| - 1]).result == BeingProcessed
  }

  /** An unfinished job stays as it was: on the accelerator, with nothing completed. */
  lemma {:induction false} UnfinishedWaits(st: State, calls: seq<Call>)
    requires AllPolling(calls) && Unfinished(st, calls) && calls != []
    ensures var s := Run(st, calls);
        && !Settled(st) && s == st.(trace := s.trace) && Completions(s.trace) == Completions(st.trace)
    decreases |calls|
  {
    hide HostRuns, HwCompletions, HostCompletions, Step;
    var front, last := calls[..|calls| - 1], calls[|calls| - 1];
    if front != [] { UnfinishedWaits(st, front); }
    PollingStep(Run(st, front), last);
  }

  /** After a submission that returned OK, the first answer other than "being processed" is OK exactly when
      exactly one engine completed the job, and no more than one ever does. The exception is high-level compression
      on the pool path, which is reported complete without asking the accelerator. */
  lemma FirstResult(st: State, r: Request, a: SubmitAnswers, calls: seq<Call>, last: Call)
    requires Sound(st) && Submit(st, r, a).result == Ok
    requires AllPolling(calls) && Unfinished(Submit(st, r, a).state, calls) && Polling(last)
    requires Step(Run(Submit(st, r, a).state, calls), last).result != BeingProcessed
    ensures var o := Step(Run(Submit(st, r, a).state, calls), last);
        var completed := Completions(o.state.trace) - Completions(st.trace);
        && 0 <= completed <= 1
        && ((o.result == Ok <==> completed == 1) <==> !(st.path.Pool? && IsHighLevelCompression(r)))
  {
    hide HostRuns, HwCompletions, HostCompletions, Step, Run;
    SubmitStep(st, r, a);
    var submitted := Submit(st, r, a).state;
    assert Run(submitted, []) == submitted by { RunNone(submitted); }
    if IsHighLevelCompression(r) { SubmitLevel(st, r, a); }
    hide Submit;
    if calls != [] { UnfinishedWaits(submitted, calls); }
    PollingStep(Run(submitted, calls), last);
  }

  lemma RunNone(st: State)
    ensures Run(st, []) == st
  {
  }

  lemma SubmitLevel(st: State, r: Request, a: SubmitAnswers)
    requires IsHighLevelCompression(r) && Submit(st, r, a).result == Ok
    ensures !st.path.Hardware? && (st.path.Auto? ==> Submit(st, r, a).state.fallback)
  {
  }

  /** Once a job has answered, further checks and waits do nothing. */
  lemma {:induction false} SettledStays(st: State, calls: seq<Call>)
    requires Settled(st) && AllPolling(calls)
    ensures Run(st, calls) == st
    decreases |calls|
  {
    if calls != [] { SettledStays(st, calls[..|calls| - 1]); }
  }

  /** Every later answer repeats the first, but for one case: a failed run of the host engine on the auto path
      is reported as OK from then on. */
  lemma LaterResults(st: State, c: Call, calls: seq<Call>, again: Call)
    requires Polling(c) && Step(st, c).result != BeingProcessed && AllPolling(calls) && Polling(again)
    ensures var o := Step(st, c);
        var later := Step(Run(o.state, calls), again);
        && later.state == o.state
        && (later.result == o.result <==> o.result == Ok || !(st.path.Auto? && o.state.fallback))
        && (later.result != o.result ==> later.result == Ok)
  {
    hide HostRuns, HwCompletions, HostCompletions, Step, Run;
    var o := Step(st, c);
    PollingStep(st, c);
    assert Settled(o.state);
    SettledStays(o.state, calls);
    PollingStep(o.state, again);
  }

  /** Waiting is checking again and again. */
  function Checks(st: State, pending: nat, hw: Final, sw: Final): Outcome
    decreases pending
  {
    if pending == 0 then Check(st, hw, sw) else Checks(Check(st, BeingProcessed, sw).state, pending - 1, hw, sw)
  }

  lemma {:induction false} WaitIsRepeatedCheck(st: State, pending: nat, hw: Final, sw: Final)
    ensures Wait(st, pending, hw, sw) == Checks(st, pending, hw, sw)
    decreases pending
  {
    hide MayFallBackAfter;
    if pending > 0 {
      WaitIsRepeatedCheck(Check(st, BeingProcessed, sw).state, pending - 1, hw, sw);
    }
  }

  // ----- accelerator and pool paths -----

  /** No run of any calls, synchronous ones included, uses the host engine for a job on the hardware or pool path. */
  lemma {:induction false} AcceleratorOnly(st: State, calls: seq<Call>)
    requires (st.path.Hardware? || st.path.Pool?) && !st.fallback
    ensures var s := Run(st, calls);
        s.path == st.path && !s.fallback && HostRuns(s.trace) == HostRuns(st.trace)
    decreases |calls|
  {
    hide HostRuns, HwCompletions, HostCompletions, Step;
    if calls != [] {
      var front, last := calls[..|calls| - 1], calls[|calls| - 1];
      AcceleratorOnly(st, front);
      AcceleratorStep(Run(st, front), last);
    }
  }

  lemma AcceleratorStep(st: State, c: Call)
    requires (st.path.Hardware? || st.path.Pool?) && !st.fallback
    ensures var s := Step(st, c).state;
        s.path == st.path && !s.fallback && HostRuns(s.trace) == HostRuns(st.trace)
  {
    hide HostRuns, HwCompletions, HostCompletions, Submit, Wait, Check, NeedsHost, MayFallBackAfter;
    match c
    case SubmitCall(r, a) => SubmitStep(st, r, a);
    case CheckCall(_, _) => PollingStep(st, c); NeedsHostIsAuto(st.path, st.request);
    case WaitCall(_, _, _) => PollingStep(st, c); NeedsHostIsAuto(st.path, st.request);
    case ExecuteCall(r, a) =>
      NeedsHostIsAuto(st.path, r);
      var held := st.(request := r);
      var waiting := held.Then(HwSubmitted(Ok)).(status := BeingProcessed);
      PollingStep(waiting, WaitCall(a.pending, a.polled, a.inWait));
      CountNext(held, HwSubmitted(a.hw));
      CountNext(held, HwSubmitted(Ok));
      CountNext(held, HwPerformed(a.performed));
  }

  // ----- streams of chunks -----

  /** A chunk of a compression or decompression stream at the default level. */
  predicate IsChunk(r: Request) {
    (r.op.Compress? || r.op.Decompress?) && !IsHighLevelCompression(r)
  }

  /** The calls for the chunks of a stream after its first one, asynchronous or synchronous. */
  predicate GoesOn(c: Call) {
    Polling(c) || (IsChunk(c.r) && !c.r.first)
  }

  predicate AllGoOn(calls: seq<Call>) {
    forall i :: 0 <= i < |calls| ==> GoesOn(calls[i])
  }

  /** Since the counts were `hw` and `host`, only one side has worked; the side can still change only while the
      first chunk waits for an answer. */
  predicate OneSided(st: State, hw: nat, host: nat) {
    && st.path.Auto? && IsChunk(st.request)
    && (st.fallback ==> HwCompletions(st.trace) == hw)
    && (!st.fallback ==> HostRuns(st.trace) == host)
    && (st.request.first && !st.fallback && HwCompletions(st.trace) != hw ==> st.status != BeingProcessed)
  }

  lemma OneSidedStep(st: State, c: Call, hw: nat, host: nat)
    requires OneSided(st, hw, host) && GoesOn(c)
    ensures OneSided(Step(st, c).state, hw, host)
  {
    hide HostRuns, HwCompletions, HostCompletions, Execute;
    if c.SubmitCall? {
      SubmitStep(st, c.r, c.s);
    } else if c.ExecuteCall? {
      ExecuteCounts(st, c.r, c.e);
    } else {
      PollingStep(st, c);
    }
  }

  lemma {:induction false} OneSidedRun(st: State, calls: seq<Call>, hw: nat, host: nat)
    requires OneSided(st, hw, host) && AllGoOn(calls)
    ensures OneSided(Run(st, calls), hw, host)
    decreases |calls|
  {
    hide OneSided, Step, GoesOn;
    if calls != [] {
      var front, last := calls[..|calls| - 1], calls[|calls| - 1];
      OneSidedRun(st, front, hw, host);
      OneSidedStep(Run(st, front), last, hw, host);
    }
  }

  /** Between two moments, the accelerator completed nothing or the host engine ran nothing. */
  predicate OnOneSide(before: State, after: State) {
    HwCompletions(after.trace) == HwCompletions(before.trace) || HostRuns(after.trace) == HostRuns(before.trace)
  }

  /** All chunks of a stream on the auto path are completed by the same side: from the submission of its first chunk
      on, whatever is submitted, executed, checked or waited for. */
  lemma StreamStaysOnOneSide(st: State, r: Request, a: SubmitAnswers, calls: seq<Call>)
    requires st.path.Auto? && r.first && IsChunk(r) && AllGoOn(calls)
    ensures OnOneSide(st, Run(Submit(st, r, a).state, calls))
  {
    hide HostRuns, HwCompletions, HostCompletions, Run;
    SubmitStep(st, r, a);
    OneSidedRun(Submit(st, r, a).state, calls, HwCompletions(st.trace), HostRuns(st.trace));
  }

  /** What the synchronous call does for a chunk. */
  lemma ExecuteCounts(st: State, r: Request, e: ExecuteAnswers)
    requires st.path.Auto? && IsChunk(r)
    ensures var o := Execute(st, r, e).state;
        && o.path == st.path && o.request == r
        && (if r.cannedWithoutTable then
              o == st.(request := r)
            else if Latched(st, r) then
              o.fallback && HwCompletions(o.trace) == HwCompletions(st.trace)
            else
              && (o.fallback ==> MayFallBack(st.path, r) && HwCompletions(o.trace) == HwCompletions(st.trace))
              && (!o.fallback ==> HostRuns(o.trace) == HostRuns(st.trace))
              && (!o.fallback && HwCompletions(o.trace) != HwCompletions(st.trace) ==>
                    if IsLegacy(r) then o.status != BeingProcessed else o.status == st.status))
  {
    var h := st.(request := r, fallback := false);
    if StaysOff(st, r) {
      hide HostRuns, HwCompletions, HostCompletions, TryExecute, NeedsHost, IsLegacy, IsSingle;
      CountNext(h.(fallback := true), SwExecuted(e.sw));
    } else {
      hide HostRuns, HwCompletions, HostCompletions, TryExecute, NeedsHost, IsLegacy, IsSingle, Execute;
      UnlatchedCalls(st, r, e);
      TryCounts(h, e);
      CountNext(TryExecute(h, e).state.(fallback := true), SwExecuted(e.sw));
    }
  }

  lemma TryCounts(h: State, a: ExecuteAnswers)
    requires h.path.Auto? && !h.fallback && IsChunk(h.request)
    ensures var e := TryExecute(h, a);
        && e.state.path == h.path && e.state.request == h.request
        && (e.state.fallback ==> MayFallBack(h.path, h.request))
        && (e.state.fallback || e.result != Ok ==> HwCompletions(e.state.trace) == HwCompletions(h.trace))
        && (!e.state.fallback ==> HostRuns(e.state.trace) == HostRuns(h.trace))
        && (!e.state.fallback && e.result == Ok ==>
              if IsLegacy(h.request) then e.state.status != BeingProcessed else e.state.status == h.status)
  {
    hide HostRuns, HwCompletions, HostCompletions, Wait, IsLegacy, IsSingle;
    CountNext(h, HwSubmitted(a.hw));
    CountNext(h, HwPerformed(a.performed));
    CountNext(h, HwSubmitted(Ok));
    PollingStep(h.Then(HwSubmitted(Ok)).(status := BeingProcessed), WaitCall(a.pending, a.polled, a.inWait));
  }

  /** The call reaches the accelerator's synchronous routines, which leave the stored status as it was. */
  predicate Performs(st: State, r: Request) {
    !r.cannedWithoutTable && !Latched(st, r) && !IsLegacy(r)
  }

  /** A stream whose first chunk is executed synchronously stays on one side, whatever follows, exactly when no earlier
      job was left being processed in a status that this call does not overwrite. */
  lemma ExecutedStreamStaysOnOneSide(st: State, r: Request)
    requires st.path.Auto? && r.first && IsChunk(r)
    ensures (forall e, calls | AllGoOn(calls) :: OnOneSide(st, Run(Execute(st, r, e).state, calls)))
       <==> !(st.status == BeingProcessed && Performs(st, r))
  {
    hide HostRuns, HwCompletions, HostCompletions, Run, Execute, OnOneSide, IsLegacy, Latched, AllGoOn, Performs;
    if st.status == BeingProcessed && Performs(st, r) {
      var e, calls := LeftoverSplitsStream(st, r);
    } else {
      forall e, calls | AllGoOn(calls)
        ensures OnOneSide(st, Run(Execute(st, r, e).state, calls))
      {
        ExecutedFirst(st, r, e, calls);
      }
    }
  }

  lemma ExecutedFirst(st: State, r: Request, e: ExecuteAnswers, calls: seq<Call>)
    requires st.path.Auto? && r.first && IsChunk(r) && AllGoOn(calls)
    requires !(st.status == BeingProcessed && Performs(st, r))
    ensures OnOneSide(st, Run(Execute(st, r, e).state, calls))
  {
    hide HostRuns, HwCompletions, HostCompletions, Run, Execute, IsLegacy, Latched;
    ExecuteCounts(st, r, e);
    OneSidedRun(Execute(st, r, e).state, calls, HwCompletions(st.trace), HostRuns(st.trace));
  }

  /** The accelerator completes the chunk; the next check takes the leftover status for it, and an error then runs
      the host engine. */
  lemma LeftoverSplitsStream(st: State, r: Request) returns (e: ExecuteAnswers, calls: seq<Call>)
    requires st.path.Auto? && r.first && IsChunk(r) && st.status == BeingProcessed && Performs(st, r)
    ensures AllGoOn(calls) && !OnOneSide(st, Run(Execute(st, r, e).state, calls))
  {
    hide HostRuns, HwCompletions, HostCompletions, Run, IsLegacy, Latched, Execute;
    e := ExecuteAnswers(Ok, Ok, false, 0, Ok, Ok, Ok, Ok);
    var c := CheckCall(Failed(0), Ok);
    calls := [c];
    var h := st.(request := r, fallback := false);
    UnlatchedCalls(st, r, e);
    CountNext(h, HwPerformed(Ok));
    var o := Execute(st, r, e).state;
    assert o == h.Then(HwPerformed(Ok));
    RunOne(o, c);
    PollingStep(o, c);
  }

  /** A later chunk runs on the host exactly when the stream already does or its level has been raised. */
  lemma SideOfLaterChunk(st: State, r: Request, a: SubmitAnswers)
    requires st.path.Auto? && !r.first && !IsSingle(r) && !r.cannedWithoutTable
    ensures HostRuns(Submit(st, r, a).state.trace) > HostRuns(st.trace) <==> st.fallback || IsHighLevelCompression(r)
  {
    hide HostRuns, HwCompletions, HostCompletions;
    SubmitStep(st, r, a);
  }

  const CHUNK := Request(Compress, false, true, false, false, false, false, 0, false, 0, false)
  const ALL_WELL := SubmitAnswers(Ok, Ok, false, Ok)

  /** So raising the level in the middle of a stream can split it: here the accelerator completes the first chunk
      and the host engine the second. */
  lemma LevelChangeSplitsStream()
    ensures var first := Submit(State(Auto, CHUNK, false, NotSubmitted, []), CHUNK, ALL_WELL).state;
        var second := SubmitCall(CHUNK.(first := false, highLevel := true), ALL_WELL);
        && IsChunk(CHUNK)
        && Run(first, [CheckCall(Ok, Ok), second]).trace == [HwSubmitted(Ok), HwPolled(Ok), SwExecuted(Ok)]
  {
    hide Run, Step;
    var first := Submit(State(Auto, CHUNK, false, NotSubmitted, []), CHUNK, ALL_WELL).state;
    assert first == State(Auto, CHUNK, false, BeingProcessed, [HwSubmitted(Ok)]);
    var checked := Check(first, Ok, Ok).state;
    assert checked == State(Auto, CHUNK, false, Ok, [HwSubmitted(Ok), HwPolled(Ok)]);
    RunTwo(first, CheckCall(Ok, Ok), SubmitCall(CHUNK.(first := false, highLevel := true), ALL_WELL));
    StepIs(first, checked);
  }

  lemma StepIs(first: State, checked: State)
    ensures Step(first, CheckCall(Ok, Ok)) == Check(first, Ok, Ok)
    ensures var r := CHUNK.(first := false, highLevel := true);
        Step(checked, SubmitCall(r, ALL_WELL)) == Submit(checked, r, ALL_WELL)
  {
  }

  lemma RunTwo(st: State, c: Call, d: Call)
    ensures Run(st, [c, d]) == Step(Step(st, c).state, d).state
  {
    hide Step;
    assert [c, d][..1] == [c];
    RunOne(st, c);
  }

  // ----- the synchronous call -----

  /** The call that the documentation equates with the synchronous one. */
  function SubmitThenWait(st: State, r: Request, a: ExecuteAnswers): Outcome {
    var o := Submit(st, r, SubmitAnswers(a.init, a.hw, a.resets, a.sw));
    if o.result != Ok then o else Wait(o.state, a.pending, a.polled, a.inWait)
  }

  /** When the synchronous call runs the host engine inside its wait and once more after it. */
  predicate RunsHostTwice(st: State, r: Request, a: ExecuteAnswers) {
    && !r.cannedWithoutTable && IsLegacy(r) && MayFallBack(st.path, r) && !Latched(st, r)
    && a.init == Ok && a.hw == Ok && a.polled != Ok && a.polled != MoreOutputNeeded
  }

  lemma ExecuteHostRuns(st: State, r: Request, a: ExecuteAnswers)
    requires Sound(st)
    ensures var t, u := st.trace, Execute(st, r, a).state.trace;
        && HostRuns(u) <= HostRuns(t) + 2
        && (HostRuns(u) == HostRuns(t) + 2 <==> RunsHostTwice(st, r, a))
  {
    var h := st.(request := r, fallback := false);
    if StaysOff(st, r) {
      hide HostRuns, HwCompletions, HostCompletions, TryExecute, NeedsHost, IsLegacy, IsSingle;
      NeedsHostIsAuto(st.path, r);
      CountNext(st.(request := r), SwExecuted(a.sw));
      CountNext(h.(fallback := true), SwExecuted(a.sw));
    } else {
      hide HostRuns, HwCompletions, HostCompletions, TryExecute, NeedsHost, IsLegacy, IsSingle, Execute;
      UnlatchedCalls(st, r, a);
      TryHostRuns(h, a);
      CountNext(TryExecute(h, a).state.(fallback := true), SwExecuted(a.sw));
    }
  }

  /** Inside the accelerator's part, the host engine can run in the wait. */
  lemma TryHostRuns(h: State, a: ExecuteAnswers)
    requires !h.fallback && !h.path.Software?
    ensures var e, r := TryExecute(h, a), h.request;
        && (e.state.fallback <==>
              && IsLegacy(r) && !IsHighLevelCompression(r) && MayFallBack(h.path, r)
              && a.init == Ok && a.hw == Ok && a.polled != Ok && a.polled != MoreOutputNeeded)
        && HostRuns(e.state.trace) == HostRuns(h.trace) + (if e.state.fallback then 1 else 0)
  {
    hide HostRuns, HwCompletions, HostCompletions, Wait, IsLegacy, IsSingle;
    CountNext(h, HwSubmitted(a.hw));
    CountNext(h, HwPerformed(a.performed));
    CountNext(h, HwSubmitted(Ok));
    PollingStep(h.Then(HwSubmitted(Ok)).(status := BeingProcessed), WaitCall(a.pending, a.polled, a.inWait));
  }

  /** For jobs that go through submission and waiting, the synchronous call does the same as the two calls, with the
      same outcome and the same work of the engines, unless it runs the host engine twice. */
  lemma ExecuteIsSubmitThenWait(st: State, r: Request, a: ExecuteAnswers)
    requires Sound(st) && IsLegacy(r)
    ensures Execute(st, r, a) == SubmitThenWait(st, r, a) <==> !RunsHostTwice(st, r, a)
  {
    hide RunsHostTwice, Execute, SubmitThenWait, StaysOff, IsLegacy;
    if RunsHostTwice(st, r, a) {
      TwiceDiffers(st, r, a);
    } else if StaysOff(st, r) {
      SameWhenOff(st, r, a);
    } else {
      SameWhenOn(st, r, a);
    }
  }

  /** What a caller can tell before the call: the two are the same whatever the engines answer exactly when the request
      is refused, may not fall back, or goes to the host at once. */
  lemma ExecuteIsAlwaysSubmitThenWait(st: State, r: Request)
    requires Sound(st) && IsLegacy(r)
    ensures (forall a :: Execute(st, r, a) == SubmitThenWait(st, r, a))
       <==> r.cannedWithoutTable || !MayFallBack(st.path, r) || Latched(st, r)
  {
    hide Execute, SubmitThenWait, IsLegacy, Latched, MayFallBack;
    var failing := ExecuteAnswers(Ok, Ok, false, 0, Failed(0), Ok, Ok, Ok);
    ExecuteIsSubmitThenWait(st, r, failing);
    forall a
      ensures r.cannedWithoutTable || !MayFallBack(st.path, r) || Latched(st, r) ==>
                Execute(st, r, a) == SubmitThenWait(st, r, a)
    {
      ExecuteIsSubmitThenWait(st, r, a);
    }
  }

  const CHECKSUM := Request(Crc64, false, false, false, false, false, false, 0, false, 0, false)

  /** For one: a checksum on the auto path whose poll fails is computed twice by the host engine. */
  lemma ChecksumRunsHostTwice()
    ensures var a := ExecuteAnswers(Ok, Ok, false, 0, Failed(0), Ok, Ok, Ok);
        Execute(State(Auto, CHECKSUM, false, NotSubmitted, []), CHECKSUM, a).state.trace
        == [HwSubmitted(Ok), HwPolled(Failed(0)), SwExecuted(Ok), SwExecuted(Ok)]
  {
    var a := ExecuteAnswers(Ok, Ok, false, 0, Failed(0), Ok, Ok, Ok);
    var st := State(Auto, CHECKSUM, false, NotSubmitted, []);
    var waited := TryExecute(st, a);
    assert waited.state == State(Auto, CHECKSUM, true, Ok, [HwSubmitted(Ok), HwPolled(Failed(0)), SwExecuted(Ok)]);
  }

  lemma TwiceDiffers(st: State, r: Request, a: ExecuteAnswers)
    requires Sound(st) && RunsHostTwice(st, r, a)
    ensures Execute(st, r, a) != SubmitThenWait(st, r, a)
  {
    hide HostRuns, HwCompletions, HostCompletions, Execute, Submit, Wait, Run;
    ExecuteHostRuns(st, r, a);
    var b := SubmitAnswers(a.init, a.hw, a.resets, a.sw);
    var wait := [WaitCall(a.pending, a.polled, a.inWait)];
    AtMostOneHostRun(st, r, b, []);
    AtMostOneHostRun(st, r, b, wait);
    RunNone(Submit(st, r, b).state);
    RunOne(Submit(st, r, b).state, wait[0]);
  }

  lemma RunOne(st: State, c: Call)
    ensures Run(st, [c]) == Step(st, c).state
  {
    assert [c][..0] == [];
    RunNone(st);
  }

  /** The accelerator's part is the same in both. */
  lemma SameTry(h: State, a: ExecuteAnswers)
    requires !h.fallback && IsLegacy(h.request)
    ensures var s, e := TrySubmit(h, SubmitAnswers(a.init, a.hw, a.resets, a.sw)), TryExecute(h, a);
        if s.result == Ok then !s.state.fallback && e == Wait(s.state, a.pending, a.polled, a.inWait)
        else e == s.(state := s.state.(fallback := false)) && s.state.path == h.path
             && s.state.fallback == MayFallBackAfter(h.path, h.request, s.result)
  {
    hide Wait, IsLegacy, MayFallBackAfter;
  }

  lemma WaitEnds(st: State, pending: nat, hw: Final, sw: Final)
    requires st.status == BeingProcessed && !st.fallback && !st.path.Software?
    ensures var o := Wait(st, pending, hw, sw);
        && o.state.path == st.path
        && (if hw != Ok && !IsHighLevelCompression(st.request) && MayFallBackAfter(st.path, st.request, hw)
            then o.state.fallback
            else !o.state.fallback && !(o.result != Ok && MayFallBackAfter(st.path, st.request, o.result)))
  {
    hide HostRuns, HwCompletions, HostCompletions, Wait, MayFallBackAfter;
    PollingStep(st, WaitCall(pending, hw, sw));
  }

  /** A call that does not reach the accelerator. */
  predicate StaysOff(st: State, r: Request) {
    r.cannedWithoutTable || st.path.Software? || Latched(st, r) || (IsHighLevelCompression(r) && st.path.Hardware?)
  }

  lemma SameWhenOff(st: State, r: Request, a: ExecuteAnswers)
    requires Sound(st) && StaysOff(st, r)
    ensures Execute(st, r, a) == SubmitThenWait(st, r, a)
  {
    hide TrySubmit, TryExecute, NeedsHost, MayFallBack, IsSingle;
    NeedsHostIsAuto(st.path, r);
  }

  lemma SameWhenOn(st: State, r: Request, a: ExecuteAnswers)
    requires Sound(st) && IsLegacy(r) && !RunsHostTwice(st, r, a) && !StaysOff(st, r)
    ensures Execute(st, r, a) == SubmitThenWait(st, r, a)
  {
    hide TrySubmit, TryExecute, NeedsHost, IsSingle, IsLegacy, Wait, Latched, Submit, Execute;
    var h := st.(request := r, fallback := false);
    var b := SubmitAnswers(a.init, a.hw, a.resets, a.sw);
    SameTry(h, a);
    if TrySubmit(h, b).result == Ok {
      TrySubmitOk(h, b);
      WaitEnds(TrySubmit(h, b).state, a.pending, a.polled, a.inWait);
    }
    UnlatchedCalls(st, r, a);
    WaitSettled(Submit(st, r, b).state, a.pending, a.polled, a.inWait);
  }

  lemma WaitSettled(st: State, pending: nat, hw: Final, sw: Final)
    ensures Settled(st) ==> Wait(st, pending, hw, sw) == Outcome(st, SettledResult(st))
  {
  }

  lemma TrySubmitOk(h: State, b: SubmitAnswers)
    requires !h.fallback && TrySubmit(h, b).result == Ok
    ensures var s := TrySubmit(h, b).state;
        && s.path == h.path && s.request == h.request && s.status == BeingProcessed && !s.fallback
        && (b.init == Ok || h.path.Pool?) && b.hw == Ok
  {
  }

  /** Both calls, when the job goes to the accelerator. */
  lemma UnlatchedCalls(st: State, r: Request, a: ExecuteAnswers)
    requires !r.cannedWithoutTable && !st.path.Software? && !Latched(st, r)
    requires !(IsHighLevelCompression(r) && st.path.Hardware?)
    ensures var h, b := st.(request := r, fallback := false), SubmitAnswers(a.init, a.hw, a.resets, a.sw);
        var s, e := TrySubmit(h, b), TryExecute(h, a);
        var fallsBack := e.state.fallback || (e.result != Ok && MayFallBackAfter(st.path, r, e.result));
        && Submit(st, r, b) == (if s.state.fallback then RunOnHost(s.state, a.sw) else s)
        && Execute(st, r, a) == (if fallsBack then RunOnHost(e.state.(fallback := true), a.sw) else e)
  {
    hide TrySubmit, TryExecute, NeedsHost, IsSingle, IsLegacy, RunOnHost, MayFallBackAfter;
  }
}
