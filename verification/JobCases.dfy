/** The calls spelled out by operation and flags: which engine runs, how often, and what the caller is told. */
module JobCases {
  import opened JobProtocol
  import opened JobRuns

  // ----- submission -----

  /** The accelerator's first answer, and what has been sent to it by then. */
  function FirstAnswer(init: Status, hw: Status): Status {
    if init == Ok then hw else init
  }

  function FirstEvents(init: Status, hw: Status): seq<Event> {
    if init == Ok then [HwSubmitted(hw)] else []
  }

  /** The auto path. The host engine has the job at once if its stream is already there, if it compresses at the high
      level, or if it starts a Huffman-only big-endian decompression that ignores eight or more end bits on a
      first-generation accelerator. It has the job after a failure other than a full output buffer if this is the first
      chunk, or no stream at all. Otherwise the accelerator's answer stands. */
  lemma SubmitOnAuto(st: State, r: Request, a: SubmitAnswers)
    requires st.path == Auto && !r.cannedWithoutTable
    ensures var o, hw, events := Submit(st, r, a), FirstAnswer(a.init, a.hw), FirstEvents(a.init, a.hw);
        var left := if a.init == Ok && a.resets then NotSubmitted else st.status;
        if || (st.fallback && !r.first)
           || (r.op == Compress && r.highLevel)
           || (&& r.op == Decompress && r.first && r.noHeaders && r.bigEndianHuffman
               && r.ignoreEndBits >= 8 && !r.secondGeneration)
        then
          o == Outcome(State(Auto, r, true, if a.sw == Ok then BeingProcessed else st.status,
                             st.trace + [SwExecuted(a.sw)]), a.sw)
        else if hw !in {Ok, MoreOutputNeeded} && (r.first || r.op in {Crc64, Extract, Select, Expand, Scan}) then
          o == Outcome(State(Auto, r, true, if a.sw == Ok then BeingProcessed else left,
                             st.trace + events + [SwExecuted(a.sw)]), a.sw)
        else
          o == Outcome(State(Auto, r, false, if hw == Ok then BeingProcessed else left, st.trace + events), hw)
  {
    assert st.trace + [] == st.trace;
  }

  /** The other paths. Nothing there runs on both engines; the hardware path refuses the high level, the pool path does
      not initialise the accelerator, and a canned compression without its table is refused on every path. */
  lemma SubmitElsewhere(st: State, r: Request, a: SubmitAnswers)
    requires st.path == Auto ==> r.cannedWithoutTable
    requires st.path in {Hardware, Pool} ==> !st.fallback
    ensures var o := Submit(st, r, a);
        if r.cannedWithoutTable then
          o == Outcome(st.(request := r), NullPointer)
        else if st.path == Software then
          o == Outcome(st.(request := r, trace := st.trace + [SwExecuted(a.sw)]), a.sw)
        else if st.path == Hardware && r.op == Compress && r.highLevel then
          o == Outcome(st.(request := r), UnsupportedLevel)
        else if st.path == Hardware && a.init != Ok then
          o == Outcome(st.(request := r), a.init)
        else
          o == Outcome(State(st.path, r, false,
                             if a.hw == Ok then BeingProcessed else if a.resets then NotSubmitted else st.status,
                             st.trace + [HwSubmitted(a.hw)]), a.hw)
  {
    assert st.(request := r).(fallback := st.fallback) == st.(request := r);
  }

  /** A failed submission on the auto path is run once by the host engine, which gives the answer: always for a
      checksum, extract, select, expand or scan, whatever the flags, and for a compression or decompression exactly
      when it is the first chunk. */
  lemma FailedSubmission(st: State, r: Request, a: SubmitAnswers)
    requires st.path == Auto && !r.cannedWithoutTable && (st.fallback ==> r.first)
    requires r.op == Compress ==> !r.highLevel
    requires FirstAnswer(a.init, a.hw) !in {Ok, MoreOutputNeeded}
    ensures var o := Submit(st, r, a);
        var runs := HostRuns(o.state.trace) - HostRuns(st.trace);
        if r.op in {Crc64, Extract, Select, Expand, Scan} || r.first
        then runs == 1 && o.result == a.sw
        else runs == 0 && o.result == FirstAnswer(a.init, a.hw)
  {
    hide HostRuns, HwCompletions, HostCompletions, Submit;
    SubmitOnAuto(st, r, a);
    HostRunsAppend(st.trace, FirstEvents(a.init, a.hw));
    HostRunsAppend(st.trace, [SwExecuted(a.sw)]);
    HostRunsAppend(st.trace + FirstEvents(a.init, a.hw), [SwExecuted(a.sw)]);
    OneHostRun(a.sw, a.init, a.hw);
  }

  lemma {:induction false} HostRunsAppend(t: seq<Event>, u: seq<Event>)
    ensures HostRuns(t + u) == HostRuns(t) + HostRuns(u)
    decreases |u|
  {
    if u == [] {
      assert t + u == t;
    } else {
      var k := |u| - 1;
      HostRunsAppend(t, u[..k]);
      assert (t + u)[..|t| + k] == t + u[..k];
    }
  }

  lemma OneHostRun(sw: Status, init: Status, hw: Status)
    ensures HostRuns([SwExecuted(sw)]) == 1 && HostRuns(FirstEvents(init, hw)) == 0
  {
    assert [SwExecuted(sw)][..0] == [] && [HwSubmitted(hw)][..0] == [];
  }

  // ----- check and wait -----

  /** What a check or wait makes of the accelerator's report `hw`, after the polls `events`. */
  function Reported(st: State, events: seq<Event>, hw: Final, sw: Final): Outcome {
    if st.path == Auto && hw !in {Ok, MoreOutputNeeded}
       && (st.request.first || st.request.op in {Crc64, Extract, Select, Expand, Scan})
    then Outcome(State(Auto, st.request, true, sw, st.trace + events + [SwExecuted(sw)]), sw)
    else Outcome(st.(status := hw, trace := st.trace + events), hw)
  }

  /** A job on the host answers OK; a settled one repeats its status; high-level compression is not polled; otherwise
      the report decides. A wait polls until it has one. */
  lemma {:induction false} PollSpelledOut(st: State, pending: nat, hw: Final, sw: Final)
    ensures var check, wait, busy := Check(st, hw, sw), Wait(st, pending, hw, sw), HwPolled(BeingProcessed);
        if st.path == Software || (st.path == Auto && st.fallback) then
          check == wait == Outcome(st, Ok)
        else if st.status != BeingProcessed then
          check == wait == Outcome(st, st.status)
        else if st.request.op == Compress && st.request.highLevel then
          check == wait == Outcome(st.(status := Ok), Ok)
        else
          && Check(st, BeingProcessed, sw) == Outcome(st.(trace := st.trace + [busy]), BeingProcessed)
          && check == Reported(st, [HwPolled(hw)], hw, sw)
          && wait == Reported(st, seq(pending, i => busy) + [HwPolled(hw)], hw, sw)
  {
    hide Polled, Conclude, Reported;
    PolledEvents(st, pending, hw);
    ConcludeMeans(st, [], Ok, sw);
    ConcludeMeans(st, [HwPolled(hw)], hw, sw);
    ConcludeMeans(st, seq(pending, i => HwPolled(BeingProcessed)) + [HwPolled(hw)], hw, sw);
    assert st.trace + [] == st.trace;
    NothingReported(st, sw);
  }

  lemma ConcludeMeans(st: State, events: seq<Event>, hw: Final, sw: Final)
    ensures Conclude(st.(trace := st.trace + events), hw, sw) == Reported(st, events, hw, sw)
  {
  }

  lemma NothingReported(st: State, sw: Final)
    ensures Reported(st, [], Ok, sw) == Outcome(st.(status := Ok), Ok)
  {
    assert st.trace + [] == st.trace;
  }

  lemma {:induction false} PolledEvents(st: State, pending: nat, hw: Final)
    ensures var busy := HwPolled(BeingProcessed);
        Polled(st, pending, hw) == st.(trace := st.trace + (seq(pending, i => busy) + [HwPolled(hw)]))
    decreases pending
  {
    var busy := HwPolled(BeingProcessed);
    if pending == 0 {
      assert seq(0, i => busy) + [HwPolled(hw)] == [HwPolled(hw)];
    } else {
      PolledEvents(st.Then(busy), pending - 1, hw);
      assert st.trace + [busy] + (seq(pending - 1, i => busy) + [HwPolled(hw)])
          == st.trace + (seq(pending, i => busy) + [HwPolled(hw)]);
    }
  }

  /** A job in progress on the auto path whose accelerator fails is run once by the host engine, inside the check or
      wait that learns of it: always for a checksum, extract, select, expand or scan, and for a default-level
      compression or decompression exactly when it is the first chunk. */
  lemma FailedPoll(st: State, pending: nat, hw: Final, sw: Final)
    requires st.path == Auto && !st.fallback && st.status == BeingProcessed
    requires st.request.op == Compress ==> !st.request.highLevel
    requires hw !in {Ok, MoreOutputNeeded}
    ensures var check, wait := Check(st, hw, sw), Wait(st, pending, hw, sw);
        var runs := HostRuns(check.state.trace) - HostRuns(st.trace);
        && HostRuns(wait.state.trace) - HostRuns(st.trace) == runs && wait.result == check.result
        && (if st.request.op in {Crc64, Extract, Select, Expand, Scan} || st.request.first
            then runs == 1 && check.result == sw
            else runs == 0 && check.result == hw)
  {
    hide HostRuns, HwCompletions, HostCompletions, Check, Wait;
    PollingStep(st, CheckCall(hw, sw));
    PollingStep(st, WaitCall(pending, hw, sw));
    PollSpelledOut(st, pending, hw, sw);
    HostRunsAppend(st.trace + [HwPolled(hw)], [SwExecuted(sw)]);
    OneHostRun(sw, Ok, hw);
  }

  // ----- the synchronous call -----

  /** Who answers a synchronous call once the accelerator has said `hw`, with the events so far. */
  function Answered(r: Request, status: Status, trace: seq<Event>, hw: Status, sw: Final): Outcome {
    if hw !in {Ok, MoreOutputNeeded} && (r.first || r.op in {Crc64, Extract, Select, Expand, Scan})
    then Outcome(State(Auto, r, true, if sw == Ok then BeingProcessed else status, trace + [SwExecuted(sw)]), sw)
    else Outcome(State(Auto, r, false, status, trace), hw)
  }

  /** Jobs for a remote device, checksums, and indexed compressions of more than one chunk. */
  predicate SubmitsAndWaits(r: Request) {
    -107 <= r.numaId <= -100 || r.op == Crc64 || (r.op == Compress && r.indexed && !(r.first && r.last))
  }

  /** The synchronous call on the auto path. Jobs for a remote device, checksums and indexed compressions of more than
      one chunk are submitted and waited for; the others are performed by one call of the accelerator. */
  lemma ExecuteOnAuto(st: State, r: Request, a: ExecuteAnswers)
    requires st.path == Auto && !r.cannedWithoutTable
    ensures var o := Execute(st, r, a);
        if || (st.fallback && !r.first)
           || (r.op == Compress && r.highLevel)
           || (&& r.op == Decompress && r.first && r.noHeaders && r.bigEndianHuffman
               && r.ignoreEndBits >= 8 && !r.secondGeneration)
        then
          o == Outcome(State(Auto, r, true, if a.sw == Ok then BeingProcessed else st.status,
                             st.trace + [SwExecuted(a.sw)]), a.sw)
        else if a.init != Ok then
          o == Answered(r, st.status, st.trace, a.init, a.sw)
        else if !SubmitsAndWaits(r) then
          o == Answered(r, st.status, st.trace + [HwPerformed(a.performed)], a.performed, a.sw)
        else if a.hw != Ok then
          o == Answered(r, if a.resets then NotSubmitted else st.status, st.trace + [HwSubmitted(a.hw)], a.hw, a.sw)
        else
          var sent := State(Auto, r, false, BeingProcessed, st.trace + [HwSubmitted(Ok)]);
          var waited := Reported(sent, seq(a.pending, i => HwPolled(BeingProcessed)) + [HwPolled(a.polled)],
                                 a.polled, a.inWait);
          if !waited.state.fallback then o == waited
          else o == Outcome(waited.state.(status := if a.sw == Ok then BeingProcessed else a.inWait,
                                          trace := waited.state.trace + [SwExecuted(a.sw)]), a.sw)
  {
    hide TryExecute, IsSingle, NeedsHost, IsLegacy, Latched, Execute, Reported, SubmitsAndWaits, MayFallBackAfter,
      Answered;
    LatchedMeans(st, r);
    if Latched(st, r) {
      LatchedExecutes(st, r, a);
    } else {
      hide RunOnHost;
      UnlatchedCalls(st, r, a);
      var h := st.(request := r, fallback := false);
      TryMeans(h, a);
      var e := TryExecute(h, a);
      if a.init == Ok && SubmitsAndWaits(r) && a.hw == Ok {
        ReportedMeans(st, r, a, e);
      } else {
        AnsweredMeans(r, e.state.status, e.state.trace, e.result, a.sw);
      }
    }
  }

  lemma AnsweredMeans(r: Request, status: Status, trace: seq<Event>, hw: Status, sw: Final)
    ensures var st := State(Auto, r, false, status, trace);
        Answered(r, status, trace, hw, sw)
          == if hw != Ok && MayFallBackAfter(Auto, r, hw) then RunOnHost(st.(fallback := true), sw) else Outcome(st, hw)
  {
  }

  /** After a wait the host engine runs, again, exactly if it ran inside it. */
  lemma ReportedMeans(st: State, r: Request, a: ExecuteAnswers, waited: Outcome)
    requires waited == Reported(State(Auto, r, false, BeingProcessed, st.trace + [HwSubmitted(Ok)]),
                                seq(a.pending, i => HwPolled(BeingProcessed)) + [HwPolled(a.polled)],
                                a.polled, a.inWait)
    ensures if waited.state.fallback then
          RunOnHost(waited.state.(fallback := true), a.sw)
            == Outcome(waited.state.(status := if a.sw == Ok then BeingProcessed else a.inWait,
                                     trace := waited.state.trace + [SwExecuted(a.sw)]), a.sw)
        else waited.result == Ok || !MayFallBackAfter(Auto, r, waited.result)
  {
  }

  /** The accelerator's part of the synchronous call. */
  lemma TryMeans(h: State, a: ExecuteAnswers)
    requires h.path == Auto && !h.fallback && !(h.request.op == Compress && h.request.highLevel)
    ensures var o, r := TryExecute(h, a), h.request;
        if a.init != Ok then o == Outcome(h, a.init)
        else if !SubmitsAndWaits(r) then o == Outcome(h.Then(HwPerformed(a.performed)), a.performed)
        else if a.hw != Ok then
          o == Outcome(h.Then(HwSubmitted(a.hw)).(status := if a.resets then NotSubmitted else h.status), a.hw)
        else
          o == Reported(h.Then(HwSubmitted(Ok)).(status := BeingProcessed),
                        seq(a.pending, i => HwPolled(BeingProcessed)) + [HwPolled(a.polled)], a.polled, a.inWait)
  {
    hide Wait, Reported, IsHighLevelCompression;
    PollSpelledOut(h.Then(HwSubmitted(Ok)).(status := BeingProcessed), a.pending, a.polled, a.inWait);
  }

  /** The other paths: the host engine runs on the software path only. */
  lemma ExecuteElsewhere(st: State, r: Request, a: ExecuteAnswers)
    requires st.path == Auto ==> r.cannedWithoutTable
    requires st.path in {Hardware, Pool} ==> !st.fallback
    ensures var o, sent := Execute(st, r, a), st.trace + [HwSubmitted(Ok)];
        if r.cannedWithoutTable then
          o == Outcome(st.(request := r), NullPointer)
        else if st.path == Software then
          o == Outcome(st.(request := r, trace := st.trace + [SwExecuted(a.sw)]), a.sw)
        else if st.path == Hardware && r.op == Compress && r.highLevel then
          o == Outcome(st.(request := r), UnsupportedLevel)
        else if st.path == Hardware && a.init != Ok then
          o == Outcome(st.(request := r), a.init)
        else if !SubmitsAndWaits(r) then
          o == Outcome(st.(request := r, trace := st.trace + [HwPerformed(a.performed)]), a.performed)
        else if a.hw != Ok then
          o == Outcome(State(st.path, r, false, if a.resets then NotSubmitted else st.status,
                             st.trace + [HwSubmitted(a.hw)]), a.hw)
        else if r.op == Compress && r.highLevel then
          o == Outcome(State(st.path, r, false, Ok, sent), Ok)
        else
          o == Outcome(State(st.path, r, false, a.polled,
                             sent + (seq(a.pending, i => HwPolled(BeingProcessed)) + [HwPolled(a.polled)])), a.polled)
  {
    hide Wait, NeedsHost, MayFallBackAfter;
    NeedsHostIsAuto(st.path, r);
    PollSpelledOut(State(st.path, r, false, BeingProcessed, st.trace + [HwSubmitted(Ok)]),
                   a.pending, a.polled, a.inWait);
  }

  lemma LatchedMeans(st: State, r: Request)
    requires st.path == Auto
    ensures Latched(st, r) <==>
        || (st.fallback && !r.first)
        || (r.op == Compress && r.highLevel)
        || (&& r.op == Decompress && r.first && r.noHeaders && r.bigEndianHuffman
            && r.ignoreEndBits >= 8 && !r.secondGeneration)
  {
  }

  lemma LatchedExecutes(st: State, r: Request, a: ExecuteAnswers)
    requires st.path == Auto && !r.cannedWithoutTable && Latched(st, r)
    ensures Execute(st, r, a) == RunOnHost(st.(request := r, fallback := true), a.sw)
  {
  }

  /** A decompression that starts on the auto path goes to the host engine without asking the accelerator exactly when
      it is Huffman-only, big-endian, ignores more than seven end bits, and the accelerator is of the first generation;
      asynchronously and synchronously alike. */
  lemma EndBitsNeedHost(st: State, r: Request, a: SubmitAnswers, e: ExecuteAnswers)
    requires st.path == Auto && r.op == Decompress && r.first && !r.cannedWithoutTable
    requires a.init == Ok && e.init == Ok
    ensures var host := r.noHeaders && r.bigEndianHuffman && r.ignoreEndBits > 7 && !r.secondGeneration;
        && (host <==> Submit(st, r, a).state.trace == st.trace + [SwExecuted(a.sw)])
        && (host ==> Submit(st, r, a).result == a.sw && Execute(st, r, e).result == e.sw)
        && (host <==> Execute(st, r, e).state.trace == st.trace + [SwExecuted(e.sw)])
  {
    hide Submit, Execute;
    SubmitOnAuto(st, r, a);
    ExecuteOnAuto(st, r, e);
    var k := |st.trace|;
    if Submit(st, r, a).state.trace == st.trace + [SwExecuted(a.sw)] {
      assert Submit(st, r, a).state.trace[k].SwExecuted?;
    }
    if Execute(st, r, e).state.trace == st.trace + [SwExecuted(e.sw)] {
      assert Execute(st, r, e).state.trace[k].SwExecuted?;
    }
  }
}
