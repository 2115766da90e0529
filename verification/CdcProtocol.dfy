/**
 The CDC client test: the reader of the CDC stream and the inserting thread hand one value
 at a time through the shared variable insert_val, and the inserted row comes back as the
 next message of the stream. Every step below is one access to shared data.
 */
module CdcProtocol {
  import opened T1Rows

  /** A message of the CDC stream: one of the two that come before the rows, or a row. */
  datatype Message = Preamble | Data(row: Row)

  /** The reader is in its loop, between lines 146 and 147, or out of its loop. */
  datatype ReaderPc = Reading | Reloading | Finished

  /**
   The inserter: testing exit_flag, testing insert_val, reading it for the first and for the
   second value of the statement, clearing it, executing the statement, or out of its loop.
   */
  datatype InserterPc =
    | LoopHead
    | Testing
    | FirstValue
    | SecondValue(x1: int)
    | Clearing(row: Row)
    | Executing(row: Row)
    | Stopped

  datatype State = State(
    insertVal: int, exitFlag: bool,                                   // shared
    reader: ReaderPc, insertedVal: int, ignoreFirst: int,             // reader
    inserter: InserterPc,                                             // inserter
    unsent: nat, stream: seq<Message>, table: seq<Row>,               // server
    checked: nat, failures: nat,                                      // rows compared, and found wrong
    reloaded: int, lost: bool)                                        // what line 147 read; an INSERT failed

  /**
   Who moves; an INSERT may be refused by the server. ArrivalStep brings one of the first two
   messages. Main sets exit_flag after the reader.
   */
  datatype Step = ReaderStep | InserterStep(accepted: bool) | ArrivalStep | MainStep

  const FIRST_VALUE := 10

  function Init(): State {
    State(0, false, Reading, 0, 2, LoopHead, 2, [], [], 0, 0, FIRST_VALUE, false)
  }

  function RowFor(v: int): Row {
    Row(v, v + 100)
  }

  function AfterTest(s: State, max: int): State {
    if s.insertedVal < max then s else s.(reader := Finished)
  }

  /** read_sc takes everything that has arrived, so one read may take several messages. */
  function Read(s: State, max: int): State {
    match s.reader
    case Finished => s
    case Reloading =>
      AfterTest(s.(insertedVal := s.insertVal, reloaded := s.insertVal, reader := Reading), max)
    case Reading =>
      if s.stream == [] then s else
      var s' := s.(stream := []);
      if s.ignoreFirst > 0 then
        if s.ignoreFirst == 1 then s'.(ignoreFirst := 0, insertVal := FIRST_VALUE, reader := Reloading)
        else s'.(ignoreFirst := s.ignoreFirst - 1)
      else
        var good := s.stream == [Data(RowFor(s.insertedVal))];
        AfterTest(s'.(checked := s.checked + 1, failures := s.failures + if good then 0 else 1,
                      insertedVal := s.insertedVal + 1, insertVal := s.insertedVal + 1), max)
  }

  function Insert(s: State, accepted: bool): State {
    match s.inserter
    case LoopHead => s.(inserter := if s.exitFlag then Stopped else Testing)
    case Testing => s.(inserter := if s.insertVal != 0 then FirstValue else LoopHead)
    case FirstValue => s.(inserter := SecondValue(s.insertVal))
    case SecondValue(x1) => s.(inserter := Clearing(Row(x1, s.insertVal + 100)))
    case Clearing(row) => s.(inserter := Executing(row), insertVal := 0)
    case Executing(row) =>
      if accepted then s.(inserter := LoopHead, table := s.table + [row], stream := s.stream + [Data(row)])
      else s.(inserter := LoopHead, lost := true)
    case Stopped => s
  }

  function Arrive(s: State): State {
    if s.unsent == 0 then s else s.(unsent := s.unsent - 1, stream := s.stream + [Preamble])
  }

  function Next(s: State, step: Step, max: int): State {
    match step
    case ReaderStep => Read(s, max)
    case InserterStep(accepted) => Insert(s, accepted)
    case ArrivalStep => Arrive(s)
    case MainStep => if s.reader.Finished? then s.(exitFlag := true) else s
  }

  /** The state after these steps. */
  function RunFrom(s: State, steps: seq<Step>, max: int): State
    decreases |steps|
  {
    if steps == [] then s else RunFrom(Next(s, steps[0], max), steps[1..], max)
  }

  /** The state after a schedule. */
  function Run(schedule: seq<Step>, max: int): State {
    RunFrom(Init(), schedule, max)
  }

  lemma {:induction false} RunFromJoin(s: State, start: seq<Step>, rest: seq<Step>, max: int)
    ensures RunFrom(s, start + rest, max) == RunFrom(RunFrom(s, start, max), rest, max)
    decreases |start|
  {
    if start == [] {
      assert start + rest == rest;
    } else {
      assert (start + rest)[1..] == start[1..] + rest;
      RunFromJoin(Next(s, start[0], max), start[1..], rest, max);
    }
  }

  lemma RunJoin(start: seq<Step>, rest: seq<Step>, max: int)
    ensures Run(start + rest, max) == RunFrom(Run(start, max), rest, max)
  {
    RunFromJoin(Init(), start, rest, max);
  }

  lemma Reached(start: seq<Step>, rest: seq<Step>, s: State, max: int)
    requires Run(start, max) == s
    ensures Run(start + rest, max) == RunFrom(s, rest, max)
  {
    RunJoin(start, rest, max);
  }

  lemma OneStep(s: State, step: Step, max: int)
    ensures RunFrom(s, [step], max) == Next(s, step, max)
  {
    assert [step][1..] == [];
  }

  lemma RunAppend(schedule: seq<Step>, step: Step, max: int)
    ensures Run(schedule + [step], max) == Next(Run(schedule, max), step, max)
  {
    RunJoin(schedule, [step], max);
    OneStep(Run(schedule, max), step, max);
  }

  // ----- the invariant

  /** The i-th value on its way round, when line 147 read base. */
  function ValueAt(base: int, i: nat): int {
    if i == 0 then FIRST_VALUE else base + i
  }

  predicate Polling(pc: InserterPc) {
    pc == LoopHead || pc == Testing
  }

  predicate Idle(pc: InserterPc) {
    Polling(pc) || pc == Stopped
  }

  /** The value waits in insert_val; the inserter may already be reading it. */
  predicate InMailbox(s: State, v: int) {
    && s.insertVal == v && s.stream == [] && |s.table| == s.checked
    && (Idle(s.inserter) || s.inserter == FirstValue || s.inserter == SecondValue(v)
        || s.inserter == Clearing(RowFor(v)))
  }

  predicate InHand(s: State, v: int) {
    s.insertVal == 0 && s.inserter == Executing(RowFor(v)) && s.stream == [] && |s.table| == s.checked
  }

  predicate InFlight(s: State, v: int) {
    s.insertVal == 0 && Idle(s.inserter) && s.stream == [Data(RowFor(v))] && |s.table| == s.checked + 1
  }

  /** The server refused the value's row. */
  predicate Gone(s: State) {
    s.insertVal == 0 && Idle(s.inserter) && s.stream == [] && |s.table| == s.checked
  }

  /** Exactly one value is on its way, in exactly one place; or a refused INSERT ended its trip. */
  predicate OneToken(s: State, v: int) {
    if s.lost then Gone(s) else InMailbox(s, v) || InHand(s, v) || InFlight(s, v)
  }

  predicate Inv(s: State, max: int) {
    && (s.inserter == Stopped ==> s.exitFlag)
    && (s.exitFlag ==> s.reader == Finished)
    && (forall i :: 0 <= i < |s.table| ==> s.table[i] == RowFor(ValueAt(s.reloaded, i)))
    && (s.reloaded == 0 || s.reloaded == FIRST_VALUE)
    && if s.ignoreFirst > 0 then
         && s.ignoreFirst <= 2 && (forall i :: 0 <= i < |s.stream| ==> s.stream[i] == Preamble)
         && (if s.ignoreFirst == 2 then s.unsent + |s.stream| == 2 else s.unsent + |s.stream| <= 1)
         && s.insertVal == 0 && s.reader == Reading && s.insertedVal == 0 && Polling(s.inserter)
         && s.table == [] && s.checked == s.failures == 0 && !s.lost && s.reloaded == FIRST_VALUE
       else
         && s.ignoreFirst == s.unsent == 0
         && OneToken(s, ValueAt(s.reloaded, s.checked))
         && (s.reader == Reloading ==> s.checked == 0 && s.insertedVal == 0 && s.reloaded == FIRST_VALUE)
         && (s.reader != Reloading ==> s.insertedVal == s.reloaded + s.checked)
         && (s.reader == Reloading || s.reader == Reading ==> s.insertedVal < max)
         && (s.reader == Finished ==> s.insertedVal == max)
         && s.failures == if s.reloaded != FIRST_VALUE && s.checked > 0 then 1 else 0
  }

  lemma ReadKeepsInv(s: State, max: int)
    requires Inv(s, max) && max > FIRST_VALUE
    ensures Inv(Read(s, max), max)
  {
    if s.reader == Reading && s.stream != [] && s.ignoreFirst == 0 {
      var v := ValueAt(s.reloaded, s.checked);
      assert InFlight(s, v);
      assert InMailbox(Read(s, max), v + 1) || s.checked == 0;
    }
  }

  lemma ExecuteKeepsInv(s: State, accepted: bool, max: int)
    requires Inv(s, max) && max > FIRST_VALUE && s.inserter.Executing?
    ensures Inv(Insert(s, accepted), max)
  {
    var v := ValueAt(s.reloaded, s.checked);
    var s' := Insert(s, accepted);
    assert InHand(s, v);
    assert if accepted then InFlight(s', v) else Gone(s');
  }

  lemma TakeKeepsInv(s: State, accepted: bool, max: int)
    requires Inv(s, max) && max > FIRST_VALUE && !Idle(s.inserter) && !s.inserter.Executing?
    ensures Inv(Insert(s, accepted), max)
  {
    var v := ValueAt(s.reloaded, s.checked);
    assert InMailbox(s, v);
    assert if s.inserter.Clearing? then InHand(Insert(s, accepted), v) else InMailbox(Insert(s, accepted), v);
  }

  lemma InsertKeepsInv(s: State, accepted: bool, max: int)
    requires Inv(s, max) && max > FIRST_VALUE
    ensures Inv(Insert(s, accepted), max)
  {
    if s.inserter.Executing? {
      ExecuteKeepsInv(s, accepted, max);
    } else if !Idle(s.inserter) {
      TakeKeepsInv(s, accepted, max);
    }
  }

  lemma NextKeepsInv(s: State, step: Step, max: int)
    requires Inv(s, max) && max > FIRST_VALUE
    ensures Inv(Next(s, step, max), max)
  {
    match step
    case ReaderStep => ReadKeepsInv(s, max);
    case InserterStep(accepted) => InsertKeepsInv(s, accepted, max);
    case ArrivalStep =>
    case MainStep =>
  }

  lemma {:induction false} InvFrom(s: State, steps: seq<Step>, max: int)
    requires Inv(s, max) && max > FIRST_VALUE
    ensures Inv(RunFrom(s, steps, max), max)
    decreases |steps|
  {
    if steps != [] {
      NextKeepsInv(s, steps[0], max);
      InvFrom(Next(s, steps[0], max), steps[1..], max);
    }
  }

  lemma RunKeepsInv(schedule: seq<Step>, max: int)
    requires max > FIRST_VALUE
    ensures Inv(Run(schedule, max), max)
  {
    InvFrom(Init(), schedule, max);
  }

  // ----- safety

  function RowsIn(stream: seq<Message>): nat {
    if stream == [] then 0 else (if stream[0].Data? then 1 else 0) + RowsIn(stream[1..])
  }

  /** How many values are on their way: in insert_val, in the inserter's hands, in the stream. */
  function Tokens(s: State): nat {
    (if s.insertVal != 0 then 1 else 0) + (if s.inserter.Executing? then 1 else 0) + RowsIn(s.stream)
  }

  lemma {:induction false} NoRows(stream: seq<Message>)
    requires forall i :: 0 <= i < |stream| ==> stream[i] == Preamble
    ensures RowsIn(stream) == 0
  {
    if stream != [] {
      NoRows(stream[1..]);
    }
  }

  /**
   In every schedule: one value is on its way from the publication on, for as long as the
   server accepts the rows; so from then on there is never more than one message to read; no
   row is lost or doubled; the rows arrive in order; and a comparison fails exactly when line
   147 did not read back the 10 that line 146 had stored.
   */
  lemma Safety(schedule: seq<Step>, max: int)
    requires max > FIRST_VALUE
    ensures var s := Run(schedule, max);
      && Tokens(s) == (if s.ignoreFirst > 0 || s.lost then 0 else 1)
      && (s.ignoreFirst == 0 ==> |s.stream| <= 1)
      && s.checked <= |s.table| <= s.checked + 1
      && (forall i :: 0 <= i < |s.table| ==>
            s.table[i] == if i == 0 then Row(10, 110) else Row(s.reloaded + i, s.reloaded + i + 100))
      && (s.reloaded == 0 || s.reloaded == 10)
      && (s.failures == 0 <==> s.reloaded == FIRST_VALUE || s.checked == 0)
  {
    RunKeepsInv(schedule, max);
    var s := Run(schedule, max);
    if s.ignoreFirst > 0 {
      NoRows(s.stream);
    } else if s.stream != [] {
      assert RowsIn(s.stream[1..]) == 0;
    }
  }

  /** The reader finds a row wrong exactly if one of its two values differs; then it asks for the next. */
  lemma ReadCompares(s: State, x1: int, fl: int, max: int)
    requires s.reader == Reading && s.ignoreFirst == 0 && s.stream == [Data(Row(x1, fl))]
    ensures var t := Read(s, max);
      && t.failures == s.failures + (if x1 != s.insertedVal || fl != s.insertedVal + 100 then 1 else 0)
      && t.checked == s.checked + 1 && t.insertedVal == t.insertVal == s.insertedVal + 1
      && (t.reader == Finished <==> t.insertedVal >= max)
  {
    assert s.stream[0] == Data(Row(x1, fl));
  }

  /** Line 147 reads the 10 exactly when the inserter has not cleared it yet, and 0 otherwise. */
  lemma WhatReloadReads(schedule: seq<Step>, max: int)
    requires max > FIRST_VALUE && Run(schedule, max).reader == Reloading
    ensures var s := Run(schedule, max); var s' := Run(schedule + [ReaderStep], max);
      if s.inserter.Executing? || s.stream != [] || s.lost then s'.reloaded == 0 else s'.reloaded == FIRST_VALUE
  {
    RunKeepsInv(schedule, max);
    RunAppend(schedule, ReaderStep, max);
  }

  lemma ReloadedStep(s: State, step: Step, max: int)
    requires s.ignoreFirst == 0 && s.reader != Reloading
    ensures var s' := Next(s, step, max); s'.ignoreFirst == 0 && s'.reader != Reloading && s'.reloaded == s.reloaded
  {
  }

  /** Line 147 runs once. */
  lemma {:induction false} ReloadedStays(s: State, rest: seq<Step>, max: int)
    requires s.ignoreFirst == 0 && s.reader != Reloading
    ensures RunFrom(s, rest, max).reloaded == s.reloaded
    decreases |rest|
  {
    if rest != [] {
      ReloadedStep(s, rest[0], max);
      ReloadedStays(Next(s, rest[0], max), rest[1..], max);
    }
  }

  /** A reader that publishes in one go, lines 146 and 147 together, never sees a wrong row. */
  lemma PublishInOneGo(schedule: seq<Step>, rest: seq<Step>, max: int)
    requires max > FIRST_VALUE
    requires Run(schedule, max).ignoreFirst == 1 && Run(schedule, max).stream != []
    ensures var s := Run(schedule + [ReaderStep] + [ReaderStep] + rest, max);
      && s.failures == 0
      && forall i :: 0 <= i < |s.table| ==> s.table[i] == Row(10 + i, 110 + i)
  {
    var start := schedule + [ReaderStep] + [ReaderStep];
    RunKeepsInv(schedule, max);
    RunAppend(schedule, ReaderStep, max);
    RunAppend(schedule + [ReaderStep], ReaderStep, max);
    RunJoin(start, rest, max);
    ReloadedStays(Run(start, max), rest, max);
    Safety(start + rest, max);
  }

  /** The inserter takes the 10 between lines 146 and 147. */
  function TakenEarly(): State {
    Init().(reader := Reloading, ignoreFirst := 0, unsent := 0, inserter := Executing(RowFor(FIRST_VALUE)))
  }

  function FiveInserts(): seq<Step> {
    seq(5, _ => InserterStep(true))
  }

  function BothRead(): seq<Step> {
    [ArrivalStep, ReaderStep] + [ArrivalStep, ReaderStep]
  }

  /** Both first messages, each read when it arrives, and the inserter up to the clearing. */
  function EarlySchedule(): seq<Step> {
    BothRead() + FiveInserts()
  }

  /** A first message that arrives and is read at once. */
  lemma ArriveAndRead(s: State, max: int)
    requires s.unsent > 0 && s.stream == [] && s.reader == Reading && s.ignoreFirst > 0
    ensures RunFrom(s, [ArrivalStep, ReaderStep], max) == Read(s.(unsent := s.unsent - 1, stream := [Preamble]), max)
  {
    assert [ArrivalStep, ReaderStep][1..] == [ReaderStep];
    OneStep(Arrive(s), ReaderStep, max);
  }

  /** Five steps of the inserter take it from the head of its loop past the clearing. */
  lemma TakeAndClear(s: State, max: int)
    requires s.insertVal != 0 && s.inserter == LoopHead && !s.exitFlag
    ensures RunFrom(s, FiveInserts(), max)
         == s.(insertVal := 0, inserter := Executing(RowFor(s.insertVal)))
  {
    var i := InserterStep(true);
    assert FiveInserts() == [i] + ([i] + ([i] + ([i] + [i])));
    var s1 := s.(inserter := Testing);
    var s2 := s.(inserter := FirstValue);
    var s3 := s.(inserter := SecondValue(s.insertVal));
    var s4 := s.(inserter := Clearing(RowFor(s.insertVal)));
    FirstStep(s, i, [i] + ([i] + ([i] + [i])), max);
    FirstStep(s1, i, [i] + ([i] + [i]), max);
    FirstStep(s2, i, [i] + [i], max);
    FirstStep(s3, i, [i], max);
    OneStep(s4, i, max);
  }

  lemma FirstStep(s: State, step: Step, rest: seq<Step>, max: int)
    ensures RunFrom(s, [step] + rest, max) == RunFrom(Next(s, step, max), rest, max)
  {
    assert ([step] + rest)[1..] == rest;
  }

  lemma ReadTwice(s: State, max: int)
    requires s.unsent == s.ignoreFirst == 2 && s.stream == [] && s.reader == Reading
    ensures RunFrom(s, BothRead(), max)
         == s.(unsent := 0, ignoreFirst := 0, insertVal := FIRST_VALUE, reader := Reloading)
  {
    ArriveAndRead(s, max);
    ArriveAndRead(s.(unsent := 1, ignoreFirst := 1), max);
    RunFromJoin(s, [ArrivalStep, ReaderStep], [ArrivalStep, ReaderStep], max);
  }

  lemma RaceToClear(max: int)
    ensures Run(EarlySchedule(), max) == TakenEarly()
  {
    ReadTwice(Init(), max);
    RunJoin(BothRead(), FiveInserts(), max);
    TakeAndClear(Run(BothRead(), max), max);
  }

  /**
   The window is real: an inserter that picks up and clears the 10 before line 147 makes the
   reader expect 0, and the first row is reported as wrong.
   */
  lemma ReloadRace(max: int)
    requires max > FIRST_VALUE
    ensures exists schedule :: Run(schedule, max).reloaded == 0 && Run(schedule, max).failures == 1
  {
    RaceIsRun(max);
    assert Run(RaceSchedule(), max).failures == 1;
  }

  function RaceSchedule(): seq<Step> {
    EarlySchedule() + ([ReaderStep] + ([InserterStep(true)] + [ReaderStep]))
  }

  lemma RaceIsRun(max: int)
    requires max > FIRST_VALUE
    ensures Run(RaceSchedule(), max).reloaded == 0 && Run(RaceSchedule(), max).failures == 1
  {
    RaceToClear(max);
    Reached(EarlySchedule(), [ReaderStep] + ([InserterStep(true)] + [ReaderStep]), TakenEarly(), max);
    WrongRow(TakenEarly(), max);
  }

  /** The 0 is read back, the row with the 10 is inserted, and the reader compares the two. */
  lemma WrongRow(s: State, max: int)
    requires s.reader == Reloading && s.insertVal == 0 && s.ignoreFirst == 0 && s.stream == []
    requires s.inserter == Executing(RowFor(FIRST_VALUE)) && max > FIRST_VALUE
    ensures var t := RunFrom(s, [ReaderStep] + ([InserterStep(true)] + [ReaderStep]), max);
      t.reloaded == 0 && t.failures == s.failures + 1
  {
    var s1 := Read(s, max);
    var s2 := Insert(s1, true);
    FirstStep(s, ReaderStep, [InserterStep(true)] + [ReaderStep], max);
    FirstStep(s1, InserterStep(true), [ReaderStep], max);
    OneStep(s2, ReaderStep, max);
    assert s2.stream == [Data(RowFor(FIRST_VALUE))] && s2.insertedVal == 0;
  }

  // ----- progress

  /** A step that waits for the other side: it changes nothing but the place in a polling loop. */
  predicate Waits(s: State, step: Step) {
    match step
    case ReaderStep => s.reader == Finished || (s.reader == Reading && s.stream == [])
    case InserterStep(_) => s.inserter == Stopped || (Polling(s.inserter) && s.insertVal == 0)
    case ArrivalStep => s.unsent == 0
    case MainStep => s.reader != Finished || s.exitFlag
  }

  /** How far the value is from being read back. */
  function Distance(s: State): nat {
    if s.insertVal != 0 then
      match s.inserter
      case LoopHead => 7
      case Testing => 6
      case FirstValue => 5
      case SecondValue(_) => 4
      case _ => 3
    else if s.inserter.Executing? then 2
    else RowsIn(s.stream)
  }

  function Measure(s: State, max: int): int {
    s.unsent + 9 * s.ignoreFirst + 8 * (max - s.insertedVal) + Distance(s) + if s.reader == Reloading then 1 else 0
  }

  /** Row messages still in the stream: none or one. */
  lemma StreamRows(s: State, max: int)
    requires Inv(s, max)
    ensures RowsIn(s.stream) == if s.ignoreFirst == 0 && s.stream != [] then 1 else 0
    ensures forall row :: s.stream == [] ==> RowsIn(s.stream + [Data(row)]) == 1
    ensures s.unsent > 0 ==> RowsIn(s.stream + [Preamble]) == 0
  {
    if s.ignoreFirst > 0 {
      NoRows(s.stream);
      NoRows(s.stream + [Preamble]);
    } else if s.stream != [] {
      assert RowsIn(s.stream[1..]) == 0;
    }
    assert forall row :: s.stream == [] ==> s.stream + [Data(row)] == [Data(row)];
  }

  lemma ReadProgress(s: State, max: int)
    requires Inv(s, max) && max > FIRST_VALUE && s.reader != Finished && !Waits(s, ReaderStep)
    ensures Measure(Read(s, max), max) < Measure(s, max)
  {
    StreamRows(s, max);
  }

  lemma InsertProgress(s: State, accepted: bool, max: int)
    requires Inv(s, max) && s.reader != Finished
    ensures var m := Measure(Insert(s, accepted), max);
      if Waits(s, InserterStep(accepted)) then m == Measure(s, max) else m < Measure(s, max)
  {
    StreamRows(s, max);
  }

  /** Every step that does not wait brings the end nearer, and waiting changes nothing. */
  lemma StepProgress(s: State, step: Step, max: int)
    requires Inv(s, max) && max > FIRST_VALUE && s.reader != Finished
    ensures var m := Measure(Next(s, step, max), max);
      if Waits(s, step) then m == Measure(s, max) else m < Measure(s, max)
  {
    match step
    case ReaderStep => if !Waits(s, step) { ReadProgress(s, max); }
    case InserterStep(accepted) => InsertProgress(s, accepted, max);
    case ArrivalStep => StreamRows(s, max);
    case MainStep =>
  }

  lemma MeasurePositive(s: State, max: int)
    requires Inv(s, max) && max > FIRST_VALUE
    ensures Measure(s, max) >= 0 && (s.reader != Finished ==> Measure(s, max) > 0)
  {
  }

  // ----- deadlock

  /** Nobody can do anything but wait. */
  predicate Stuck(s: State) {
    s.reader != Finished && Waits(s, ReaderStep) && Waits(s, InserterStep(true)) && Waits(s, ArrivalStep)
  }

  /** Both first messages are gone, and the reader still counts on another. */
  predicate Swallowed(s: State) {
    s.ignoreFirst > 0 && s.unsent == 0 && s.stream == []
  }

  /** Both first messages have arrived and none is read. */
  predicate BothPending(s: State) {
    s.ignoreFirst == 2 && |s.stream| == 2
  }

  /**
   The threads are stuck exactly when the server has refused an INSERT and the reader is back
   in its loop, or when one read has taken both of the first messages.
   */
  lemma DeadlockCauses(schedule: seq<Step>, max: int)
    requires max > FIRST_VALUE
    ensures var s := Run(schedule, max);
      Stuck(s) <==> (s.lost && s.reader == Reading) || Swallowed(s)
  {
    RunKeepsInv(schedule, max);
    StuckWhen(Run(schedule, max), max);
  }

  lemma StuckWhen(s: State, max: int)
    requires Inv(s, max) && max > FIRST_VALUE
    ensures Stuck(s) <==> (s.lost && s.reader == Reading) || Swallowed(s)
  {
  }

  /** Of arrivals and reads, an arrival comes next. */
  predicate ArrivalFirst(schedule: seq<Step>) {
    schedule != [] && schedule[0] != ReaderStep && (schedule[0] == ArrivalStep || ArrivalFirst(schedule[1..]))
  }

  /** There is no read between the arrivals of the first two messages. */
  predicate Together(schedule: seq<Step>) {
    schedule != [] && if schedule[0] == ArrivalStep then ArrivalFirst(schedule[1..]) else Together(schedule[1..])
  }

  /** Once both are pending or swallowed it stays so; once one has been read in time, too. */
  lemma {:induction false} FateOfMessages(s: State, rest: seq<Step>, max: int)
    requires Inv(s, max) && max > FIRST_VALUE
    ensures var t := RunFrom(s, rest, max);
      && (BothPending(s) || Swallowed(s) ==> BothPending(t) || Swallowed(t))
      && (s.ignoreFirst < 2 && !Swallowed(s) ==> t.ignoreFirst < 2 && !Swallowed(t))
    decreases |rest|
  {
    if rest != [] {
      NextKeepsInv(s, rest[0], max);
      FateStep(s, rest[0], max);
      FateOfMessages(Next(s, rest[0], max), rest[1..], max);
    }
  }

  lemma FateStep(s: State, step: Step, max: int)
    requires Inv(s, max) && max > FIRST_VALUE
    ensures var t := Next(s, step, max);
      && (BothPending(s) || Swallowed(s) ==> BothPending(t) || Swallowed(t))
      && (s.ignoreFirst < 2 && !Swallowed(s) ==> t.ignoreFirst < 2 && !Swallowed(t))
  {
  }

  lemma {:induction false} OnePending(s: State, rest: seq<Step>, max: int)
    requires Inv(s, max) && max > FIRST_VALUE && s.ignoreFirst == 2 && s.unsent == 1
    ensures var t := RunFrom(s, rest, max); ArrivalFirst(rest) <==> BothPending(t) || Swallowed(t)
    decreases |rest|
  {
    if rest != [] {
      var t := Next(s, rest[0], max);
      NextKeepsInv(s, rest[0], max);
      if rest[0] == ReaderStep || rest[0] == ArrivalStep {
        FateOfMessages(t, rest[1..], max);
      } else {
        OnePending(t, rest[1..], max);
      }
    }
  }

  lemma {:induction false} NonePending(s: State, rest: seq<Step>, max: int)
    requires Inv(s, max) && max > FIRST_VALUE && s.ignoreFirst == 2 && s.unsent == 2
    ensures var t := RunFrom(s, rest, max); Together(rest) <==> BothPending(t) || Swallowed(t)
    decreases |rest|
  {
    if rest != [] {
      var t := Next(s, rest[0], max);
      NextKeepsInv(s, rest[0], max);
      if rest[0] == ArrivalStep {
        OnePending(t, rest[1..], max);
      } else {
        NonePending(t, rest[1..], max);
      }
    }
  }

  /** The messages are swallowed by the next read exactly if they arrive without a read between them. */
  lemma TogetherIsSwallowed(schedule: seq<Step>, max: int)
    requires max > FIRST_VALUE
    ensures Together(schedule) <==> Swallowed(Run(schedule + [ReaderStep], max))
  {
    NonePending(Init(), schedule, max);
    RunKeepsInv(schedule, max);
    RunAppend(schedule, ReaderStep, max);
  }

  /** Only the inserter's place in its polling loop may differ. */
  predicate SameButPolling(s: State, t: State) {
    && t == s.(inserter := t.inserter)
    && (t.inserter == s.inserter || (s.insertVal == 0 && Polling(s.inserter) && Polling(t.inserter)))
  }

  lemma WaitingChangesNothing(s: State, step: Step, max: int)
    requires Waits(s, step) && !s.exitFlag
    ensures SameButPolling(s, Next(s, step, max))
  {
  }

  lemma StuckStep(s: State, step: Step, max: int)
    requires Stuck(s) && !s.exitFlag
    ensures SameButPolling(s, Next(s, step, max)) && Stuck(Next(s, step, max))
  {
  }

  lemma {:induction false} StuckStays(s: State, rest: seq<Step>, max: int)
    requires Stuck(s) && !s.exitFlag
    ensures SameButPolling(s, RunFrom(s, rest, max)) && Stuck(RunFrom(s, rest, max))
    decreases |rest|
  {
    if rest != [] {
      StuckStep(s, rest[0], max);
      StuckStays(Next(s, rest[0], max), rest[1..], max);
    }
  }

  /** The deadlock lasts: the reader never stops, and no row is inserted or compared again. */
  lemma DeadlockLasts(start: seq<Step>, rest: seq<Step>, max: int)
    requires max > FIRST_VALUE && Stuck(Run(start, max))
    ensures Stuck(Run(start + rest, max)) && SameButPolling(Run(start, max), Run(start + rest, max))
  {
    RunKeepsInv(start, max);
    RunJoin(start, rest, max);
    StuckStays(Run(start, max), rest, max);
  }

  /** One refused INSERT is enough, and the first one can be it. */
  lemma RefusalDeadlocks(max: int)
    requires max > FIRST_VALUE
    ensures exists schedule :: Run(schedule, max).lost && Stuck(Run(schedule, max)) && !Together(schedule)
  {
    var rest := [InserterStep(false)] + [ReaderStep];
    RaceToClear(max);
    Reached(EarlySchedule(), rest, TakenEarly(), max);
    RefusedIsStuck(TakenEarly(), max);
    ReadApart(EarlySchedule() + rest);
    assert Run(EarlySchedule() + rest, max).lost;
  }

  lemma RefusedIsStuck(s: State, max: int)
    requires s.reader == Reloading && s.insertVal == 0 && s.inserter.Executing? && s.stream == []
    requires s.unsent == 0 && max > FIRST_VALUE
    ensures var t := RunFrom(s, [InserterStep(false)] + [ReaderStep], max); t.lost && Stuck(t)
  {
    FirstStep(s, InserterStep(false), [ReaderStep], max);
    OneStep(Insert(s, false), ReaderStep, max);
  }

  lemma ReadApart(schedule: seq<Step>)
    requires |schedule| >= 2 && schedule[0] == ArrivalStep && schedule[1] == ReaderStep
    ensures !Together(schedule)
  {
    assert schedule[1..][0] == ReaderStep;
  }

  // ----- how long it takes

  /** The steps that did not wait, up to the end of the reader. */
  function MovesFrom(s: State, steps: seq<Step>, max: int): nat
    decreases |steps|
  {
    if steps == [] then 0 else
    (if s.reader != Finished && !Waits(s, steps[0]) then 1 else 0) + MovesFrom(Next(s, steps[0], max), steps[1..], max)
  }

  function Moves(schedule: seq<Step>, max: int): nat {
    MovesFrom(Init(), schedule, max)
  }

  lemma FinishedStep(s: State, step: Step, max: int)
    requires s.reader == Finished
    ensures Next(s, step, max).reader == Finished
  {
  }

  lemma {:induction false} FinishedStays(s: State, rest: seq<Step>, max: int)
    requires s.reader == Finished
    ensures RunFrom(s, rest, max).reader == Finished && MovesFrom(s, rest, max) == 0
    decreases |rest|
  {
    if rest != [] {
      FinishedStep(s, rest[0], max);
      FinishedStays(Next(s, rest[0], max), rest[1..], max);
    }
  }

  /** A step that does not wait uses up some of the measure. */
  lemma StepIsPaidFor(s: State, step: Step, max: int)
    requires Inv(s, max) && max > FIRST_VALUE && s.reader != Finished
    ensures (if Waits(s, step) then 0 else 1) + Measure(Next(s, step, max), max) <= Measure(s, max)
    ensures Inv(Next(s, step, max), max) && Measure(Next(s, step, max), max) >= 0
  {
    NextKeepsInv(s, step, max);
    StepProgress(s, step, max);
    MeasurePositive(Next(s, step, max), max);
  }

  lemma {:induction false} MovesArePaidFor(s: State, steps: seq<Step>, max: int)
    requires Inv(s, max) && max > FIRST_VALUE && s.reader != Finished
    ensures MovesFrom(s, steps, max) <= Measure(s, max)
    ensures RunFrom(s, steps, max).reader != Finished ==>
      MovesFrom(s, steps, max) + Measure(RunFrom(s, steps, max), max) <= Measure(s, max)
    decreases |steps|
  {
    if steps == [] {
      MeasurePositive(s, max);
    } else {
      var t := Next(s, steps[0], max);
      StepIsPaidFor(s, steps[0], max);
      if t.reader == Finished {
        FinishedStays(t, steps[1..], max);
      } else {
        MovesArePaidFor(t, steps[1..], max);
      }
    }
  }

  /** However long the threads poll, the reader is done or stuck within 8 max + 20 steps that do not wait. */
  lemma BoundedMoves(schedule: seq<Step>, max: int)
    requires max > FIRST_VALUE
    ensures Moves(schedule, max) <= 8 * max + 20
  {
    NoRows(Init().stream);
    MovesArePaidFor(Init(), schedule, max);
  }

  /** When the reader stops it has compared max - 10 rows, all good; or max rows and one failure. */
  lemma AtTheEnd(schedule: seq<Step>, max: int)
    requires max > FIRST_VALUE && Run(schedule, max).reader == Finished
    ensures var s := Run(schedule, max);
      && (s.reloaded == FIRST_VALUE ==> s.checked == max - FIRST_VALUE && s.failures == 0)
      && (s.reloaded != FIRST_VALUE ==> s.checked == max && s.failures == 1)
      && |s.table| <= s.checked + 1
  {
    RunKeepsInv(schedule, max);
  }

  /** Steps the inserter still takes once exit_flag is set. */
  function ToStop(pc: InserterPc): nat {
    match pc
    case Stopped => 0
    case LoopHead => 1
    case Executing(_) => 2
    case Clearing(_) => 3
    case SecondValue(_) => 4
    case FirstValue => 5
    case Testing => 6
  }

  function InserterSteps(schedule: seq<Step>): nat {
    if schedule == [] then 0
    else (if schedule[0].InserterStep? then 1 else 0) + InserterSteps(schedule[1..])
  }

  lemma LateStep(s: State, step: Step, max: int)
    requires s.exitFlag && s.reader == Finished
    ensures var s' := Next(s, step, max);
      && s'.exitFlag && s'.reader == Finished
      && (s.inserter == Stopped ==> s'.inserter == Stopped)
      && ToStop(s'.inserter) <= ToStop(s.inserter)
      && (step.InserterStep? && s.inserter != Stopped ==> ToStop(s'.inserter) < ToStop(s.inserter))
  {
  }

  lemma {:induction false} LateSteps(s: State, rest: seq<Step>, max: int)
    requires s.exitFlag && s.reader == Finished
    ensures var t := RunFrom(s, rest, max);
      && t.exitFlag && t.reader == Finished
      && (t.inserter == Stopped || ToStop(t.inserter) + InserterSteps(rest) <= ToStop(s.inserter))
    decreases |rest|
  {
    if rest != [] {
      LateStep(s, rest[0], max);
      LateSteps(Next(s, rest[0], max), rest[1..], max);
    }
  }

  /** Once exit_flag is set, the inserter stops with the sixth of its steps at the latest. */
  lemma StopsAfterFlag(start: seq<Step>, rest: seq<Step>, max: int)
    requires max > FIRST_VALUE && Run(start, max).exitFlag
    ensures Run(start + rest, max).exitFlag && Run(start + rest, max).reader == Finished
    ensures InserterSteps(rest) >= 6 ==> Run(start + rest, max).inserter == Stopped
  {
    RunKeepsInv(start, max);
    RunJoin(start, rest, max);
    LateSteps(Run(start, max), rest, max);
  }

  /**
   When the reader is done, main sets exit_flag, and not before. Six steps of the inserter
   later it has stopped, whatever else goes on, so the join returns.
   */
  lemma InserterStops(start: seq<Step>, rest: seq<Step>, max: int)
    requires max > FIRST_VALUE
    ensures Run(start + [MainStep], max).exitFlag <==> Run(start, max).reader == Finished
    ensures Run(start, max).reader == Finished && InserterSteps(rest) >= 6 ==>
      Run(start + [MainStep] + rest, max).inserter == Stopped
  {
    RunKeepsInv(start, max);
    RunAppend(start, MainStep, max);
    if Run(start, max).reader == Finished {
      StopsAfterFlag(start + [MainStep], rest, max);
    }
  }

  // ----- liveness under fair schedules

  /** Everybody has a turn, and no INSERT is refused. */
  predicate Fair(round: seq<Step>) {
    && ReaderStep in round && InserterStep(true) in round && ArrivalStep in round
    && InserterStep(false) !in round
  }

  function Joined(rounds: seq<seq<Step>>): seq<Step> {
    if rounds == [] then [] else rounds[0] + Joined(rounds[1..])
  }

  lemma {:induction false} MovesJoin(s: State, start: seq<Step>, rest: seq<Step>, max: int)
    ensures MovesFrom(s, start + rest, max)
         == MovesFrom(s, start, max) + MovesFrom(RunFrom(s, start, max), rest, max)
    decreases |start|
  {
    if start == [] {
      assert start + rest == rest;
    } else {
      assert (start + rest)[1..] == start[1..] + rest;
      MovesJoin(Next(s, start[0], max), start[1..], rest, max);
    }
  }

  lemma SameWaits(s: State, t: State, step: Step)
    requires SameButPolling(s, t)
    ensures Waits(s, step) <==> Waits(t, step)
  {
  }

  /** If all steps wait, each of them would have waited at the start. */
  lemma {:induction false} NoMoveMeansWaiting(s: State, steps: seq<Step>, step: Step, max: int)
    requires s.reader != Finished && !s.exitFlag
    requires MovesFrom(s, steps, max) == 0 && step in steps
    ensures Waits(s, step)
    decreases |steps|
  {
    if step != steps[0] {
      var t := Next(s, steps[0], max);
      WaitingChangesNothing(s, steps[0], max);
      NoMoveMeansWaiting(t, steps[1..], step, max);
      SameWaits(s, t, step);
    }
  }

  lemma KeptStep(s: State, step: Step, max: int)
    requires !s.lost && step != InserterStep(false)
    ensures !Next(s, step, max).lost
  {
  }

  lemma {:induction false} NoRefusal(s: State, steps: seq<Step>, max: int)
    requires !s.lost && InserterStep(false) !in steps
    ensures !RunFrom(s, steps, max).lost
    decreases |steps|
  {
    if steps != [] {
      KeptStep(s, steps[0], max);
      NoRefusal(Next(s, steps[0], max), steps[1..], max);
    }
  }

  /** A fair round moves on, unless the reader is done or the first messages are swallowed. */
  lemma RoundMoves(s: State, round: seq<Step>, max: int)
    requires Inv(s, max) && max > FIRST_VALUE && Fair(round)
    requires s.reader != Finished && !s.lost && !Swallowed(s)
    ensures MovesFrom(s, round, max) > 0
  {
    if MovesFrom(s, round, max) == 0 {
      NoMoveMeansWaiting(s, round, ReaderStep, max);
      NoMoveMeansWaiting(s, round, InserterStep(true), max);
      NoMoveMeansWaiting(s, round, ArrivalStep, max);
      StuckWhen(s, max);
    }
  }

  lemma {:induction false} RoundsMove(s: State, rounds: seq<seq<Step>>, max: int)
    requires Inv(s, max) && max > FIRST_VALUE && !s.lost
    requires forall k :: 0 <= k < |rounds| ==> Fair(rounds[k])
    ensures var t := RunFrom(s, Joined(rounds), max);
      t.reader == Finished || Swallowed(t) || MovesFrom(s, Joined(rounds), max) >= |rounds|
    decreases |rounds|
  {
    if rounds != [] {
      var round, rest := rounds[0], rounds[1..];
      var t := RunFrom(s, round, max);
      RunFromJoin(s, round, Joined(rest), max);
      MovesJoin(s, round, Joined(rest), max);
      InvFrom(s, round, max);
      NoRefusal(s, round, max);
      RoundsMove(t, rest, max);
      if s.reader == Finished {
        FinishedStays(s, round, max);
        FinishedStays(t, Joined(rest), max);
      } else if Swallowed(s) {
        StuckWhen(s, max);
        StuckStays(s, round, max);
        StuckStays(t, Joined(rest), max);
      } else {
        RoundMoves(s, round, max);
      }
    }
  }

  /**
   Any schedule of 8 max + 20 rounds in which everybody gets a turn and no INSERT is refused,
   whatever else the rounds hold: the reader comes to its end exactly if it has read between
   the arrivals of the first two messages.
   */
  lemma FairSchedulesFinish(rounds: seq<seq<Step>>, max: int)
    requires max > FIRST_VALUE && |rounds| >= 8 * max + 20
    requires forall k :: 0 <= k < |rounds| ==> Fair(rounds[k])
    ensures var s := Run(Joined(rounds), max);
      && (s.reader == Finished <==> !Together(Joined(rounds)))
      && (s.reader == Finished && s.reloaded == FIRST_VALUE ==> s.failures == 0 && s.checked == max - FIRST_VALUE)
  {
    var schedule := Joined(rounds);
    RoundsMove(Init(), rounds, max);
    NonePending(Init(), schedule, max);
    RunKeepsInv(schedule, max);
    MovesAtTheEnd(schedule, max);
  }

  lemma MovesAtTheEnd(schedule: seq<Step>, max: int)
    requires max > FIRST_VALUE
    ensures Run(schedule, max).reader != Finished ==> MovesFrom(Init(), schedule, max) < 8 * max + 20
  {
    NoRows(Init().stream);
    MovesArePaidFor(Init(), schedule, max);
    RunKeepsInv(schedule, max);
    MeasurePositive(Run(schedule, max), max);
  }

  // ----- the threads themselves

  /** The global variables, the locals of the two threads, and the server. */
  class CdcTest {
    var insertVal: int
    var exitFlag: bool
    var reader: ReaderPc
    var insertedVal: int
    var ignoreFirst: int
    var inserter: InserterPc
    var unsent: nat
    var stream: seq<Message>
    var table: seq<Row>
    var checked: nat
    var failures: nat
    var reloaded: int
    var lost: bool

    function Snapshot(): State
      reads this
    {
      State(insertVal, exitFlag, reader, insertedVal, ignoreFirst, inserter,
            unsent, stream, table, checked, failures, reloaded, lost)
    }

    constructor ()
      ensures Snapshot() == Init()
    {
      insertVal, exitFlag := 0, false;
      reader, insertedVal, ignoreFirst := Reading, 0, 2;
      inserter, unsent, stream, table := LoopHead, 2, [], [];
      checked, failures, reloaded, lost := 0, 0, FIRST_VALUE, false;
    }

    /** cdc_com, lines 119 to 173: one pass of the loop, cut in two where it publishes the 10. */
    method CdcCom(max: int)
      modifies this
      ensures Snapshot() == Read(old(Snapshot()), max)
    {
      if reader == Reloading {
        insertedVal := insertVal;
        reloaded := insertVal;
        reader := Reading;
      } else if reader == Finished || stream == [] {
        return;
      } else {
        var json := stream;
        stream := [];
        if ignoreFirst > 0 {
          ignoreFirst := ignoreFirst - 1;
          if ignoreFirst == 0 {
            insertVal := FIRST_VALUE;
            reader := Reloading;
          }
          return;
        }
        if json != [Data(Row(insertedVal, insertedVal + 100))] {
          failures := failures + 1;
        }
        checked := checked + 1;
        insertedVal := insertedVal + 1;
        insertVal := insertedVal;
      }
      if insertedVal >= max {
        reader := Finished;
      }
    }

    /** query_thread, lines 242 to 251: the next access to shared data. */
    method QueryThread(accepted: bool)
      modifies this
      ensures Snapshot() == Insert(old(Snapshot()), accepted)
    {
      match inserter {
        case LoopHead =>
          inserter := if exitFlag then Stopped else Testing;
        case Testing =>
          inserter := if insertVal != 0 then FirstValue else LoopHead;
        case FirstValue =>
          inserter := SecondValue(insertVal);
        case SecondValue(x1) =>
          inserter := Clearing(Row(x1, insertVal + 100));
        case Clearing(row) =>
          insertVal := 0;
          inserter := Executing(row);
        case Executing(row) =>
          if accepted {
            table := table + [row];
            stream := stream + [Data(row)];
          } else {
            lost := true;
          }
          inserter := LoopHead;
        case Stopped =>
      }
    }

    /** The server sends one of the first two messages. */
    method MessageArrives()
      modifies this
      ensures Snapshot() == Arrive(old(Snapshot()))
    {
      if unsent > 0 {
        unsent, stream := unsent - 1, stream + [Preamble];
      }
    }

    /** One thread moves, or a message arrives; main sets exit_flag after the reader. */
    method Turn(step: Step, max: int)
      modifies this
      ensures Snapshot() == Next(old(Snapshot()), step, max)
    {
      match step {
        case ReaderStep => CdcCom(max);
        case InserterStep(accepted) => QueryThread(accepted);
        case ArrivalStep => MessageArrives();
        case MainStep => if reader == Finished { exitFlag := true; }
      }
    }

    /** Any interleaving of the threads, from a fresh start. */
    method Play(schedule: seq<Step>, max: int)
      requires Snapshot() == Init() && max > FIRST_VALUE
      modifies this
      ensures Snapshot() == Run(schedule, max)
      ensures reader == Finished && reloaded == FIRST_VALUE ==> failures == 0 && checked == max - FIRST_VALUE
    {
      var k := 0;
      while k < |schedule|
        invariant 0 <= k <= |schedule|
        invariant Snapshot() == Run(schedule[..k], max)
      {
        RunAppend(schedule[..k], schedule[k], max);
        assert schedule[..k + 1] == schedule[..k] + [schedule[k]];
        Turn(schedule[k], max);
        k := k + 1;
      }
      assert schedule[..k] == schedule;
      if reader == Finished {
        AtTheEnd(schedule, max);
      }
    }
  }
}
