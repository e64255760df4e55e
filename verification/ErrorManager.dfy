/**
  The error manager: handlers by priority, a sticky panic mode, and a circular log.
 */
module ErrorManager {
  import opened Wrappers
  import opened Priorities
  import opened RingBuffers
  import opened TrapTypes

  const LOG_CAPACITY: nat := 256

  datatype ErrorHandler = ErrorHandler(
    priority: nat, source: Option<ErrorSource>, level: Option<ErrorLevel>, run: SystemError -> ErrorResult)

  function Priority(h: ErrorHandler): nat { h.priority }

  /** A handler takes errors of its source and level; a missing filter takes all. */
  predicate Matches(h: ErrorHandler, e: SystemError) {
    && (h.source.Some? ==> h.source.value == e.code.Source())
    && (h.level.Some? ==> h.level.value == e.code.Level())
  }

  // ---------------------------------------------------------------- one error through a list of handlers

  /** The handlers that get to see the error: the matching ones, up to the first that handles it. */
  function Asked(hs: seq<ErrorHandler>, e: SystemError): seq<ErrorHandler> {
    if hs == [] then []
    else if !Matches(hs[0], e) then Asked(hs[1..], e)
    else if hs[0].run(e) == Handled then [hs[0]]
    else [hs[0]] + Asked(hs[1..], e)
  }

  /** Handled if someone handled it, partial if someone at least helped. */
  ghost function Outcome(asked: seq<ErrorHandler>, e: SystemError): ErrorResult {
    if exists h :: h in asked && h.run(e) == Handled then Handled
    else if exists h :: h in asked && h.run(e) == Partial then Partial
    else Unhandled
  }

  /** The matching handlers, in order. */
  function Matching(hs: seq<ErrorHandler>, e: SystemError): seq<ErrorHandler> {
    if hs == [] then [] else (if Matches(hs[0], e) then [hs[0]] else []) + Matching(hs[1..], e)
  }

  /**
    The handlers asked are the matching ones in order, cut behind the first that handles the error:
    only the last one asked can have handled it, and if none did, none was left out.
   */
  lemma {:induction false} AskedFacts(hs: seq<ErrorHandler>, e: SystemError)
    ensures Asked(hs, e) <= Matching(hs, e)
    ensures forall i | 0 <= i < |Asked(hs, e)| - 1 :: Asked(hs, e)[i].run(e) != Handled
    ensures (forall h | h in Asked(hs, e) :: h.run(e) != Handled) ==> Asked(hs, e) == Matching(hs, e)
    ensures forall h :: h in Matching(hs, e) <==> h in hs && Matches(h, e)
  {
    if hs != [] {
      AskedFacts(hs[1..], e);
      assert hs == [hs[0]] + hs[1..];
    }
  }

  /**
    Which handlers match an error made with source `s` and level `l`: those whose source filter is missing or
    `s` and whose level filter is missing or `l`.
   */
  lemma MatchingExact(hs: seq<ErrorHandler>, e: SystemError, s: ErrorSource, l: ErrorLevel, n: bv16)
    requires e.code == NewCode(s, l, n)
    ensures forall h :: h in Matching(hs, e) <==>
              h in hs && (h.source == None || h.source == Some(s)) && (h.level == None || h.level == Some(l))
  {
    hide NewCode, ErrorCode.Source, ErrorCode.Level;
    PackUnpack(s, l, n);
    AskedFacts(hs, e);
  }

  // ---------------------------------------------------------------- the manager as a state machine

  /** `registered` and `reported` grow in the order of the calls. */
  datatype Manager = Manager(registered: seq<ErrorHandler>, reported: seq<ErrorLogEntry>, panic: bool)
  datatype Op = Register(handler: ErrorHandler) | Report(error: SystemError) | EnterPanic

  /** In panic mode errors that are not fatal are only logged. */
  predicate Ignored(m: Manager, e: SystemError) { m.panic && !e.code.IsFatal() }

  /** The handlers an error reaches: the matching ones by (priority, registration), up to the first that handles it. */
  function Reached(m: Manager, e: SystemError): seq<ErrorHandler> {
    if Ignored(m, e) then [] else Asked(StableSort(m.registered, Priority), e)
  }

  ghost function ReportStep(m: Manager, e: SystemError): Manager {
    m.(reported := m.reported + [ErrorLogEntry(e, Outcome(Reached(m, e), e))], panic := m.panic || e.code.IsFatal())
  }

  ghost function Step(m: Manager, op: Op): Manager {
    match op
    case Register(h) => m.(registered := m.registered + [h])
    case Report(e) => ReportStep(m, e)
    case EnterPanic => m.(panic := true)
  }

  ghost function Run(m: Manager, ops: seq<Op>): Manager
    decreases |ops|
  {
    if ops == [] then m else Run(Step(m, ops[0]), ops[1..])
  }

  function Errors(ops: seq<Op>): seq<SystemError> {
    if ops == [] then [] else (if ops[0].Report? then [ops[0].error] else []) + Errors(ops[1..])
  }

  function Logged(entries: seq<ErrorLogEntry>): seq<SystemError> {
    seq(|entries|, i requires 0 <= i < |entries| => entries[i].error)
  }

  /**
    Over every run: panic mode never turns off; every reported error is logged exactly once, in order; and
    panic mode is on at the end exactly when it was on before, was entered, or a fatal error was reported.
   */
  lemma {:induction false} RunLaws(m: Manager, ops: seq<Op>)
    ensures m.panic ==> Run(m, ops).panic
    ensures m.reported <= Run(m, ops).reported
    ensures Logged(Run(m, ops).reported) == Logged(m.reported) + Errors(ops)
    ensures Run(m, ops).panic <==> m.panic || exists i :: 0 <= i < |ops| && Panics(ops[i])
    decreases |ops|
  {
    if ops != [] {
      RunLaws(Step(m, ops[0]), ops[1..]);
      if exists i :: 0 <= i < |ops[1..]| && Panics(ops[1..][i]) {
        var i :| 0 <= i < |ops[1..]| && Panics(ops[1..][i]);
        assert Panics(ops[i + 1]);
      }
      if exists i :: 0 < i < |ops| && Panics(ops[i]) {
        var i :| 0 < i < |ops| && Panics(ops[i]);
        assert Panics(ops[1..][i - 1]);
      }
      assert ops[0].Report? ==> Logged(Step(m, ops[0]).reported) == Logged(m.reported) + [ops[0].error];
    }
  }

  predicate Panics(op: Op) { op.EnterPanic? || (op.Report? && op.error.code.IsFatal()) }

  /** Once in panic mode, a later error that is not fatal reaches no handler and is logged as unhandled. */
  lemma PanicSilences(m: Manager, ops: seq<Op>, e: SystemError)
    requires m.panic && !e.code.IsFatal()
    ensures Reached(Run(m, ops), e) == []
    ensures ReportStep(Run(m, ops), e).reported == Run(m, ops).reported + [ErrorLogEntry(e, Unhandled)]
  {
    RunLaws(m, ops);
  }

  // ---------------------------------------------------------------- the object

  class HeapErrorManager {
    var handlers: Buckets<ErrorHandler>
    const log: RingBuffer<ErrorLogEntry>
    var panicMode: bool
    ghost var registered: seq<ErrorHandler>
    ghost var reported: seq<ErrorLogEntry>

    /** The log is the last 256 of everything reported. */
    ghost predicate Valid()
      reads this, log, log.buffer
    {
      && log.Valid() && log.capacity == LOG_CAPACITY && log.Contents() == LastN(reported, LOG_CAPACITY)
      && Priorities.Holds(handlers, registered, Priority)
      && (forall h | h in registered :: h.priority < LEVELS)
    }

    ghost function Abs(): Manager
      reads this
    {
      Manager(registered, reported, panicMode)
    }

    constructor ()
      ensures Valid() && fresh(log) && fresh(log.buffer) && Abs() == Manager([], [], false)
    {
      handlers, panicMode := map[], false;
      registered, reported := [], [];
      log := new RingBuffer<ErrorLogEntry>(LOG_CAPACITY);
    }

    method RegisterHandler(h: ErrorHandler)
      requires Valid() && h.priority < LEVELS
      modifies this`handlers, this`registered
      ensures Valid() && Abs() == Step(old(Abs()), Register(h))
    {
      PushHolds(handlers, registered, Priority, h);
      handlers := Push(handlers, h.priority, h);
      registered := registered + [h];
    }

    method LogError(e: SystemError, result: ErrorResult)
      requires Valid()
      modifies this`reported, log, log.buffer
      ensures Valid() && reported == old(reported) + [ErrorLogEntry(e, result)]
      ensures |log.Contents()| == if |reported| < 256 then |reported| else 256
      ensures log.Contents() == reported[|reported| - |log.Contents()|..]
    {
      hide Priorities.Holds;
      LastNPush(reported, ErrorLogEntry(e, result), LOG_CAPACITY);
      log.Push(ErrorLogEntry(e, result));
      reported := reported + [ErrorLogEntry(e, result)];
    }

    method EnterPanicMode()
      requires Valid()
      modifies this`panicMode
      ensures Valid() && Abs() == Step(old(Abs()), EnterPanic)
    {
      panicMode := true;
    }

    /** Runs the error past the handlers in bucket order; `asked` is who was called. */
    method Consult(e: SystemError) returns (result: ErrorResult, ghost asked: seq<ErrorHandler>)
      requires Valid()
      ensures asked == Asked(StableSort(registered, Priority), e)
      ensures result == Outcome(Asked(StableSort(registered, Priority), e), e)
    {
      hide Priorities.Holds, StableSort, RingBuffer.Valid, LastN;
      VisitIsSort(handlers, registered, Priority);
      ghost var all := Visit(handlers);
      result, asked := Unhandled, [];
      for p := 0 to LEVELS
        invariant Asked(all, e) == asked + Asked(Visit(handlers, p), e)
        invariant forall h | h in asked :: h.run(e) != Handled
        invariant result == Outcome(asked, e)
      {
        if p in handlers {
          var list := handlers[p];
          ghost var later := Visit(handlers, p + 1);
          assert list[0..] == list;
          for i := 0 to |list|
            invariant Asked(all, e) == asked + Asked(list[i..] + later, e)
            invariant forall h | h in asked :: h.run(e) != Handled
            invariant result == Outcome(asked, e)
          {
            AskedHead(list, i, later, e);
            if Matches(list[i], e) {
              OutcomeSnoc(asked, list[i], e);
              ghost var before := asked;
              asked := asked + [list[i]];
              match list[i].run(e) {
                case Handled => return Handled, asked;
                case Partial => result := Partial;
                case Unhandled =>
              }
              assert Asked(all, e) == before + ([list[i]] + Asked(list[i + 1..] + later, e));
            }
          }
          assert list[|list|..] + later == later;
        } else {
          assert Visit(handlers, p) == Visit(handlers, p + 1);
        }
      }
    }

    /** `handle_error` refines the model's report; the log entry carries the result. */
    method HandleError(e: SystemError) returns (result: ErrorResult)
      requires Valid()
      modifies this`panicMode, this`reported, log, log.buffer
      ensures Valid() && Abs() == ReportStep(old(Abs()), e)
      ensures result == Outcome(Reached(old(Abs()), e), e)
    {
      hide Priorities.Holds, StableSort, LastN;
      if panicMode && !e.code.IsFatal() {
        LogError(e, Unhandled);
        return Unhandled;
      }
      if e.code.IsFatal() {
        EnterPanicMode();
      }
      ghost var asked;
      result, asked := Consult(e);
      LogError(e, result);
    }
  }

  lemma AskedHead(list: seq<ErrorHandler>, i: nat, later: seq<ErrorHandler>, e: SystemError)
    requires i < |list|
    ensures Asked(list[i..] + later, e) ==
            if !Matches(list[i], e) then Asked(list[i + 1..] + later, e)
            else if list[i].run(e) == Handled then [list[i]] else [list[i]] + Asked(list[i + 1..] + later, e)
  {
    var s := list[i..] + later;
    assert s[0] == list[i] && s[1..] == list[i + 1..] + later;
  }

  lemma OutcomeSnoc(asked: seq<ErrorHandler>, h: ErrorHandler, e: SystemError)
    requires forall g | g in asked :: g.run(e) != Handled
    ensures Outcome(asked + [h], e) ==
            if h.run(e) == Handled then Handled else if h.run(e) == Partial then Partial else Outcome(asked, e)
  {
    var all := asked + [h];
    assert h in all;
    assert forall g | g in asked :: g in all;
  }
}
