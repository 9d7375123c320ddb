/** Emitting warnings once per place: `CheckBase`. */
module Emission {
  import opened Options

  /** A source location: its raw encoding, and whether it lies in a macro expansion. */
  datatype Loc = Loc(raw: nat, isMacro: bool)

  /** Line, column and file as the user sees them. */
  datatype Presumed = Presumed(file: string, line: nat, column: nat)

  /** What goes to the warning reporter: a check's own warning, or a request to fix by hand. */
  datatype Report = Direct(loc: Loc, text: string) | Manual(loc: Loc, text: string)

  /** The lists a check keeps, and the reports made so far. */
  datatype State = State(inMacro: seq<Loc>, manualLocs: seq<Loc>, queued: seq<(Loc, string)>, reports: seq<Report>)

  const INITIAL := State([], [], [], [])

  type PresumedLocs = Loc -> Option<Presumed>

  /** `presumedLocationsEqual`: invalid places are equal to nothing. */
  predicate SamePlace(presumed: PresumedLocs, a: Loc, b: Loc) {
    presumed(a).Some? && presumed(a) == presumed(b)
  }

  /** Some place in the list is the same as `loc`. */
  predicate Known(presumed: PresumedLocs, locs: seq<Loc>, loc: Loc) {
    exists i :: 0 <= i < |locs| && SamePlace(presumed, locs[i], loc)
  }

  function ManualText(message: string): string {
    "FixIt failed, requires manual intervention: " + (if message == "" then "" else " " + message)
  }

  function ManualReports(queued: seq<(Loc, string)>, tag: string): seq<Report> {
    if queued == [] then []
    else [Manual(queued[0].0, ManualText(queued[0].1) + tag)] + ManualReports(queued[1..], tag)
  }

  /** What a check is asked to do. */
  datatype Event = Emit(loc: Loc, error: string, printTag: bool, filtered: bool) | Queue(loc: Loc, message: string)

  /** A warning that gets past the filters and is not a repetition inside a macro. */
  predicate GoesOut(presumed: PresumedLocs, st: State, e: Event)
    requires e.Emit?
  {
    !e.filtered && !(e.loc.isMacro && Known(presumed, st.inMacro, e.loc))
  }

  function Step(presumed: PresumedLocs, tag: string, st: State, e: Event): State {
    match e
    case Emit(loc, error, printTag, filtered) =>
      if !GoesOut(presumed, st, e) then st
      else
        State(if loc.isMacro then st.inMacro + [loc] else st.inMacro, st.manualLocs, [],
              st.reports + [Direct(loc, error + (if printTag then tag else ""))] + ManualReports(st.queued, tag))
    case Queue(loc, message) =>
      if Known(presumed, st.manualLocs, loc) then st
      else st.(manualLocs := st.manualLocs + [loc], queued := st.queued + [(loc, message)])
  }

  function Run(presumed: PresumedLocs, tag: string, events: seq<Event>): State
    decreases |events|
  {
    if events == [] then INITIAL
    else Step(presumed, tag, Run(presumed, tag, events[..|events| - 1]), events[|events| - 1])
  }

  // ----- the check -----

  class CheckBase {
    const presumed: PresumedLocs
    const tag: string
    var emittedWarningsInMacro: seq<Loc>
    var emittedManualFixItsWarnings: seq<Loc>
    var queuedManualInterventionWarnings: seq<(Loc, string)>
    var reported: seq<Report>

    function Contents(): State
      reads this
    {
      State(emittedWarningsInMacro, emittedManualFixItsWarnings, queuedManualInterventionWarnings, reported)
    }

    constructor (presumed: PresumedLocs, tag: string)
      ensures Contents() == INITIAL && this.presumed == presumed && this.tag == tag
    {
      this.presumed := presumed;
      this.tag := tag;
      emittedWarningsInMacro, emittedManualFixItsWarnings, queuedManualInterventionWarnings, reported := [], [], [], [];
    }

    /** `warningAlreadyEmitted`, `manualFixitAlreadyQueued` */
    method AlreadyKnown(locs: seq<Loc>, loc: Loc) returns (known: bool)
      ensures known <==>
        exists i :: 0 <= i < |locs| && presumed(locs[i]).Some? && presumed(locs[i]) == presumed(loc)
    {
      for k := 0 to |locs|
        invariant forall i :: 0 <= i < k ==> !SamePlace(presumed, locs[i], loc)
      {
        if SamePlace(presumed, locs[k], loc) {
          return true;
        }
      }
      known := false;
    }

    /** `reallyEmitWarning` */
    method ReallyEmitWarning(report: Report)
      modifies this`reported
      ensures reported == old(reported) + [report]
    {
      reported := reported + [report];
    }

    /** `emitWarning`; `filtered` is the verdict of the suppressions and of the file and line filters. */
    method EmitWarning(loc: Loc, error: string, printTag: bool, filtered: bool)
      modifies this
      ensures Contents() == Step(presumed, tag, old(Contents()), Emit(loc, error, printTag, filtered))
    {
      if filtered {
        return;
      }
      if loc.isMacro {
        var already := AlreadyKnown(emittedWarningsInMacro, loc);
        if already {
          return;
        }
        emittedWarningsInMacro := emittedWarningsInMacro + [loc];
      }
      ReallyEmitWarning(Direct(loc, error + (if printTag then tag else "")));
      FlushQueue();
    }

    /** The loop of `emitWarning` over the queued messages, and the clearing behind it. */
    method FlushQueue()
      modifies this`reported, this`queuedManualInterventionWarnings
      ensures queuedManualInterventionWarnings == []
      ensures reported == old(reported) + ManualReports(old(queuedManualInterventionWarnings), tag)
    {
      var queued := queuedManualInterventionWarnings;
      assert queued[0..] == queued;
      for k := 0 to |queued|
        invariant reported + ManualReports(queued[k..], tag) == old(reported) + ManualReports(queued, tag)
      {
        var msg := "FixIt failed, requires manual intervention: ";
        if queued[k].1 != "" {
          msg := msg + (" " + queued[k].1);
        }
        assert msg == ManualText(queued[k].1);
        ghost var before := reported;
        ReallyEmitWarning(Manual(queued[k].0, msg + tag));
        OneMoreReport(before, queued, k, tag);
      }
      assert queued[|queued|..] == [];
      queuedManualInterventionWarnings := [];
    }

    /** `queueManualFixitWarning` */
    method QueueManualFixitWarning(loc: Loc, message: string)
      modifies this
      ensures Contents() == Step(presumed, tag, old(Contents()), Queue(loc, message))
    {
      var already := AlreadyKnown(emittedManualFixItsWarnings, loc);
      if !already {
        queuedManualInterventionWarnings := queuedManualInterventionWarnings + [(loc, message)];
        emittedManualFixItsWarnings := emittedManualFixItsWarnings + [loc];
      }
    }
  }

  lemma OneMoreReport(before: seq<Report>, queued: seq<(Loc, string)>, k: nat, tag: string)
    requires k < |queued|
    ensures var r := Manual(queued[k].0, ManualText(queued[k].1) + tag);
      before + [r] + ManualReports(queued[k + 1..], tag) == before + ManualReports(queued[k..], tag)
  {
    assert queued[k..][1..] == queued[k + 1..];
  }

  // ----- every run -----

  /** The places of the direct warnings inside macros, in order. */
  function MacroLocs(reports: seq<Report>): seq<Loc>
    decreases |reports|
  {
    if reports == [] then []
    else
      var last := reports[|reports| - 1];
      MacroLocs(reports[..|reports| - 1]) + (if last.Direct? && last.loc.isMacro then [last.loc] else [])
  }

  /** The manual reports, in order. */
  function Manuals(reports: seq<Report>): seq<Report>
    decreases |reports|
  {
    if reports == [] then []
    else
      var last := reports[|reports| - 1];
      Manuals(reports[..|reports| - 1]) + (if last.Manual? then [last] else [])
  }

  function LocsOf(reports: seq<Report>): seq<Loc> {
    seq(|reports|, i requires 0 <= i < |reports| => reports[i].loc)
  }

  ghost predicate AllDifferent(presumed: PresumedLocs, locs: seq<Loc>) {
    forall i, j :: 0 <= i < j < |locs| ==> !SamePlace(presumed, locs[i], locs[j])
  }

  /** What every run keeps. */
  ghost predicate Invariant(presumed: PresumedLocs, tag: string, st: State) {
    && MacroLocs(st.reports) == st.inMacro && AllDifferent(presumed, st.inMacro)
    && LocsOf(Promised(tag, st)) == st.manualLocs && AllDifferent(presumed, st.manualLocs)
  }

  lemma ManualsStep(a: seq<Report>, r: Report)
    ensures Manuals(a + [r]) == Manuals(a) + (if r.Manual? then [r] else [])
    ensures MacroLocs(a + [r]) == MacroLocs(a) + (if r.Direct? && r.loc.isMacro then [r.loc] else [])
  {
    assert (a + [r])[..|a|] == a;
  }

  lemma {:induction false} ManualsAppend(a: seq<Report>, b: seq<Report>)
    ensures Manuals(a + b) == Manuals(a) + Manuals(b)
    ensures MacroLocs(a + b) == MacroLocs(a) + MacroLocs(b)
    decreases |b|
  {
    if b == [] {
      assert a + b == a;
    } else {
      var last := |b| - 1;
      var before := b[..last];
      assert b == before + [b[last]] && a + b == (a + before) + [b[last]];
      ManualsAppend(a, before);
      ManualsStep(a + before, b[last]);
      ManualsStep(before, b[last]);
      hide Manuals, MacroLocs;
    }
  }

  lemma ManualReportsAreManual(queued: seq<(Loc, string)>, tag: string)
    ensures Manuals(ManualReports(queued, tag)) == ManualReports(queued, tag)
    ensures MacroLocs(ManualReports(queued, tag)) == []
  {
    if queued != [] {
      var first := [Manual(queued[0].0, ManualText(queued[0].1) + tag)];
      assert first[..0] == [];
      assert Manuals(first) == first && MacroLocs(first) == [];
      ManualsAppend(first, ManualReports(queued[1..], tag));
      ManualReportsAreManual(queued[1..], tag);
    }
  }

  lemma ManualReportsAppend(queued: seq<(Loc, string)>, q: (Loc, string), tag: string)
    ensures ManualReports(queued + [q], tag) == ManualReports(queued, tag) + [Manual(q.0, ManualText(q.1) + tag)]
  {
    if queued == [] {
      assert queued + [q] == [q] && [q][1..] == [];
    } else {
      assert (queued + [q])[1..] == queued[1..] + [q];
      ManualReportsAppend(queued[1..], q, tag);
    }
  }

  lemma StaysDifferent(presumed: PresumedLocs, locs: seq<Loc>, loc: Loc)
    requires AllDifferent(presumed, locs) && !Known(presumed, locs, loc)
    ensures AllDifferent(presumed, locs + [loc])
  {
    forall i, j | 0 <= i < j < |locs + [loc]|
      ensures !SamePlace(presumed, (locs + [loc])[i], (locs + [loc])[j])
    {
    }
  }

  /** The queue and the reports already made: what a run has promised to say by hand. */
  function Promised(tag: string, st: State): seq<Report> {
    Manuals(st.reports) + ManualReports(st.queued, tag)
  }

  /**
   * Emitting moves messages from the queue to the reports; only a queueing call makes a new one, and a rejected one
   * makes none.
   */
  lemma StepPromises(presumed: PresumedLocs, tag: string, st: State, e: Event)
    ensures var after := Step(presumed, tag, st, e);
      Promised(tag, after) ==
      if e.Queue? && !Known(presumed, st.manualLocs, e.loc)
      then Promised(tag, st) + [Manual(e.loc, ManualText(e.message) + tag)] else Promised(tag, st)
    ensures MacroLocs(Step(presumed, tag, st, e).reports) ==
            MacroLocs(st.reports) + (if e.Emit? && e.loc.isMacro && GoesOut(presumed, st, e) then [e.loc] else [])
  {
    hide Known, MacroLocs, Manuals, ManualReports, ManualText;
    match e
    case Emit(loc, error, printTag, filtered) =>
      if GoesOut(presumed, st, e) {
        var direct := Direct(loc, error + (if printTag then tag else ""));
        OneDirect(direct);
        NothingQueued(tag);
        ManualsAppend(st.reports + [direct], ManualReports(st.queued, tag));
        ManualsAppend(st.reports, [direct]);
        ManualReportsAreManual(st.queued, tag);
      }
    case Queue(loc, message) =>
      ManualReportsAppend(st.queued, (loc, message), tag);
  }

  lemma OneDirect(direct: Report)
    requires direct.Direct?
    ensures Manuals([direct]) == [] && MacroLocs([direct]) == (if direct.loc.isMacro then [direct.loc] else [])
  {
    assert [direct][..0] == [];
    assert Manuals([]) == [] && MacroLocs([]) == [];
  }

  lemma NothingQueued(tag: string)
    ensures ManualReports([], tag) == []
  {
  }

  lemma StepKeepsInvariant(presumed: PresumedLocs, tag: string, st: State, e: Event)
    requires Invariant(presumed, tag, st)
    ensures Invariant(presumed, tag, Step(presumed, tag, st, e))
  {
    StepPromises(presumed, tag, st, e);
    match e
    case Emit(loc, error, printTag, filtered) =>
      if GoesOut(presumed, st, e) && loc.isMacro {
        StaysDifferent(presumed, st.inMacro, loc);
      }
    case Queue(loc, message) =>
      if !Known(presumed, st.manualLocs, loc) {
        StaysDifferent(presumed, st.manualLocs, loc);
      }
  }

  lemma {:induction false} RunKeepsInvariant(presumed: PresumedLocs, tag: string, events: seq<Event>)
    ensures Invariant(presumed, tag, Run(presumed, tag, events))
    decreases |events|
  {
    if events != [] {
      var last := |events| - 1;
      RunKeepsInvariant(presumed, tag, events[..last]);
      StepKeepsInvariant(presumed, tag, Run(presumed, tag, events[..last]), events[last]);
    }
  }

  lemma MacroLocsComplete(reports: seq<Report>, i: nat, j: nat)
    requires i < j < |reports|
    requires reports[i].Direct? && reports[i].loc.isMacro && reports[j].Direct? && reports[j].loc.isMacro
    ensures exists m, n :: 0 <= m < n < |MacroLocs(reports)|
                           && MacroLocs(reports)[m] == reports[i].loc && MacroLocs(reports)[n] == reports[j].loc
    decreases |reports|
  {
    var before, locs := reports[..|reports| - 1], MacroLocs(reports);
    if j < |reports| - 1 {
      MacroLocsComplete(before, i, j);
      var m, n :| 0 <= m < n < |MacroLocs(before)|
                  && MacroLocs(before)[m] == before[i].loc && MacroLocs(before)[n] == before[j].loc;
      assert locs[m] == reports[i].loc && locs[n] == reports[j].loc;
    } else {
      var m := MacroLocHas(before, i);
      assert locs[m] == reports[i].loc && locs[|locs| - 1] == reports[j].loc;
    }
  }

  ghost function MacroLocHas(reports: seq<Report>, i: nat): (m: nat)
    requires i < |reports| && reports[i].Direct? && reports[i].loc.isMacro
    ensures m < |MacroLocs(reports)| && MacroLocs(reports)[m] == reports[i].loc
    decreases |reports|
  {
    if i == |reports| - 1 then |MacroLocs(reports)| - 1 else MacroLocHas(reports[..|reports| - 1], i)
  }

  /**
   * In no run do two direct warnings at macro locations share a valid presumed place, whatever was filtered
   * and queued between them.
   */
  lemma MacroWarningsAreOnce(presumed: PresumedLocs, tag: string, events: seq<Event>, i: nat, j: nat)
    requires var reports := Run(presumed, tag, events).reports;
      i < j < |reports| && reports[i].Direct? && reports[i].loc.isMacro && reports[j].Direct? && reports[j].loc.isMacro
    ensures var reports := Run(presumed, tag, events).reports;
      !SamePlace(presumed, reports[i].loc, reports[j].loc)
  {
    RunKeepsInvariant(presumed, tag, events);
    MacroLocsComplete(Run(presumed, tag, events).reports, i, j);
  }

  // ----- every run, from its events -----

  /** A warning comes through: not filtered, and in a macro not at the place of an earlier unfiltered macro warning. */
  predicate ComesThrough(presumed: PresumedLocs, before: seq<Event>, e: Event) {
    e.Emit? && !e.filtered &&
    (e.loc.isMacro ==>
       forall j :: 0 <= j < |before| && before[j].Emit? && before[j].loc.isMacro && !before[j].filtered ==>
         presumed(before[j].loc).None? || presumed(before[j].loc) != presumed(e.loc))
  }

  /** A message is accepted: none was queued at its place before. */
  predicate IsAccepted(presumed: PresumedLocs, before: seq<Event>, e: Event) {
    e.Queue? &&
    forall j :: 0 <= j < |before| && before[j].Queue? ==>
      presumed(before[j].loc).None? || presumed(before[j].loc) != presumed(e.loc)
  }

  lemma StepLists(presumed: PresumedLocs, tag: string, events: seq<Event>)
    requires events != []
    ensures var n := |events| - 1;
      var e, st, now := events[n], Run(presumed, tag, events[..n]), Run(presumed, tag, events);
      && now.inMacro ==
         (if e.Emit? && e.loc.isMacro && GoesOut(presumed, st, e) then st.inMacro + [e.loc] else st.inMacro)
      && now.manualLocs ==
         (if e.Queue? && !Known(presumed, st.manualLocs, e.loc) then st.manualLocs + [e.loc] else st.manualLocs)
  {
    hide Known;
  }

  lemma KnownMore(presumed: PresumedLocs, locs: seq<Loc>, x: Loc, loc: Loc)
    ensures Known(presumed, locs + [x], loc) <==> Known(presumed, locs, loc) || SamePlace(presumed, x, loc)
  {
    var more := locs + [x];
    if i :| 0 <= i < |locs| && SamePlace(presumed, locs[i], loc) {
      assert more[i] == locs[i];
    }
    if SamePlace(presumed, x, loc) {
      assert more[|locs|] == x;
    }
  }

  lemma KnownAlike(presumed: PresumedLocs, locs: seq<Loc>, x: Loc, loc: Loc)
    requires Known(presumed, locs, x) && SamePlace(presumed, x, loc)
    ensures Known(presumed, locs, loc)
  {
    var i :| 0 <= i < |locs| && SamePlace(presumed, locs[i], x);
    assert SamePlace(presumed, locs[i], loc);
  }

  /** The remembered places of macro warnings are those of all unfiltered macro warnings so far. */
  lemma {:induction false} WarnedExactly(presumed: PresumedLocs, tag: string, events: seq<Event>, loc: Loc)
    ensures Known(presumed, Run(presumed, tag, events).inMacro, loc) <==>
      exists j :: 0 <= j < |events| && events[j].Emit? && events[j].loc.isMacro && !events[j].filtered
                  && SamePlace(presumed, events[j].loc, loc)
    decreases |events|
  {
    hide Run, Known, SamePlace;
    if events == [] {
      NothingRun(presumed, tag, loc);
    } else {
      var n := |events| - 1;
      var before, e := events[..n], events[n];
      WarnedExactly(presumed, tag, before, loc);
      StepLists(presumed, tag, events);
      KnownMore(presumed, Run(presumed, tag, before).inMacro, e.loc, loc);
      assert forall j :: 0 <= j < n ==> before[j] == events[j];
      if Known(presumed, Run(presumed, tag, before).inMacro, e.loc) && SamePlace(presumed, e.loc, loc) {
        KnownAlike(presumed, Run(presumed, tag, before).inMacro, e.loc, loc);
      }
    }
  }

  /** The remembered places of messages are those of all messages so far. */
  lemma {:induction false} QueuedExactly(presumed: PresumedLocs, tag: string, events: seq<Event>, loc: Loc)
    ensures Known(presumed, Run(presumed, tag, events).manualLocs, loc) <==>
      exists j :: 0 <= j < |events| && events[j].Queue? && SamePlace(presumed, events[j].loc, loc)
    decreases |events|
  {
    hide Run, Known, SamePlace;
    if events == [] {
      NothingRun(presumed, tag, loc);
    } else {
      var n := |events| - 1;
      var before, e := events[..n], events[n];
      QueuedExactly(presumed, tag, before, loc);
      StepLists(presumed, tag, events);
      KnownMore(presumed, Run(presumed, tag, before).manualLocs, e.loc, loc);
      assert forall j :: 0 <= j < n ==> before[j] == events[j];
      if Known(presumed, Run(presumed, tag, before).manualLocs, e.loc) && SamePlace(presumed, e.loc, loc) {
        KnownAlike(presumed, Run(presumed, tag, before).manualLocs, e.loc, loc);
      }
    }
  }

  lemma NothingRun(presumed: PresumedLocs, tag: string, loc: Loc)
    ensures !Known(presumed, Run(presumed, tag, []).inMacro, loc)
    ensures !Known(presumed, Run(presumed, tag, []).manualLocs, loc)
  {
  }

  lemma GoesOutExactly(presumed: PresumedLocs, tag: string, before: seq<Event>, e: Event)
    requires e.Emit?
    ensures GoesOut(presumed, Run(presumed, tag, before), e) <==> ComesThrough(presumed, before, e)
  {
    hide Run, Known;
    WarnedExactly(presumed, tag, before, e.loc);
  }

  lemma AcceptedExactly(presumed: PresumedLocs, tag: string, before: seq<Event>, e: Event)
    requires e.Queue?
    ensures !Known(presumed, Run(presumed, tag, before).manualLocs, e.loc) <==> IsAccepted(presumed, before, e)
  {
    hide Run, Known;
    QueuedExactly(presumed, tag, before, e.loc);
  }

  /** The messages a run accepts, as they are to be reported, in order. */
  function Accepted(presumed: PresumedLocs, tag: string, events: seq<Event>): seq<Report>
    decreases |events|
  {
    if events == [] then []
    else
      var before, e := events[..|events| - 1], events[|events| - 1];
      Accepted(presumed, tag, before)
      + (if !IsAccepted(presumed, before, e) then []
         else if e.message == "" then [Manual(e.loc, "FixIt failed, requires manual intervention: " + tag)]
         else [Manual(e.loc, "FixIt failed, requires manual intervention: " + (" " + e.message) + tag)])
  }

  /** The warnings of a run that come through, each with its place, its text, and the tag if asked for. */
  function Warnings(presumed: PresumedLocs, tag: string, events: seq<Event>): seq<Report>
    decreases |events|
  {
    if events == [] then []
    else
      var before, e := events[..|events| - 1], events[|events| - 1];
      Warnings(presumed, tag, before)
      + (if !ComesThrough(presumed, before, e) then []
         else if e.printTag then [Direct(e.loc, e.error + tag)] else [Direct(e.loc, e.error)])
  }

  /**
   * Conservation: the manual messages reported so far, followed by those still queued, are the accepted
   * ones, in order and each once; no two of them share a valid presumed place.
   */
  lemma {:induction false} MessagesAreConserved(presumed: PresumedLocs, tag: string, events: seq<Event>)
    ensures Promised(tag, Run(presumed, tag, events)) == Accepted(presumed, tag, events)
    ensures AllDifferent(presumed, LocsOf(Accepted(presumed, tag, events)))
    decreases |events|
  {
    hide Known, Manuals, ManualReports, AllDifferent;
    if events != [] {
      var before, e := events[..|events| - 1], events[|events| - 1];
      MessagesAreConserved(presumed, tag, before);
      StepPromises(presumed, tag, Run(presumed, tag, before), e);
      if e.Queue? {
        AcceptedExactly(presumed, tag, before, e);
      }
      assert "FixIt failed, requires manual intervention: " + "" == "FixIt failed, requires manual intervention: ";
    }
    RunKeepsInvariant(presumed, tag, events);
  }

  /** One more event adds its message, if it is accepted, behind the others. */
  lemma AcceptedGrows(presumed: PresumedLocs, tag: string, events: seq<Event>)
    requires events != []
    ensures var n := |events| - 1;
      var earlier, now := LocsOf(Accepted(presumed, tag, events[..n])), LocsOf(Accepted(presumed, tag, events));
      now == earlier + (if IsAccepted(presumed, events[..n], events[n]) then [events[n].loc] else [])
  {
    hide IsAccepted;
  }

  lemma KnownAmongMore(presumed: PresumedLocs, locs: seq<Loc>, more: seq<Loc>, loc: Loc)
    requires Known(presumed, locs, loc)
    ensures Known(presumed, locs + more, loc)
  {
    var i :| 0 <= i < |locs| && SamePlace(presumed, locs[i], loc);
    assert (locs + more)[i] == locs[i];
  }

  /** All promised places are those of accepted messages. */
  lemma RememberedAreAccepted(presumed: PresumedLocs, tag: string, events: seq<Event>)
    ensures LocsOf(Accepted(presumed, tag, events)) == Run(presumed, tag, events).manualLocs
  {
    hide Run, Accepted, AllDifferent;
    RunKeepsInvariant(presumed, tag, events);
    MessagesAreConserved(presumed, tag, events);
  }

  /**
   * The place of every queueing call with a valid presumed location is spoken for: accepted by it or by an earlier
   * call.
   */
  lemma {:induction false} EveryRequestIsServed(presumed: PresumedLocs, tag: string, events: seq<Event>, k: nat)
    requires k < |events| && events[k].Queue? && presumed(events[k].loc).Some?
    ensures Known(presumed, LocsOf(Accepted(presumed, tag, events)), events[k].loc)
    decreases |events|
  {
    hide Run, Accepted, Known, SamePlace;
    var before, e := events[..|events| - 1], events[|events| - 1];
    var earlier := LocsOf(Accepted(presumed, tag, before));
    AcceptedGrows(presumed, tag, events);
    if k < |before| {
      EveryRequestIsServed(presumed, tag, before, k);
      KnownAmongMore(presumed, earlier, if IsAccepted(presumed, before, e) then [e.loc] else [], events[k].loc);
    } else {
      RememberedAreAccepted(presumed, tag, before);
      AcceptedExactly(presumed, tag, before, e);
      if IsAccepted(presumed, before, e) {
        KnownMore(presumed, earlier, e.loc, e.loc);
        assert SamePlace(presumed, e.loc, e.loc) by { PlaceOfItself(presumed, e.loc); }
      } else {
        KnownAmongMore(presumed, earlier, [], e.loc);
      }
    }
  }

  lemma PlaceOfItself(presumed: PresumedLocs, loc: Loc)
    requires presumed(loc).Some?
    ensures SamePlace(presumed, loc, loc)
  {
  }

  /** The direct reports, in order. */
  function Directs(reports: seq<Report>): seq<Report>
    decreases |reports|
  {
    if reports == [] then []
    else
      var last := reports[|reports| - 1];
      Directs(reports[..|reports| - 1]) + (if last.Direct? then [last] else [])
  }

  lemma {:induction false} DirectsAppend(a: seq<Report>, b: seq<Report>)
    ensures Directs(a + b) == Directs(a) + Directs(b)
    decreases |b|
  {
    if b == [] {
      assert a + b == a;
    } else {
      var n := |b| - 1;
      assert (a + b)[..|a| + n] == a + b[..n];
      DirectsAppend(a, b[..n]);
    }
  }

  lemma {:induction false} NoDirects(queued: seq<(Loc, string)>, tag: string)
    ensures Directs(ManualReports(queued, tag)) == []
    decreases |queued|
  {
    if queued != [] {
      var first := [Manual(queued[0].0, ManualText(queued[0].1) + tag)];
      assert first[..0] == [] && Directs([]) == [];
      DirectsAppend(first, ManualReports(queued[1..], tag));
      NoDirects(queued[1..], tag);
    }
  }

  /**
   * One event: a warning that comes through is reported, and directly behind it all accepted messages that have not
   * been reported yet; nothing else adds a report.
   */
  lemma ReportsGrow(presumed: PresumedLocs, tag: string, before: seq<Event>, e: Event)
    ensures var now, after := Run(presumed, tag, before).reports, Run(presumed, tag, before + [e]).reports;
      if ComesThrough(presumed, before, e) then
        exists behind ::
          && after == now + [Direct(e.loc, e.error + (if e.printTag then tag else ""))] + behind
          && Manuals(now) + behind == Accepted(presumed, tag, before)
      else after == now
  {
    hide Run, Known;
    RunStep(presumed, tag, before, e);
    MessagesAreConserved(presumed, tag, before);
    var st := Run(presumed, tag, before);
    if e.Emit? {
      GoesOutExactly(presumed, tag, before, e);
      if ComesThrough(presumed, before, e) {
        var behind := ManualReports(st.queued, tag);
        assert Manuals(st.reports) + behind == Accepted(presumed, tag, before);
      }
    }
  }

  /** Every run reports the warnings that come through, in order, and no other. */
  lemma {:induction false} WarningsAreReported(presumed: PresumedLocs, tag: string, events: seq<Event>)
    ensures Directs(Run(presumed, tag, events).reports) == Warnings(presumed, tag, events)
    decreases |events|
  {
    hide Run, Known, Directs, ManualReports;
    if events == [] {
      RunStep(presumed, tag, [], Queue(Loc(0, false), ""));
      NoReports();
    } else {
      var n := |events| - 1;
      var before, e := events[..n], events[n];
      assert events == before + [e];
      WarningsAreReported(presumed, tag, before);
      RunStep(presumed, tag, before, e);
      var st := Run(presumed, tag, before);
      if e.Emit? {
        GoesOutExactly(presumed, tag, before, e);
        if ComesThrough(presumed, before, e) {
          var direct := Direct(e.loc, e.error + (if e.printTag then tag else ""));
          DirectsOfEmission(st.reports, direct, st.queued, tag);
          assert e.error + "" == e.error;
        }
      }
    }
  }

  lemma NoReports()
    ensures Directs([]) == []
  {
  }

  lemma DirectsOfEmission(before: seq<Report>, direct: Report, queued: seq<(Loc, string)>, tag: string)
    requires direct.Direct?
    ensures Directs(before + [direct] + ManualReports(queued, tag)) == Directs(before) + [direct]
  {
    hide Directs, ManualReports;
    NoDirects(queued, tag);
    DirectsAppend(before + [direct], ManualReports(queued, tag));
    DirectsAppend(before, [direct]);
    SingleDirect(direct);
  }

  lemma SingleDirect(direct: Report)
    requires direct.Direct?
    ensures Directs([direct]) == [direct]
  {
    assert [direct][..0] == [] && Directs([]) == [];
  }

  /**
   * After a call to emit, the queue is empty exactly when the warning went out or there was nothing queued;
   * and then every accepted message has been reported.
   */
  lemma EmissionFlushes(presumed: PresumedLocs, tag: string, before: seq<Event>, e: Event)
    requires e.Emit?
    ensures var st, after := Run(presumed, tag, before), Run(presumed, tag, before + [e]);
      && (after.queued == [] <==> (ComesThrough(presumed, before, e) || st.queued == []))
      && (after.queued == [] ==> Manuals(after.reports) == Accepted(presumed, tag, before))
  {
    assert (before + [e])[..|before + [e]| - 1] == before;
    MessagesAreConserved(presumed, tag, before + [e]);
    GoesOutExactly(presumed, tag, before, e);
    var after := Run(presumed, tag, before + [e]);
    assert Accepted(presumed, tag, before + [e]) == Accepted(presumed, tag, before);
    if after.queued == [] {
      assert Promised(tag, after) == Manuals(after.reports) + [];
    }
  }

  /** A warning inside a macro, a message queued after it, and the same warning again: the message stays queued. */
  lemma RepeatedWarningFlushesNothing(presumed: PresumedLocs, tag: string, loc: Loc, message: string)
    requires loc.isMacro && presumed(loc).Some?
    ensures var warning, queueing := Emit(loc, "", true, false), Queue(loc, message);
      Run(presumed, tag, [warning, queueing, warning]).queued == [(loc, message)]
  {
    hide Run, Step;
    var warning, queueing := Emit(loc, "", true, false), Queue(loc, message);
    RunThree(presumed, tag, warning, queueing, warning);
    var first := Step(presumed, tag, INITIAL, warning);
    AfterWarning(presumed, tag, loc, warning);
    AfterMessage(presumed, tag, first, queueing);
    RepeatIsIgnored(presumed, tag, Step(presumed, tag, first, queueing), warning);
  }

  lemma RunThree(presumed: PresumedLocs, tag: string, a: Event, b: Event, c: Event)
    ensures Run(presumed, tag, [a, b, c]) ==
      Step(presumed, tag, Step(presumed, tag, Step(presumed, tag, INITIAL, a), b), c)
  {
    hide Run, Step;
    RunStep(presumed, tag, [], a);
    RunStep(presumed, tag, [a], b);
    RunStep(presumed, tag, [a, b], c);
    assert [] + [a] == [a] && [a] + [b] == [a, b] && [a, b] + [c] == [a, b, c];
  }

  lemma AfterMessage(presumed: PresumedLocs, tag: string, st: State, queueing: Event)
    requires queueing.Queue? && st.manualLocs == [] && st.queued == []
    ensures var after := Step(presumed, tag, st, queueing);
      after.inMacro == st.inMacro && after.queued == [(queueing.loc, queueing.message)]
  {
  }

  lemma RepeatIsIgnored(presumed: PresumedLocs, tag: string, st: State, warning: Event)
    requires warning.Emit? && warning.loc.isMacro && presumed(warning.loc).Some? && st.inMacro == [warning.loc]
    ensures Step(presumed, tag, st, warning) == st
  {
    hide ManualReports;
    assert SamePlace(presumed, st.inMacro[0], warning.loc);
  }

  lemma AfterWarning(presumed: PresumedLocs, tag: string, loc: Loc, warning: Event)
    requires warning.Emit? && warning.loc == loc && loc.isMacro && !warning.filtered
    ensures var first := Step(presumed, tag, INITIAL, warning);
      first.inMacro == [loc] && first.manualLocs == [] && first.queued == []
  {
    hide ManualReports;
  }

  lemma RunStep(presumed: PresumedLocs, tag: string, before: seq<Event>, e: Event)
    ensures Run(presumed, tag, []) == INITIAL
    ensures Run(presumed, tag, before + [e]) == Step(presumed, tag, Run(presumed, tag, before), e)
  {
    hide Step;
    assert (before + [e])[..|before|] == before;
  }
}
