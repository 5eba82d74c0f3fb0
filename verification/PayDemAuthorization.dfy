/**
 * The spend gate of src/live/pay-dem-authorization.ts: many gates, one journal, one lease.  The lease is an
 * atomic test-and-set; a lease is taken over only when its holder's process is dead.
 */
module PayDemAuthorization {
  import opened ByteStrings
  import opened PayPolicy
  import DecimalText

  // ------------------------------------------------------------- one gate's steps

  /**
   * `Acquired` is inside authorize, after the lock; `Holding` is between PROCEED and its outcome (activeLease);
   * `Writing` is inside journalOutcome while the durable append is awaited; `Dead` is a crashed process.
   */
  datatype GateState =
    | Idle
    | Acquired
    | Holding(nowIso: string, amountOs: int)
    | Writing(nowIso: string, amountOs: int, row: Entry)
    | Dead

  /** The journal, the lock's holder, and this gate. */
  datatype Local = Local(rows: seq<Entry>, holder: Option<nat>, gate: GateState)

  /** What the environment supplies: clock readings, kill-switch readings (None: unreadable), disk results. */
  datatype Event =
    | Acquire
    | Decide(amountOs: int, rpcUrl: string, nowIso: string, readable: bool, kill: Option<bool>, releaseOk: bool)
    | Begin(row: Entry, nowIso: string, kill: Option<bool>, releaseOk: bool)
    | Finish(written: bool, releaseOk: bool)
    | Die(written: bool)

  function Decision(p: Platform, policy: Policy, rows: seq<Entry>, e: Event): Authorization
    requires e.Decide?
  {
    var spent := match p.utcDate(e.nowIso) case None => None case Some(date) => SpentOn(p, rows, date);
    if !e.readable || spent.None? then Block(JournalUnreadable)
    else if e.kill.None? then Block(KillSwitch)
    else AuthorizeTransfer(p, policy, e.amountOs, e.rpcUrl, spent.value, e.kill.value, e.nowIso)
  }

  /** The journal's readable spend on the day of a clock reading. */
  function SpentToday(p: Platform, rows: seq<Entry>, nowIso: string): Option<nat> {
    if p.utcDate(nowIso).Some? then SpentOn(p, rows, p.utcDate(nowIso).value) else None
  }

  /** The host the policy must list; an unreadable URL has the empty one. */
  function HostOf(p: Platform, rpcUrl: string): string {
    if p.hostname(rpcUrl).Some? then p.hostname(rpcUrl).value else ""
  }

  /** What PROCEED takes besides the lease. */
  predicate MayProceed(p: Platform, policy: Policy, rows: seq<Entry>, amountOs: int, rpcUrl: string, nowIso: string,
                       readable: bool, kill: Option<bool>) {
    && readable && SpentToday(p, rows, nowIso).Some? && kill == Some(false)
    && HostOf(p, rpcUrl) in policy.rpcHosts
    && amountOs <= policy.perTransactionCapOs
    && SpentToday(p, rows, nowIso).value + amountOs <= policy.dailyCapOs
  }

  /** The first of these to fail. */
  function FirstRule(p: Platform, policy: Policy, rows: seq<Entry>, amountOs: int, rpcUrl: string, nowIso: string,
                     readable: bool, kill: Option<bool>): Rule {
    if !readable || SpentToday(p, rows, nowIso).None? then JournalUnreadable
    else if kill != Some(false) then KillSwitch
    else if HostOf(p, rpcUrl) !in policy.rpcHosts then Network
    else if amountOs > policy.perTransactionCapOs then PerTransactionCap
    else DailyCap
  }

  /** The decision is PROCEED exactly when every condition holds, else it names the first that does not. */
  lemma DecisionSpelled(p: Platform, policy: Policy, rows: seq<Entry>, e: Event)
    requires e.Decide?
    ensures Decision(p, policy, rows, e) ==
      if MayProceed(p, policy, rows, e.amountOs, e.rpcUrl, e.nowIso, e.readable, e.kill) then Proceed(e.nowIso)
      else Block(FirstRule(p, policy, rows, e.amountOs, e.rpcUrl, e.nowIso, e.readable, e.kill))
  {
  }

  predicate IsAbort(row: Entry) {
    row.Row? && row.outcome == Text("aborted-before-broadcast")
  }

  /** journalOutcome's checks: only an abort may be journalled late, under a kill switch or with another timestamp. */
  predicate MayJournal(p: Platform, activeNowIso: string, row: Entry, nowIso: string, kill: Option<bool>) {
    || IsAbort(row)
    || (row.Row? && row.timestamp == Text(activeNowIso)
        && p.utcDate(nowIso).Some? && p.utcDate(nowIso) == p.utcDate(activeNowIso)
        && kill == Some(false))
  }

  function Released(l: Local, releaseOk: bool): Local {
    l.(gate := Idle, holder := if releaseOk then None else l.holder)
  }

  function Step(p: Platform, policy: Policy, id: nat, l: Local, e: Event): Local {
    match e
    case Acquire =>
      if l.gate.Idle? && l.holder.None? then l.(gate := Acquired, holder := Some(id)) else l
    case Decide(amountOs, _, nowIso, _, _, releaseOk) =>
      if !l.gate.Acquired? then l
      else if Decision(p, policy, l.rows, e).Proceed? then l.(gate := Holding(nowIso, amountOs))
      else Released(l, releaseOk)
    case Begin(row, nowIso, kill, releaseOk) =>
      if !l.gate.Holding? then l
      else if MayJournal(p, l.gate.nowIso, row, nowIso, kill) then
        l.(gate := Writing(l.gate.nowIso, l.gate.amountOs, row))
      else Released(l, releaseOk)
    case Finish(written, releaseOk) =>
      if !l.gate.Writing? then l
      else Released(l.(rows := if written then l.rows + [l.gate.row] else l.rows), releaseOk)
    case Die(written) =>
      l.(gate := Dead, rows := if l.gate.Writing? && written then l.rows + [l.gate.row] else l.rows)
  }

  // ------------------------------------------------------------------- the class

  class Journal {
    var rows: seq<Entry>
    var holder: Option<nat>

    constructor (rows: seq<Entry>)
      ensures this.rows == rows && holder == None
    {
      this.rows, holder := rows, None;
    }
  }

  class PayDemAuthorizationGate {
    const id: nat
    const platform: Platform
    const policy: Policy
    const journal: Journal
    var activeLease: Option<string>
    ghost var authorizedOs: int

    constructor (id: nat, platform: Platform, policy: Policy, journal: Journal)
      ensures this.id == id && this.platform == platform && this.policy == policy && this.journal == journal
      ensures activeLease == None
    {
      this.id, this.platform, this.policy, this.journal := id, platform, policy, journal;
      activeLease, authorizedOs := None, 0;
    }

    ghost function View(): Local
      reads this, journal
    {
      Local(journal.rows, journal.holder, if activeLease.None? then Idle else Holding(activeLease.value, authorizedOs))
    }

    method ReleasePending(blocked: Authorization, releaseOk: bool) returns (verdict: Authorization)
      modifies journal`holder
      ensures journal.holder == if releaseOk then None else old(journal.holder)
      ensures verdict == if releaseOk then blocked else Block(JournalLock)
    {
      if !releaseOk {
        return Block(JournalLock);
      }
      journal.holder := None;
      verdict := blocked;
    }

    /** Acquire, then decide; every blocked call gives the lease back at once. */
    method Authorize(amountOs: int, rpcUrl: string, nowIso: string, readable: bool, kill: Option<bool>, releaseOk: bool)
      returns (verdict: Authorization)
      modifies this, journal`holder
      ensures var e := Decide(amountOs, rpcUrl, nowIso, readable, kill, releaseOk);
        var busy := old(activeLease).Some? || old(journal.holder).Some?;
        && View() == (if busy then old(View())
                      else Step(platform, policy, id, Step(platform, policy, id, old(View()), Acquire), e))
        && verdict == (if busy then Block(JournalLock)
                       else if Decision(platform, policy, old(journal.rows), e).Proceed? || releaseOk then
                         Decision(platform, policy, old(journal.rows), e)
                       else Block(JournalLock))
      ensures verdict.Proceed? <==>
        && old(activeLease).None? && old(journal.holder).None?
        && MayProceed(platform, policy, old(journal.rows), amountOs, rpcUrl, nowIso, readable, kill)
      ensures verdict.Proceed? ==>
        && verdict.nowIso == nowIso && activeLease == Some(nowIso)
        && authorizedOs == amountOs && journal.holder == Some(id)
      ensures verdict.Block? ==>
        && activeLease == old(activeLease)
        && journal.holder == if old(activeLease).Some? || old(journal.holder).Some? then old(journal.holder)
                             else if releaseOk then None else Some(id)
      ensures verdict.Block? ==>
        verdict.rule ==
          if old(activeLease).Some? || old(journal.holder).Some? || !releaseOk then JournalLock
          else FirstRule(platform, policy, old(journal.rows), amountOs, rpcUrl, nowIso, readable, kill)
    {
      DecisionSpelled(platform, policy, journal.rows, Decide(amountOs, rpcUrl, nowIso, readable, kill, releaseOk));
      if activeLease.Some? || journal.holder.Some? {
        return Block(JournalLock);
      }
      journal.holder := Some(id);
      var spent: Option<nat> := None;
      if readable {
        spent := SpentTodayFromJournal(platform, journal.rows, nowIso);
      }
      if spent.None? {
        verdict := ReleasePending(Block(JournalUnreadable), releaseOk);
        return;
      }
      if kill.None? {
        verdict := ReleasePending(Block(KillSwitch), releaseOk);
        return;
      }
      var authorization := AuthorizeTransfer(platform, policy, amountOs, rpcUrl, spent.value, kill.value, nowIso);
      if !authorization.Proceed? {
        verdict := ReleasePending(authorization, releaseOk);
        return;
      }
      activeLease := Some(nowIso);
      authorizedOs := amountOs;
      verdict := authorization;
    }

    /** Resolutions, and aborts without a lease, are appended as they are; anything else needs and ends the lease. */
    method JournalOutcome(row: Entry, resolution: bool, nowIso: string, kill: Option<bool>, written: bool,
                          releaseOk: bool)
      returns (journalled: bool)
      requires row.Row? && (resolution <==> row.outcome.Absent?)
      modifies this, journal
      ensures
        if resolution || (old(activeLease).None? && IsAbort(row)) then
          && View() == old(View()).(rows := if written then old(journal.rows) + [row] else old(journal.rows))
          && journalled == written
        else if old(activeLease).None? then View() == old(View()) && !journalled
        else
          var began := Step(platform, policy, id, old(View()), Begin(row, nowIso, kill, releaseOk));
          && View() ==
            (if began.gate.Writing? then Step(platform, policy, id, began, Finish(written, releaseOk)) else began)
          && journalled == (began.gate.Writing? && written)
      ensures old(activeLease).Some? && !resolution ==>
        && (journalled <==>
              written && (row.outcome == Text("aborted-before-broadcast")
                || (&& row.timestamp == Text(old(activeLease).value)
                    && platform.utcDate(nowIso).Some?
                    && platform.utcDate(nowIso) == platform.utcDate(old(activeLease).value)
                    && kill == Some(false))))
        && activeLease.None? && journal.holder == (if releaseOk then None else old(journal.holder))
      ensures old(activeLease).None? || resolution ==>
        && (journalled <==> written && (row.outcome.Absent? || row.outcome == Text("aborted-before-broadcast")))
        && activeLease == old(activeLease) && journal.holder == old(journal.holder)
      ensures journal.rows == if journalled then old(journal.rows) + [row] else old(journal.rows)
    {
      if resolution {
        if written { journal.rows := journal.rows + [row]; }
        return written;
      }
      if activeLease.None? {
        if IsAbort(row) {
          if written { journal.rows := journal.rows + [row]; }
          return written;
        }
        return false;
      }
      var activeNowIso := activeLease.value;
      journalled := false;
      if IsAbort(row) || (row.timestamp == Text(activeNowIso) && platform.utcDate(nowIso).Some?
          && platform.utcDate(nowIso) == platform.utcDate(activeNowIso) && kill == Some(false)) {
        if written { journal.rows := journal.rows + [row]; }
        journalled := written;
      }
      activeLease := None;
      if releaseOk { journal.holder := None; }
    }
  }

  // --------------------------------------------------------------------- all gates

  datatype World = World(rows: seq<Entry>, holder: Option<nat>, gates: map<nat, GateState>, proceeds: nat)

  datatype WorldEvent =
    | At(id: nat, event: Event)   // one step of one gate
    | AppendUncounted(row: Entry) // preparation, resolution or lease-less abort row, by anyone
    | TakeOver                    // the lock of a dead holder is removed

  function GateOf(w: World, id: nat): GateState {
    if id in w.gates then w.gates[id] else Idle
  }

  function LocalOf(w: World, id: nat): Local {
    Local(w.rows, w.holder, GateOf(w, id))
  }

  function WorldStep(p: Platform, policy: Policy, w: World, e: WorldEvent): World {
    match e
    case At(id, event) =>
      var before := LocalOf(w, id);
      if before.gate.Dead? then w
      else
        var after := Step(p, policy, id, before, event);
        World(after.rows, after.holder, w.gates[id := after.gate],
              if after.gate.Holding? && !before.gate.Holding? then w.proceeds + 1 else w.proceeds)
    case AppendUncounted(row) => w.(rows := w.rows + [row])
    case TakeOver =>
      if w.holder.Some? && GateOf(w, w.holder.value).Dead? then w.(holder := None) else w
  }

  /** The caller journals the amount it was authorised for; others append only rows that are no spend. */
  predicate Admissible(w: World, e: WorldEvent) {
    match e
    case At(id, Begin(row, _, _, _)) =>
      row.Row? && (GateOf(w, id).Holding? && !IsUncounted(row) ==>
        row.amountOs == Text(DecimalText.IntText(GateOf(w, id).amountOs)))
    case AppendUncounted(row) => IsUncounted(row)
    case _ => true
  }

  ghost predicate AdmissibleRun(p: Platform, policy: Policy, w: World, events: seq<WorldEvent>) {
    forall i :: 0 <= i < |events| ==> Admissible(Run(p, policy, w, events[..i]), events[i])
  }

  function Run(p: Platform, policy: Policy, w: World, events: seq<WorldEvent>): World {
    if |events| == 0 then w
    else WorldStep(p, policy, Run(p, policy, w, events[..|events| - 1]), events[|events| - 1])
  }

  // ----------------------------------------------------------------- the invariant

  predicate Active(g: GateState) {
    g.Acquired? || g.Holding? || g.Writing?
  }

  /** Only the holder of the lock is active. */
  ghost predicate LockDiscipline(w: World) {
    forall id: nat :: Active(GateOf(w, id)) ==> w.holder == Some(id)
  }

  /** Every date's recorded spend is within the cap, whether or not the journal can still be summed. */
  ghost predicate WithinDailyCap(p: Platform, policy: Policy, rows: seq<Entry>) {
    forall date :: Tally(p, rows, date) <= policy.dailyCapOs
  }

  /** There is room on its day for what a gate was authorised to spend. */
  predicate HasRoom(p: Platform, policy: Policy, rows: seq<Entry>, nowIso: string, amountOs: int) {
    p.utcDate(nowIso).Some? && Tally(p, rows, p.utcDate(nowIso).value) + amountOs <= policy.dailyCapOs
  }

  /** A row about to be written is no spend, or is the authorised amount on the authorised day. */
  predicate RowMatches(nowIso: string, amountOs: int, row: Entry) {
    || IsUncounted(row)
    || (row.Row? && row.timestamp == Text(nowIso) && row.amountOs == Text(DecimalText.IntText(amountOs)))
  }

  predicate GateFits(p: Platform, policy: Policy, rows: seq<Entry>, g: GateState) {
    match g
    case Holding(nowIso, amountOs) => HasRoom(p, policy, rows, nowIso, amountOs)
    case Writing(nowIso, amountOs, row) =>
      HasRoom(p, policy, rows, nowIso, amountOs) && RowMatches(nowIso, amountOs, row)
    case _ => true
  }

  ghost predicate Safe(p: Platform, policy: Policy, w: World) {
    && LockDiscipline(w)
    && WithinDailyCap(p, policy, w.rows)
    && forall id: nat :: GateFits(p, policy, w.rows, GateOf(w, id))
  }

  lemma MatchingRowCharges(p: Platform, nowIso: string, amountOs: int, row: Entry, date: string)
    requires RowMatches(nowIso, amountOs, row)
    ensures Charge(p, row, date) == 0
      || (p.utcDate(nowIso) == Some(date) && amountOs >= 0 && Charge(p, row, date) == amountOs)
  {
    if amountOs >= 0 {
      DecimalText.NatTextDenotes(amountOs);
    } else {
      assert DecimalText.IntText(amountOs)[0] == '-';
    }
  }

  /** Writing the authorised row keeps every day within the cap. */
  lemma WritingKeepsCap(p: Platform, policy: Policy, rows: seq<Entry>, nowIso: string, amountOs: int, row: Entry)
    requires WithinDailyCap(p, policy, rows)
    requires HasRoom(p, policy, rows, nowIso, amountOs) && RowMatches(nowIso, amountOs, row)
    ensures WithinDailyCap(p, policy, rows + [row])
  {
    forall date ensures Tally(p, rows + [row], date) <= policy.dailyCapOs {
      TallySnoc(p, rows, row, date);
      MatchingRowCharges(p, nowIso, amountOs, row, date);
    }
  }

  lemma UncountedKeepsSafe(p: Platform, policy: Policy, w: World, row: Entry)
    requires Safe(p, policy, w) && IsUncounted(row)
    ensures Safe(p, policy, w.(rows := w.rows + [row]))
  {
    forall date ensures Tally(p, w.rows + [row], date) == Tally(p, w.rows, date) {
      TallySnoc(p, w.rows, row, date);
    }
  }

  /** An authorisation leaves room for its amount. */
  lemma ProceedHasRoom(p: Platform, policy: Policy, rows: seq<Entry>, e: Event)
    requires e.Decide? && Decision(p, policy, rows, e).Proceed?
    ensures HasRoom(p, policy, rows, e.nowIso, e.amountOs)
  {
    ReadableSpendIsTheTally(p, rows, p.utcDate(e.nowIso).value);
  }

  lemma StepElsewhere(p: Platform, policy: Policy, w: World, id: nat, event: Event, other: nat)
    requires other != id && !GateOf(w, id).Dead?
    ensures GateOf(WorldStep(p, policy, w, At(id, event)), other) == GateOf(w, other)
  {
  }

  /** A gate that is not active neither writes nor takes the lock from its holder. */
  lemma OneStepIsSafe(p: Platform, policy: Policy, w: World, id: nat, event: Event)
    requires Safe(p, policy, w) && Admissible(w, At(id, event))
    ensures var w' := WorldStep(p, policy, w, At(id, event));
      && WithinDailyCap(p, policy, w'.rows)
      && (Active(GateOf(w', id)) ==> w'.holder == Some(id))
      && GateFits(p, policy, w'.rows, GateOf(w', id))
      && (w'.rows != w.rows || w'.holder != w.holder ==> w.holder == None || w.holder == Some(id))
  {
    var g := GateOf(w, id);
    if g.Writing? {
      assert GateFits(p, policy, w.rows, g);
      WritingKeepsCap(p, policy, w.rows, g.nowIso, g.amountOs, g.row);
    } else if g.Holding? {
      assert GateFits(p, policy, w.rows, g);
    } else if g.Acquired? && event.Decide? && Decision(p, policy, w.rows, event).Proceed? {
      ProceedHasRoom(p, policy, w.rows, event);
    }
  }

  /** Every admissible step of any process keeps the invariant. */
  lemma StepKeepsSafe(p: Platform, policy: Policy, w: World, e: WorldEvent)
    requires Safe(p, policy, w) && Admissible(w, e)
    ensures Safe(p, policy, WorldStep(p, policy, w, e))
  {
    match e
    case TakeOver =>
    case AppendUncounted(row) =>
      UncountedKeepsSafe(p, policy, w, row);
    case At(id, event) =>
      if GateOf(w, id).Dead? {
        return;
      }
      var w' := WorldStep(p, policy, w, e);
      OneStepIsSafe(p, policy, w, id, event);
      forall other: nat
        ensures Active(GateOf(w', other)) ==> w'.holder == Some(other)
        ensures GateFits(p, policy, w'.rows, GateOf(w', other))
      {
        if other != id {
          StepElsewhere(p, policy, w, id, event, other);
          assert Active(GateOf(w, other)) ==> w.holder == Some(other);
          assert GateFits(p, policy, w.rows, GateOf(w, other));
        }
      }
  }

  /**
   * The daily cap over all runs: whatever gates, steps, crashes, take-overs and foreign rows are interleaved, what
   * the journal records as spent on any date stays within the cap.
   */
  lemma {:induction false} DailyCapHolds(p: Platform, policy: Policy, rows: seq<Entry>, events: seq<WorldEvent>)
    requires WithinDailyCap(p, policy, rows)
    requires AdmissibleRun(p, policy, World(rows, None, map[], 0), events)
    ensures Safe(p, policy, Run(p, policy, World(rows, None, map[], 0), events))
    ensures forall date :: Tally(p, Run(p, policy, World(rows, None, map[], 0), events).rows, date) <= policy.dailyCapOs
    decreases |events|
  {
    var w0 := World(rows, None, map[], 0);
    if |events| > 0 {
      var init := events[..|events| - 1];
      forall i | 0 <= i < |init| ensures Admissible(Run(p, policy, w0, init[..i]), init[i]) {
        assert init[..i] == events[..i];
      }
      DailyCapHolds(p, policy, rows, init);
      StepKeepsSafe(p, policy, Run(p, policy, w0, init), events[|events| - 1]);
    }
  }

  // ----------------------------------------------------------- what every PROCEED saw

  /** A decision taken with the kill switch read and absent. */
  predicate SawNoKillSwitch(e: WorldEvent) {
    e.At? && e.event.Decide? && e.event.kill == Some(false) && e.event.readable
  }

  /** The steps that decided with the kill switch read and absent. */
  ghost function ClearSteps(events: seq<WorldEvent>): set<int> {
    set i | 0 <= i < |events| && SawNoKillSwitch(events[i])
  }

  /** A step that authorises read the journal, saw no kill switch, and kept host and both caps. */
  lemma ProceedingStepSpelled(p: Platform, policy: Policy, w: World, e: WorldEvent)
    ensures WorldStep(p, policy, w, e).proceeds <= w.proceeds + 1
    ensures WorldStep(p, policy, w, e).proceeds > w.proceeds ==>
      && SawNoKillSwitch(e)
      && MayProceed(p, policy, w.rows, e.event.amountOs, e.event.rpcUrl, e.event.nowIso, e.event.readable, e.event.kill)
  {
    if e.At? && e.event.Decide? {
      DecisionSpelled(p, policy, w.rows, e.event);
    }
  }

  /** Over any run of any gates no PROCEED comes from a step whose kill-switch reading was present or unreadable. */
  lemma {:induction false} ProceedsSawNoKillSwitch(p: Platform, policy: Policy, rows: seq<Entry>,
                                                   events: seq<WorldEvent>)
    ensures Run(p, policy, World(rows, None, map[], 0), events).proceeds <= |ClearSteps(events)|
    decreases |events|
  {
    if |events| > 0 {
      var init, n := events[..|events| - 1], |events| - 1;
      ProceedsSawNoKillSwitch(p, policy, rows, init);
      ProceedingStepSpelled(p, policy, Run(p, policy, World(rows, None, map[], 0), init), events[n]);
      ClearStepsGrow(events);
    }
  }

  lemma ClearStepsGrow(events: seq<WorldEvent>)
    requires |events| > 0
    ensures |ClearSteps(events)| ==
      |ClearSteps(events[..|events| - 1])| + if SawNoKillSwitch(events[|events| - 1]) then 1 else 0
  {
    var init, n := events[..|events| - 1], |events| - 1;
    assert ClearSteps(events) == ClearSteps(init) + if SawNoKillSwitch(events[n]) then {n} else {};
  }

  // -------------------------------------------------------- what a gate at work can do

  /** A gate with the lock is authorised when every condition is met. */
  lemma PaymentIsAuthorised(p: Platform, policy: Policy, w: World, id: nat, e: Event)
    requires id in w.gates && w.gates[id].Acquired?
    requires e.Decide? && MayProceed(p, policy, w.rows, e.amountOs, e.rpcUrl, e.nowIso, e.readable, e.kill)
    ensures WorldStep(p, policy, w, At(id, e))
      == World(w.rows, w.holder, w.gates[id := Holding(e.nowIso, e.amountOs)], w.proceeds + 1)
  {
    DecisionSpelled(p, policy, w.rows, e);
  }

  /** An authorised gate writes its row on the day of its authorisation, and gives the lock back. */
  lemma PaymentIsRecorded(p: Platform, policy: Policy, w: World, id: nat, row: Entry, later: string)
    requires id in w.gates && w.gates[id].Holding? && row.Row? && row.timestamp == Text(w.gates[id].nowIso)
    requires p.utcDate(later).Some? && p.utcDate(later) == p.utcDate(w.gates[id].nowIso)
    ensures
      var writing := WorldStep(p, policy, w, At(id, Begin(row, later, Some(false), true)));
      WorldStep(p, policy, writing, At(id, Finish(true, true)))
        == World(w.rows + [row], None, w.gates[id := Idle], w.proceeds)
  {
    var writing := WorldStep(p, policy, w, At(id, Begin(row, later, Some(false), true)));
    assert writing.gates[id := Idle] == w.gates[id := Idle];
  }

  /** With the lock free and every condition met a payment runs through: one PROCEED, one row, the lock free again. */
  lemma AuthorisedPaymentRunsThrough(p: Platform, policy: Policy, w: World, id: nat, e: Event, row: Entry,
                                     later: string)
    requires w.holder.None? && (id in w.gates ==> w.gates[id].Idle?)
    requires e.Decide? && MayProceed(p, policy, w.rows, e.amountOs, e.rpcUrl, e.nowIso, e.readable, e.kill)
    requires row.Row? && row.timestamp == Text(e.nowIso)
    requires p.utcDate(later).Some? && p.utcDate(later) == p.utcDate(e.nowIso)
    ensures
      var acquired := WorldStep(p, policy, w, At(id, Acquire));
      var authorised := WorldStep(p, policy, acquired, At(id, e));
      var writing := WorldStep(p, policy, authorised, At(id, Begin(row, later, Some(false), true)));
      WorldStep(p, policy, writing, At(id, Finish(true, true)))
        == World(w.rows + [row], None, w.gates[id := Idle], w.proceeds + 1)
  {
    var acquired := WorldStep(p, policy, w, At(id, Acquire));
    assert acquired == World(w.rows, Some(id), w.gates[id := Acquired], w.proceeds);
    PaymentIsAuthorised(p, policy, acquired, id, e);
    var authorised := WorldStep(p, policy, acquired, At(id, e));
    PaymentIsRecorded(p, policy, authorised, id, row, later);
    assert authorised.gates[id := Idle] == w.gates[id := Idle];
  }

  /** While a gate holds the lock at work, the others move neither lock nor gate, and add no spend. */
  lemma OthersWait(p: Platform, policy: Policy, w: World, id: nat, e: WorldEvent)
    requires LockDiscipline(w) && w.holder == Some(id) && Active(GateOf(w, id))
    requires e.At? ==> e.id != id
    ensures
      var after := WorldStep(p, policy, w, e);
      && after.holder == Some(id) && GateOf(after, id) == GateOf(w, id) && after.proceeds == w.proceeds
      && after.rows == if e.AppendUncounted? then w.rows + [e.row] else w.rows
  {
    if e.At? {
      assert !Active(GateOf(w, e.id));
    }
  }

  /** A gate that dies with the lock keeps it, and does nothing more; once it is taken over the lock is free. */
  lemma DeadHolderIsReplaced(p: Platform, policy: Policy, w: World, id: nat, written: bool, event: Event)
    requires w.holder == Some(id) && id in w.gates && !w.gates[id].Dead?
    ensures
      var died := WorldStep(p, policy, w, At(id, Die(written)));
      && died.holder == Some(id) && died.gates == w.gates[id := Dead] && died.proceeds == w.proceeds
      && died.rows == (if w.gates[id].Writing? && written then w.rows + [w.gates[id].row] else w.rows)
      && WorldStep(p, policy, died, At(id, event)) == died
      && WorldStep(p, policy, died, TakeOver) == died.(holder := None)
      && WorldStep(p, policy, w, TakeOver) == w
  {
  }

  // --------------------------------------------------- one counted row per PROCEED

  function CountedRows(rows: seq<Entry>): nat {
    if |rows| == 0 then 0
    else CountedRows(rows[..|rows| - 1]) + if IsUncounted(rows[|rows| - 1]) then 0 else 1
  }

  lemma CountedSnoc(rows: seq<Entry>, row: Entry)
    ensures CountedRows(rows + [row]) == CountedRows(rows) + if IsUncounted(row) then 0 else 1
  {
    assert (rows + [row])[..|rows|] == rows;
  }

  /** The authorisation still unspent, if the lock's holder has one. */
  function Unspent(w: World): nat {
    if w.holder.Some? && (GateOf(w, w.holder.value).Holding? || GateOf(w, w.holder.value).Writing?) then 1 else 0
  }

  lemma StepSpendsOneProceed(p: Platform, policy: Policy, w: World, e: WorldEvent)
    requires LockDiscipline(w) && Admissible(w, e)
    ensures var w' := WorldStep(p, policy, w, e);
      CountedRows(w'.rows) + Unspent(w') + w.proceeds <= CountedRows(w.rows) + Unspent(w) + w'.proceeds
  {
    match e
    case TakeOver =>
    case AppendUncounted(row) =>
      CountedSnoc(w.rows, row);
    case At(id, event) =>
      var g := GateOf(w, id);
      if g.Writing? {
        CountedSnoc(w.rows, g.row);
      }
      assert Active(g) ==> w.holder == Some(id);
      if w.holder.Some? && w.holder.value != id && !g.Dead? {
        StepElsewhere(p, policy, w, id, event, w.holder.value);
      }
  }

  lemma StepKeepsDiscipline(p: Platform, policy: Policy, w: World, e: WorldEvent)
    requires LockDiscipline(w)
    ensures LockDiscipline(WorldStep(p, policy, w, e))
  {
    var w' := WorldStep(p, policy, w, e);
    if e.At? && !GateOf(w, e.id).Dead? {
      assert Active(GateOf(w, e.id)) ==> w.holder == Some(e.id);
      forall other: nat ensures Active(GateOf(w', other)) ==> w'.holder == Some(other) {
        assert Active(GateOf(w, other)) ==> w.holder == Some(other);
        if other != e.id {
          StepElsewhere(p, policy, w, e.id, e.event, other);
        }
      }
    }
  }

  /** Each PROCEED yields at most one counted row, whatever the journal held before. */
  lemma {:induction false} OneCountedRowPerProceed(p: Platform, policy: Policy, rows: seq<Entry>,
                                                   events: seq<WorldEvent>)
    requires AdmissibleRun(p, policy, World(rows, None, map[], 0), events)
    ensures var w := Run(p, policy, World(rows, None, map[], 0), events);
      LockDiscipline(w) && CountedRows(w.rows) + Unspent(w) <= CountedRows(rows) + w.proceeds
    decreases |events|
  {
    var w0 := World(rows, None, map[], 0);
    if |events| > 0 {
      var init, last := events[..|events| - 1], events[|events| - 1];
      forall i | 0 <= i < |init| ensures Admissible(Run(p, policy, w0, init[..i]), init[i]) {
        assert init[..i] == events[..i];
      }
      OneCountedRowPerProceed(p, policy, rows, init);
      StepKeepsDiscipline(p, policy, Run(p, policy, w0, init), last);
      StepSpendsOneProceed(p, policy, Run(p, policy, w0, init), last);
    }
  }
}
