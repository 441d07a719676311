/** The pending-change summary: the event log folded into the net change of every rule since its class's last cutoff. */
module PendingChanges {
  import opened Results

  /** Service and driver each have their own saved configuration. */
  datatype Class = Service | Driver

  datatype Family = FwRule | DnsRule | Program | ConfigPreset | ResRule | SecureEnclave | ExecRule | HashDbEntry

  datatype Op = Add | Modify | Remove

  /** The event types the summary looks at. */
  datatype EventType =
    | ConfigSaved(class_: Class)
    | ConfigDiscarded(class_: Class)
    | Started(class_: Class)
    | Change(family: Family, op: Op)
    | OtherEvent

  datatype LogEntry = LogEntry(eventType: EventType, levelNone: bool, guid: Option<string>, name: string)

  datatype ChangeState = Untouched | Added | Modified | Removed | AddedThenRemoved

  datatype ChangeInfo = ChangeInfo(state: ChangeState, name: string, eventType: EventType)

  function ClassOf(family: Family): Class {
    match family
    case FwRule => Service
    case DnsRule => Service
    case Program => Service
    case ConfigPreset => Service
    case ResRule => Driver
    case SecureEnclave => Driver
    case ExecRule => Driver
    case HashDbEntry => Driver
  }

  predicate IsCutoff(t: EventType, c: Class) {
    (t.ConfigSaved? || t.ConfigDiscarded? || t.Started?) && t.class_ == c
  }

  /** The last cutoff of the class among the first n entries, -1 without one. */
  function Cutoff(log: seq<LogEntry>, c: Class, n: nat): (r: int)
    requires n <= |log|
    ensures -1 <= r < n
    ensures r >= 0 ==> IsCutoff(log[r].eventType, c)
    ensures forall i | r < i < n :: !IsCutoff(log[i].eventType, c)
  {
    if n == 0 then -1 else if IsCutoff(log[n - 1].eventType, c) then n - 1 else Cutoff(log, c, n - 1)
  }

  datatype Cutoffs = Cutoffs(service: int, driver: int)

  function LastCutoffs(log: seq<LogEntry>): Cutoffs {
    Cutoffs(Cutoff(log, Service, |log|), Cutoff(log, Driver, |log|))
  }

  function CutoffOf(cuts: Cutoffs, c: Class): int {
    match c
    case Service => cuts.service
    case Driver => cuts.driver
  }

  /** An entry that is a change of a rule of ours, past its own class's cutoff. */
  predicate Counts(log: seq<LogEntry>, cuts: Cutoffs, i: nat)
    requires i < |log|
  {
    log[i].guid.Some? && log[i].levelNone && log[i].eventType.Change? && i > CutoffOf(cuts, ClassOf(log[i].eventType.family))
  }

  /** One event's effect on the state of its rule. */
  function Next(state: ChangeState, op: Op): ChangeState {
    match op
    case Add => if state == Removed then Modified else Added
    case Remove => if state == Added then AddedThenRemoved else Removed
    case Modify => if state == Untouched then Modified else state
  }

  /** The map of states after the first n entries. */
  function Track(log: seq<LogEntry>, cuts: Cutoffs, n: nat): map<string, ChangeInfo>
    requires n <= |log|
  {
    if n == 0 then map[]
    else
      var m, e := Track(log, cuts, n - 1), log[n - 1];
      if !Counts(log, cuts, n - 1) then m
      else m[e.guid.value := ChangeInfo(Next(StateIn(m, e.guid.value), e.eventType.op), e.name, e.eventType)]
  }

  function StateIn(m: map<string, ChangeInfo>, guid: string): ChangeState {
    if guid in m then m[guid].state else Untouched
  }

  predicate Shown(info: ChangeInfo) {
    info.state != Untouched && info.state != AddedThenRemoved
  }

  function OnlyShown(m: map<string, ChangeInfo>): map<string, ChangeInfo> {
    map guid | guid in m && Shown(m[guid]) :: m[guid]
  }

  /** The changes that are listed. */
  function Summary(log: seq<LogEntry>): map<string, ChangeInfo> {
    OnlyShown(Track(log, LastCutoffs(log), |log|))
  }

  /** No entry up to both cutoffs counts, so the scan may start behind the smaller one. */
  lemma {:induction false} NothingLost(log: seq<LogEntry>, cuts: Cutoffs, n: nat)
    requires n <= |log| && n <= cuts.service + 1 && n <= cuts.driver + 1
    ensures Track(log, cuts, n) == map[]
  {
    if n > 0 {
      NothingLost(log, cuts, n - 1);
    }
  }

  /** One scan backwards finds both cutoffs. */
  method FindCutoffs(log: seq<LogEntry>) returns (cuts: Cutoffs)
    ensures cuts == LastCutoffs(log)
  {
    var svc, drv := -1, -1;
    var i := |log| - 1;
    while i >= 0
      invariant -1 <= i < |log|
      invariant svc == -1 ==> Cutoff(log, Service, i + 1) == Cutoff(log, Service, |log|)
      invariant svc != -1 ==> svc == Cutoff(log, Service, |log|)
      invariant drv == -1 ==> Cutoff(log, Driver, i + 1) == Cutoff(log, Driver, |log|)
      invariant drv != -1 ==> drv == Cutoff(log, Driver, |log|)
    {
      if svc == -1 && IsCutoff(log[i].eventType, Service) { svc := i; }
      if drv == -1 && IsCutoff(log[i].eventType, Driver) { drv := i; }
      if svc != -1 && drv != -1 { break; }
      i := i - 1;
    }
    cuts := Cutoffs(svc, drv);
  }

  method NextState(before: ChangeState, op: Op) returns (state: ChangeState)
    ensures state == Next(before, op)
  {
    state := before;
    match op {
      case Add => if state == Removed { state := Modified; } else { state := Added; }
      case Remove => if state == Added { state := AddedThenRemoved; } else { state := Removed; }
      case Modify => if state == Untouched { state := Modified; }
    }
  }

  /** LoadChanges */
  method LoadChanges(log: seq<LogEntry>) returns (changes: map<string, ChangeInfo>)
    ensures changes == Summary(log)
  {
    hide Next, Cutoff, OnlyShown;
    var cuts := FindCutoffs(log);
    var start := (if cuts.service < cuts.driver then cuts.service else cuts.driver) + 1;
    NothingLost(log, cuts, start);
    var states: map<string, ChangeInfo> := map[];
    var k := start;
    while k < |log|
      invariant start <= k <= |log|
      invariant states == Track(log, cuts, k)
    {
      var e := log[k];
      k := k + 1;
      if e.guid.None? { continue; }
      if !e.levelNone { continue; }
      if !e.eventType.Change? { continue; }
      if ClassOf(e.eventType.family) == Service && k - 1 <= cuts.service { continue; }
      if ClassOf(e.eventType.family) == Driver && k - 1 <= cuts.driver { continue; }
      var before := if e.guid.value in states then states[e.guid.value].state else Untouched;
      var state := NextState(before, e.eventType.op);
      states := states[e.guid.value := ChangeInfo(state, e.name, e.eventType)];
    }
    changes := OnlyShown(states);
  }

  // ----- what the summary means

  /** The events of one rule past its own class's cutoff, in order. */
  function Ops(log: seq<LogEntry>, cuts: Cutoffs, guid: string, n: nat): seq<Op>
    requires n <= |log|
  {
    if n == 0 then []
    else Ops(log, cuts, guid, n - 1) +
         if Counts(log, cuts, n - 1) && log[n - 1].guid.value == guid then [log[n - 1].eventType.op] else []
  }

  function Fold(ops: seq<Op>): ChangeState {
    if ops == [] then Untouched else Next(Fold(ops[..|ops| - 1]), ops[|ops| - 1])
  }

  lemma {:induction false} TrackIsFold(log: seq<LogEntry>, cuts: Cutoffs, guid: string, n: nat)
    requires n <= |log|
    ensures guid in Track(log, cuts, n) <==> Ops(log, cuts, guid, n) != []
    ensures StateIn(Track(log, cuts, n), guid) == Fold(Ops(log, cuts, guid, n))
  {
    if n > 0 {
      TrackIsFold(log, cuts, guid, n - 1);
      var before, ops := Ops(log, cuts, guid, n - 1), Ops(log, cuts, guid, n);
      if Counts(log, cuts, n - 1) && log[n - 1].guid.value == guid {
        assert ops[..|ops| - 1] == before && ops[|ops| - 1] == log[n - 1].eventType.op;
      } else {
        assert ops == before;
      }
    }
  }

  /** Whether the rule exists after the events, if it did or did not before them. */
  function ExistsAfter(existed: bool, ops: seq<Op>): bool {
    if ops == [] then existed
    else
      match ops[|ops| - 1]
      case Add => true
      case Remove => false
      case Modify => ExistsAfter(existed, ops[..|ops| - 1])
  }

  /** Only what does not exist is added, only what exists is modified or removed. */
  predicate Legal(existed: bool, ops: seq<Op>) {
    ops == [] || (
      && Legal(existed, ops[..|ops| - 1])
      && (ops[|ops| - 1] == Add <==> !ExistsAfter(existed, ops[..|ops| - 1])))
  }

  /** The true net effect of a history. */
  function NetEffect(existed: bool, exists_: bool, touched: bool): Option<ChangeState> {
    if !existed && exists_ then Some(Added)
    else if existed && !exists_ then Some(Removed)
    else if existed && touched then Some(Modified)
    else None
  }

  /** The state machine knows, of any legal history, whether the rule was there before it and is there after it. */
  lemma {:induction false} FoldTells(existed: bool, ops: seq<Op>)
    requires Legal(existed, ops)
    ensures var s, there := Fold(ops), ExistsAfter(existed, ops);
            s == if ops == [] then Untouched
                 else if existed then (if there then Modified else Removed)
                 else (if there then Added else AddedThenRemoved)
  {
    if ops != [] {
      FoldTells(existed, ops[..|ops| - 1]);
    }
  }

  /** The summary lists exactly the true net effect of every rule whose events since its cutoff are a legal history. */
  lemma SummaryIsNetEffect(log: seq<LogEntry>, guid: string, existed: bool)
    requires Legal(existed, Ops(log, LastCutoffs(log), guid, |log|))
    ensures var ops := Ops(log, LastCutoffs(log), guid, |log|);
            (if guid in Summary(log) then Some(Summary(log)[guid].state) else None) == NetEffect(existed, ExistsAfter(existed, ops), ops != [])
  {
    var cuts := LastCutoffs(log);
    TrackIsFold(log, cuts, guid, |log|);
    FoldTells(existed, Ops(log, cuts, guid, |log|));
  }

  /** The other class's cutoff has no say: a rule of one class is summed up from its own cutoff on. */
  lemma {:induction false} CutoffsIndependent(log: seq<LogEntry>, cuts: Cutoffs, cuts': Cutoffs, guid: string, c: Class, n: nat)
    requires n <= |log| && CutoffOf(cuts, c) == CutoffOf(cuts', c)
    requires forall i | 0 <= i < n :: log[i].guid == Some(guid) && log[i].eventType.Change? ==> ClassOf(log[i].eventType.family) == c
    ensures Ops(log, cuts, guid, n) == Ops(log, cuts', guid, n)
  {
    if n > 0 {
      CutoffsIndependent(log, cuts, cuts', guid, c, n - 1);
    }
  }

  /** What is listed carries the name and type of the rule's last event that counts. */
  lemma {:induction false} LastEvent(log: seq<LogEntry>, cuts: Cutoffs, guid: string, n: nat) returns (k: nat)
    requires n <= |log| && guid in Track(log, cuts, n)
    ensures k < n && Counts(log, cuts, k) && log[k].guid == Some(guid)
    ensures forall j | k < j < n :: !(Counts(log, cuts, j) && log[j].guid == Some(guid))
    ensures Track(log, cuts, n)[guid].name == log[k].name && Track(log, cuts, n)[guid].eventType == log[k].eventType
  {
    if Counts(log, cuts, n - 1) && log[n - 1].guid == Some(guid) {
      k := n - 1;
    } else {
      k := LastEvent(log, cuts, guid, n - 1);
    }
  }
  // ----- what an event does to the list

  const SERVICE_FAMILIES := {FwRule, DnsRule, Program, ConfigPreset}
  const DRIVER_FAMILIES := {ResRule, SecureEnclave, ExecRule, HashDbEntry}

  /** Every change of this rule in the log is of one of these families. */
  predicate OnlyOf(log: seq<LogEntry>, guid: string, families: set<Family>) {
    forall i | 0 <= i < |log| && log[i].guid == Some(guid) && log[i].eventType.Change? :: log[i].eventType.family in families
  }

  /** Whether a rule is listed, and how. */
  function Listed(m: map<string, ChangeInfo>, guid: string): Option<ChangeInfo> {
    if guid in m then Some(m[guid]) else None
  }

  /** What is known of a rule depends on its own class's cutoff only. */
  lemma {:induction false} TrackIndependent(log: seq<LogEntry>, cuts: Cutoffs, cuts': Cutoffs, guid: string, c: Class, n: nat)
    requires n <= |log| && CutoffOf(cuts, c) == CutoffOf(cuts', c)
    requires forall i | 0 <= i < n :: log[i].guid == Some(guid) && log[i].eventType.Change? ==> ClassOf(log[i].eventType.family) == c
    ensures Listed(Track(log, cuts, n), guid) == Listed(Track(log, cuts', n), guid)
  {
    if n > 0 {
      TrackIndependent(log, cuts, cuts', guid, c, n - 1);
    }
  }

  /** Nothing up to a rule's own cutoff is known of it. */
  lemma {:induction false} NothingBefore(log: seq<LogEntry>, cuts: Cutoffs, guid: string, c: Class, n: nat)
    requires n <= |log| && n <= CutoffOf(cuts, c) + 1
    requires forall i | 0 <= i < n :: log[i].guid == Some(guid) && log[i].eventType.Change? ==> ClassOf(log[i].eventType.family) == c
    ensures guid !in Track(log, cuts, n)
  {
    if n > 0 {
      NothingBefore(log, cuts, guid, c, n - 1);
    }
  }

  /** Entries behind the first n have no part in what the first n come to. */
  lemma {:induction false} PrefixTracks(log: seq<LogEntry>, rest: seq<LogEntry>, cuts: Cutoffs, n: nat)
    requires n <= |log|
    ensures Track(log + rest, cuts, n) == Track(log, cuts, n)
    ensures Cutoff(log + rest, Service, n) == Cutoff(log, Service, n) && Cutoff(log + rest, Driver, n) == Cutoff(log, Driver, n)
  {
    if n > 0 {
      PrefixTracks(log, rest, cuts, n - 1);
      assert (log + rest)[n - 1] == log[n - 1];
    }
  }

  /**
   * Saving, discarding or loading the configuration of a class clears the list of its own rules and leaves the other
   * class's as it was.
   */
  lemma CutoffClears(log: seq<LogEntry>, e: LogEntry, c: Class, guid: string)
    requires e.eventType in [ConfigSaved(c), ConfigDiscarded(c), Started(c)]
    ensures var own, other := if c == Service then SERVICE_FAMILIES else DRIVER_FAMILIES, if c == Service then DRIVER_FAMILIES else SERVICE_FAMILIES;
            && (OnlyOf(log, guid, own) ==> guid !in Summary(log + [e]))
            && (OnlyOf(log, guid, other) ==> Listed(Summary(log + [e]), guid) == Listed(Summary(log), guid))
  {
    var after := log + [e];
    var cuts, cuts' := LastCutoffs(log), LastCutoffs(after);
    PrefixTracks(log, [e], cuts', |log|);
    if OnlyOf(log, guid, if c == Service then SERVICE_FAMILIES else DRIVER_FAMILIES) {
      NothingBefore(log, cuts', guid, c, |log|);
    }
    if OnlyOf(log, guid, if c == Service then DRIVER_FAMILIES else SERVICE_FAMILIES) {
      TrackIndependent(log, cuts, cuts', guid, if c == Service then Driver else Service, |log|);
    }
  }

  /** Only saving, discarding or loading moves a cutoff. */
  lemma CutoffsStay(log: seq<LogEntry>, e: LogEntry)
    requires e.eventType.Change? || e.eventType.OtherEvent?
    ensures LastCutoffs(log + [e]) == LastCutoffs(log)
    ensures Counts(log + [e], LastCutoffs(log), |log|) <==> e.guid.Some? && e.levelNone && e.eventType.Change?
  {
    PrefixTracks(log, [e], LastCutoffs(log), |log|);
  }

  /** The last entry's part in what is known of a rule. */
  lemma LastStep(log: seq<LogEntry>, e: LogEntry, cuts: Cutoffs, guid: string)
    ensures var counts := Counts(log + [e], cuts, |log|) && e.guid == Some(guid);
            var was, now := Track(log, cuts, |log|), Track(log + [e], cuts, |log| + 1);
            && Ops(log + [e], cuts, guid, |log| + 1) == Ops(log, cuts, guid, |log|) + (if counts then [e.eventType.op] else [])
            && if counts then guid in now && now[guid].name == e.name && now[guid].eventType == e.eventType else Listed(now, guid) == Listed(was, guid)
  {
    hide Cutoff, Next;
    PrefixTracks(log, [e], cuts, |log|);
    PrefixOps(log, [e], cuts, guid, |log|);
  }

  /**
   * Any other event leaves both cutoffs where they were. A change of a rule, logged without a level, adds to what
   * counts of that rule and is what a listed rule then shows; nothing else about any rule changes.
   */
  lemma OthersKeep(log: seq<LogEntry>, e: LogEntry, guid: string)
    requires e.eventType.Change? || e.eventType.OtherEvent?
    ensures LastCutoffs(log + [e]) == LastCutoffs(log)
    ensures var was, now := Ops(log, LastCutoffs(log), guid, |log|), Ops(log + [e], LastCutoffs(log + [e]), guid, |log| + 1);
            var list, list' := Listed(Summary(log), guid), Listed(Summary(log + [e]), guid);
            if e.eventType.Change? && e.guid == Some(guid) && e.levelNone then
              && now == was + [e.eventType.op]
              && (list'.Some? ==> list'.value.name == e.name && list'.value.eventType == e.eventType)
            else now == was && list' == list
  {
    hide Counts, LastCutoffs, Track, Ops;
    CutoffsStay(log, e);
    LastStep(log, e, LastCutoffs(log), guid);
  }

  lemma {:induction false} PrefixOps(log: seq<LogEntry>, rest: seq<LogEntry>, cuts: Cutoffs, guid: string, n: nat)
    requires n <= |log|
    ensures Ops(log + rest, cuts, guid, n) == Ops(log, cuts, guid, n)
  {
    if n > 0 {
      PrefixOps(log, rest, cuts, guid, n - 1);
      assert (log + rest)[n - 1] == log[n - 1];
    }
  }
}
