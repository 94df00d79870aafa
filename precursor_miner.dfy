/**
 * Precursor mining (`find_precursor_patterns`): for every critical alarm,
 * the warning alarms among the few records just before it, joined into a
 * pattern; identical (pattern, failure) pairs are counted and ranked.
 */
module PrecursorMiner {
  import opened Wrappers
  import opened Text
  import opened Counting
  import opened Sequences
  import opened EventFrame

  /**
   * What the miner is given: the lookback window size and the external
   * configuration (the critical alarm IDs and the alarm display names).
   */
  datatype Settings = Settings(windowSize: int, critical: set<int>, alarmNames: map<int, string>)

  /** The window size used when the caller gives none. */
  const DefaultWindowSize := 5

  /** One `precursor_sequences` item: a warning pattern and the failure it led to. */
  datatype Occurrence = Occurrence(pattern: string, failure: string)

  /** Joining the names fails when a warning record has no `EventName`. */
  datatype MineError = NamelessWarning

  /** What one critical record adds to `precursor_sequences`. */
  datatype Contribution = Nothing | Adds(occurrence: Occurrence) | Raises

  /** The alarm's coerced ID is one of the critical IDs. */
  predicate IsCritical(critical: set<int>, r: Row) {
    Coerce(r.alarmId).Some? && Coerce(r.alarmId).value in critical
  }

  /** The alarm's coerced ID is present and not critical. */
  predicate IsWarning(critical: set<int>, r: Row) {
    Coerce(r.alarmId).Some? && Coerce(r.alarmId).value !in critical
  }

  /** Positions of the critical records, in order. */
  function CriticalPositions(rows: seq<Row>, critical: set<int>): seq<nat> {
    Positions(rows, 0, |rows|, (r: Row) => IsCritical(critical, r))
  }

  lemma CriticalAt(rows: seq<Row>, critical: set<int>, i: nat)
    requires i < |rows|
    ensures i in CriticalPositions(rows, critical) <==> IsCritical(critical, rows[i])
  {
  }

  /** `max(0, idx - window_size)`. */
  function WindowStart(idx: nat, windowSize: int): nat {
    if idx - windowSize > 0 then idx - windowSize else 0
  }

  /** Positions of the warnings among the records in `[WindowStart(idx), idx)`, in order. */
  function WarningPositions(rows: seq<Row>, idx: nat, cfg: Settings): seq<nat>
    requires idx <= |rows|
  {
    Positions(rows, WindowStart(idx, cfg.windowSize), idx, (r: Row) => IsWarning(cfg.critical, r))
  }

  predicate AllNamed(rows: seq<Row>, ps: seq<nat>) {
    forall k :: 0 <= k < |ps| ==> ps[k] < |rows| && rows[ps[k]].eventName.Some?
  }

  /** The event names at positions `ps`, in order. */
  function NamesAt(rows: seq<Row>, ps: seq<nat>): (names: seq<string>)
    requires AllNamed(rows, ps)
  {
    seq(|ps|, k requires 0 <= k < |ps| => rows[ps[k]].eventName.value)
  }

  /** The display name of a failed alarm, with a generic label for unmapped IDs. */
  function FailureLabel(alarmNames: map<int, string>, id: int): string {
    if id in alarmNames then alarmNames[id] else "Critical Alarm " + IntToString(id)
  }

  /** What the record at `idx` adds to `precursor_sequences`: nothing unless it is critical. */
  function ContributionAt(rows: seq<Row>, cfg: Settings, idx: nat): Contribution {
    if idx >= |rows| || !IsCritical(cfg.critical, rows[idx]) then Nothing
    else
      var ws := WarningPositions(rows, idx, cfg);
      if ws == [] then Nothing
      else if !AllNamed(rows, ws) then Raises
      else Adds(Occurrence(Join(NamesAt(rows, ws), " -> "),
                           FailureLabel(cfg.alarmNames, Coerce(rows[idx].alarmId).value)))
  }

  /** The positions of the critical records whose window holds at least one warning. */
  function Contributing(rows: seq<Row>, cfg: Settings): set<nat> {
    set i | 0 <= i < |rows| && IsCritical(cfg.critical, rows[i]) && WarningPositions(rows, i, cfg) != []
  }

  /** The positions of the records that produce occurrence `o`. */
  function Producers(rows: seq<Row>, cfg: Settings, o: Occurrence): set<nat> {
    set i | 0 <= i < |rows| && ContributionAt(rows, cfg, i) == Adds(o)
  }

  /** `ContributionAt` as a function of the position, for one table and configuration. */
  function Contributor(rows: seq<Row>, cfg: Settings): nat -> Contribution {
    (idx: nat) => ContributionAt(rows, cfg, idx)
  }

  /** `precursor_sequences` after visiting the positions `cs` in order. */
  function Collect(cs: seq<nat>, contribution: nat -> Contribution): Result<seq<Occurrence>, MineError> {
    if cs == [] then Success([])
    else
      var prev := Collect(cs[..|cs| - 1], contribution);
      if prev.Failure? then prev
      else match contribution(cs[|cs| - 1])
        case Nothing => prev
        case Raises => Failure(NamelessWarning)
        case Adds(o) => Success(prev.value + [o])
  }

  /** The whole `precursor_sequences` list. */
  function PrecursorSequences(rows: seq<Row>, cfg: Settings): Result<seq<Occurrence>, MineError> {
    Collect(CriticalPositions(rows, cfg.critical), Contributor(rows, cfg))
  }

  /** The result table: counted (pattern, failure) pairs, largest count first. */
  function PrecursorPatterns(rows: seq<Row>, cfg: Settings): Result<seq<Entry<Occurrence>>, MineError> {
    match PrecursorSequences(rows, cfg)
    case Failure(e) => Failure(e)
    case Success(occs) => Success(RankedTally(occs))
  }

  /** The loop over the critical positions that fills `precursor_sequences`. */
  method CollectSequences(rows: seq<Row>, cfg: Settings, crit: seq<nat>) returns (r: Result<seq<Occurrence>, MineError>)
    ensures r == Collect(crit, Contributor(rows, cfg))
  {
    var sequences: seq<Occurrence> := [];
    var k := 0;
    while k < |crit|
      invariant k <= |crit|
      invariant Collect(crit[..k], Contributor(rows, cfg)) == Success(sequences)
    {
      assert crit[..k + 1][..k] == crit[..k];
      var c := ContributionAt(rows, cfg, crit[k]);
      if c.Raises? {
        CollectFails(crit, Contributor(rows, cfg));
        assert Collect(crit, Contributor(rows, cfg)).error.NamelessWarning?;
        return Failure(NamelessWarning);
      }
      if c.Adds? {
        sequences := sequences + [c.occurrence];
      }
      k := k + 1;
    }
    assert crit[..k] == crit;
    return Success(sequences);
  }

  /** `find_precursor_patterns(df, window_size)`. */
  method FindPrecursorPatterns(rows: seq<Row>, cfg: Settings) returns (r: Result<seq<Entry<Occurrence>>, MineError>)
    ensures r == PrecursorPatterns(rows, cfg)
  {
    if forall i :: 0 <= i < |rows| ==> rows[i].alarmId.NoAlarm? {
      NoCriticalNoPatterns(rows, cfg);
      return Success([]);
    }
    var crit := CriticalPositions(rows, cfg.critical);
    var sequences := CollectSequences(rows, cfg, crit);
    if sequences.Failure? {
      return Failure(sequences.error);
    }
    if sequences.value == [] {
      return Success([]);
    }
    return Success(RankedTally(sequences.value));
  }

  /** `find_precursor_patterns(df)`, with the window size left at its default. */
  method FindPrecursorPatternsDefault(rows: seq<Row>, critical: set<int>, alarmNames: map<int, string>)
    returns (r: Result<seq<Entry<Occurrence>>, MineError>)
    ensures r == PrecursorPatterns(rows, Settings(5, critical, alarmNames))
  {
    r := FindPrecursorPatterns(rows, Settings(DefaultWindowSize, critical, alarmNames));
  }

  /**
   * Without a critical record (in particular without any AlarmID at all)
   * there are no patterns.
   */
  lemma NoCriticalNoPatterns(rows: seq<Row>, cfg: Settings)
    requires forall i :: 0 <= i < |rows| ==> !IsCritical(cfg.critical, rows[i])
    ensures PrecursorPatterns(rows, cfg) == Success([])
  {
    PositionsNone(rows, 0, |rows|, (r: Row) => IsCritical(cfg.critical, r));
    assert CriticalPositions(rows, cfg.critical) == [];
  }

  /**
   * The lookback window of the record at `idx`: only records strictly before
   * it and no more than `windowSize` back are considered, in order, and a
   * record there is a warning exactly when its alarm is present and not
   * critical.
   */
  lemma WarningWindow(rows: seq<Row>, cfg: Settings, idx: nat)
    requires idx <= |rows|
    ensures var ws := WarningPositions(rows, idx, cfg);
      && |ws| <= (if cfg.windowSize > 0 then cfg.windowSize else 0)
      && (forall k :: 0 <= k < |ws| ==> idx - cfg.windowSize <= ws[k] < idx)
      && (forall k, m :: 0 <= k < m < |ws| ==> ws[k] < ws[m])
      && forall j :: 0 <= j < idx && idx - cfg.windowSize <= j ==>
           (j in ws <==> Coerce(rows[j].alarmId).Some? && Coerce(rows[j].alarmId).value !in cfg.critical)
  {
  }

  /**
   * A critical record contributes nothing when its window holds no warning,
   * fails when a warning there has no name, and otherwise adds the warning
   * names joined by " -> " with the failure's display name.
   */
  lemma ContributionCases(rows: seq<Row>, cfg: Settings, idx: nat)
    requires idx < |rows| && IsCritical(cfg.critical, rows[idx])
    ensures var ws := WarningPositions(rows, idx, cfg);
      && (ContributionAt(rows, cfg, idx) == Nothing <==>
            forall j :: WindowStart(idx, cfg.windowSize) <= j < idx ==> !IsWarning(cfg.critical, rows[j]))
      && (ContributionAt(rows, cfg, idx) == Raises <==>
            exists j :: WindowStart(idx, cfg.windowSize) <= j < idx && IsWarning(cfg.critical, rows[j])
                        && rows[j].eventName == None)
      && (ContributionAt(rows, cfg, idx).Adds? ==>
            var id := Coerce(rows[idx].alarmId).value;
            && |NamesAt(rows, ws)| == |ws| >= 1
            && ContributionAt(rows, cfg, idx).occurrence.pattern == Join(NamesAt(rows, ws), " -> ")
            && ContributionAt(rows, cfg, idx).occurrence.failure
                 == if id in cfg.alarmNames then cfg.alarmNames[id] else "Critical Alarm " + IntToString(id))
  {
    var ws := WarningPositions(rows, idx, cfg);
    if ws != [] {
      assert IsWarning(cfg.critical, rows[ws[0]]);
    }
    if !AllNamed(rows, ws) {
      var k :| 0 <= k < |ws| && rows[ws[k]].eventName.None?;
      assert IsWarning(cfg.critical, rows[ws[k]]);
    }
  }

  /** The generic label of an unmapped alarm gives its ID back. */
  lemma UnmappedLabelNamesId(alarmNames: map<int, string>, id: int)
    requires id !in alarmNames
    ensures |FailureLabel(alarmNames, id)| > 15
    ensures FailureLabel(alarmNames, id)[..15] == "Critical Alarm "
    ensures ParseSigned(FailureLabel(alarmNames, id)[15..]) == Some(id)
  {
    var name := FailureLabel(alarmNames, id);
    assert name[15..] == IntToString(id);
    RenderedParses(id);
  }

  /** Collecting fails exactly when some visited record raises. */
  lemma {:induction false} CollectFails(cs: seq<nat>, contribution: nat -> Contribution)
    ensures Collect(cs, contribution).Failure? <==> exists k :: 0 <= k < |cs| && contribution(cs[k]) == Raises
  {
    if cs != [] {
      var n := |cs| - 1;
      CollectFails(cs[..n], contribution);
      assert forall k :: 0 <= k < n ==> cs[..n][k] == cs[k];
    }
  }

  /** Positions in ascending order. */
  predicate Ascending(cs: seq<nat>) {
    forall k, m :: 0 <= k < m < |cs| ==> cs[k] < cs[m]
  }

  lemma LastIsNew(cs: seq<nat>)
    requires Ascending(cs) && cs != []
    ensures cs == cs[..|cs| - 1] + [cs[|cs| - 1]]
    ensures cs[|cs| - 1] !in cs[..|cs| - 1]
    ensures Ascending(cs[..|cs| - 1])
  {
    var n := |cs| - 1;
    assert cs == cs[..n] + [cs[n]];
    forall k | 0 <= k < n ensures cs[..n][k] != cs[n] {
      assert cs[..n][k] == cs[k];
    }
  }

  /** The number of distinct positions in `cs` that satisfy `p`. */
  function PositionsWhere(cs: seq<nat>, p: nat -> bool): nat {
    |set i | i in cs && p(i)|
  }

  lemma PositionsWhereIs(cs: seq<nat>, p: nat -> bool, s: set<nat>)
    requires forall i :: i in s <==> i in cs && p(i)
    ensures PositionsWhere(cs, p) == |s|
  {
    assert s == set i | i in cs && p(i);
  }

  /** The test "this position contributes an occurrence". */
  function Adding(contribution: nat -> Contribution): nat -> bool {
    (i: nat) => contribution(i).Adds?
  }

  /** The test "this position contributes occurrence `o`". */
  function Producing(contribution: nat -> Contribution, o: Occurrence): nat -> bool {
    (i: nat) => contribution(i) == Adds(o)
  }

  /** Appending a new position adds one to the positions satisfying `p` exactly when it does. */
  lemma CountSnoc(pre: seq<nat>, x: nat, p: nat -> bool)
    requires x !in pre
    ensures PositionsWhere(pre + [x], p) == PositionsWhere(pre, p) + (if p(x) then 1 else 0)
  {
    var before := set i | i in pre && p(i);
    var after := set i | i in pre + [x] && p(i);
    if p(x) {
      assert after == before + {x};
    } else {
      assert after == before;
    }
  }

  /** Visiting ascending positions, the collected list holds one occurrence per contributing position. */
  lemma {:induction false} CollectLength(cs: seq<nat>, contribution: nat -> Contribution)
    requires Ascending(cs)
    requires Collect(cs, contribution).Success?
    ensures |Collect(cs, contribution).value| == PositionsWhere(cs, Adding(contribution))
  {
    if cs != [] {
      var n := |cs| - 1;
      var pre, x := cs[..n], cs[n];
      LastIsNew(cs);
      var prev := Collect(pre, contribution);
      assert prev.Success?;
      CollectLength(pre, contribution);
      CountSnoc(pre, x, Adding(contribution));
      if contribution(x).Adds? {
        assert Collect(cs, contribution).value == prev.value + [contribution(x).occurrence];
      } else {
        assert Collect(cs, contribution).value == prev.value;
      }
    }
  }

  /** Visiting ascending positions, each occurrence is collected as often as positions produce it. */
  lemma {:induction false} CollectMultiplicity(cs: seq<nat>, contribution: nat -> Contribution, o: Occurrence)
    requires Ascending(cs)
    requires Collect(cs, contribution).Success?
    ensures multiset(Collect(cs, contribution).value)[o] == PositionsWhere(cs, Producing(contribution, o))
  {
    if cs != [] {
      var n := |cs| - 1;
      var pre, x := cs[..n], cs[n];
      LastIsNew(cs);
      var prev := Collect(pre, contribution);
      assert prev.Success?;
      CollectMultiplicity(pre, contribution, o);
      CountSnoc(pre, x, Producing(contribution, o));
      if contribution(x).Adds? {
        assert Collect(cs, contribution).value == prev.value + [contribution(x).occurrence];
      } else {
        assert Collect(cs, contribution).value == prev.value;
      }
    }
  }

  /**
   * When mining succeeds, the records that contribute an occurrence are
   * exactly the critical records whose window holds a warning.
   */
  lemma ContributorsAreCritical(rows: seq<Row>, cfg: Settings, i: nat)
    requires PrecursorSequences(rows, cfg).Success?
    requires i < |rows|
    ensures ContributionAt(rows, cfg, i).Adds? <==>
              IsCritical(cfg.critical, rows[i]) && WarningPositions(rows, i, cfg) != []
  {
    var crit := CriticalPositions(rows, cfg.critical);
    CollectFails(crit, Contributor(rows, cfg));
    if IsCritical(cfg.critical, rows[i]) {
      var k :| 0 <= k < |crit| && crit[k] == i;
      assert Contributor(rows, cfg)(crit[k]) != Raises;
    }
  }

  /**
   * When mining succeeds, `precursor_sequences` holds one item per critical
   * record whose window holds a warning, and each (pattern, failure) pair as
   * often as records produce it.
   */
  lemma SequencesCount(rows: seq<Row>, cfg: Settings)
    requires PrecursorSequences(rows, cfg).Success?
    ensures var occs := PrecursorSequences(rows, cfg).value;
      && |occs| == |Contributing(rows, cfg)|
      && forall o :: multiset(occs)[o] == |Producers(rows, cfg, o)|
  {
    SequencesLength(rows, cfg);
    forall o ensures multiset(PrecursorSequences(rows, cfg).value)[o]
                       == |Producers(rows, cfg, o)| {
      SequencesMultiplicity(rows, cfg, o);
    }
  }

  lemma SequencesLength(rows: seq<Row>, cfg: Settings)
    requires PrecursorSequences(rows, cfg).Success?
    ensures |PrecursorSequences(rows, cfg).value|
              == |Contributing(rows, cfg)|
  {
    var crit := CriticalPositions(rows, cfg.critical);
    var f := Contributor(rows, cfg);
    assert Ascending(crit);
    CollectLength(crit, f);
    var contributing := Contributing(rows, cfg);
    forall i | i in crit && Adding(f)(i) ensures i in contributing {
      ContributorsAreCritical(rows, cfg, i);
    }
    forall i | i in contributing ensures i in crit && Adding(f)(i) {
      CriticalAt(rows, cfg.critical, i);
      ContributorsAreCritical(rows, cfg, i);
    }
    PositionsWhereIs(crit, Adding(f), contributing);
  }

  lemma SequencesMultiplicity(rows: seq<Row>, cfg: Settings, o: Occurrence)
    requires PrecursorSequences(rows, cfg).Success?
    ensures multiset(PrecursorSequences(rows, cfg).value)[o]
              == |Producers(rows, cfg, o)|
  {
    var crit := CriticalPositions(rows, cfg.critical);
    var f := Contributor(rows, cfg);
    assert Ascending(crit);
    CollectMultiplicity(crit, f, o);
    var produced := Producers(rows, cfg, o);
    forall i | i in crit && Producing(f, o)(i) ensures i in produced {
      assert 0 <= i < |rows|;
    }
    forall i | i in produced ensures i in crit && Producing(f, o)(i) {
      CriticalAt(rows, cfg.critical, i);
      assert Producing(f, o)(i);
    }
    PositionsWhereIs(crit, Producing(f, o), produced);
  }

  /**
   * When mining succeeds, a (pattern, failure) pair is in the result table
   * exactly when some record produced it.
   */
  lemma PatternsAreProduced(rows: seq<Row>, cfg: Settings, o: Occurrence)
    requires PrecursorPatterns(rows, cfg).Success?
    ensures o in Keys(PrecursorPatterns(rows, cfg).value) <==>
              exists i :: 0 <= i < |rows| && ContributionAt(rows, cfg, i) == Adds(o)
  {
    var occs := PrecursorSequences(rows, cfg).value;
    assert o in Keys(PrecursorPatterns(rows, cfg).value) <==> o in occs by {
      RankedTallyKeys(occs, o);
    }
    SequencesMultiplicity(rows, cfg, o);
    if o in occs {
      var i :| i in Producers(rows, cfg, o);
    }
    if exists i :: 0 <= i < |rows| && ContributionAt(rows, cfg, i) == Adds(o) {
      var i :| 0 <= i < |rows| && ContributionAt(rows, cfg, i) == Adds(o);
      assert i in Producers(rows, cfg, o);
    }
  }

  /**
   * When mining succeeds, the result table holds each (pattern, failure)
   * pair once, with the number of records that produced it (at least 1),
   * largest count first, and the counts add up to the number of critical
   * records whose window holds at least one warning.
   */
  lemma PrecursorPatternsFacts(rows: seq<Row>, cfg: Settings)
    requires PrecursorPatterns(rows, cfg).Success?
    ensures var ps := PrecursorPatterns(rows, cfg).value;
      && SortedByCount(ps)
      && DistinctKeys(ps)
      && (forall k :: 0 <= k < |ps| ==> ps[k].count >= 1)
      && (forall k :: 0 <= k < |ps| ==>
            ps[k].count == |Producers(rows, cfg, ps[k].key)|)
      && Total(ps) == |Contributing(rows, cfg)|
  {
    var occs := PrecursorSequences(rows, cfg).value;
    SequencesCount(rows, cfg);
    RankedTallyFacts(occs);
  }
}
