/**
 * The data_table validator's main loop (data_table/is_valid_data_table_yaml.py, lines 51-95):
 * every entry of every section is checked in order, fail-fast, while two module-level
 * variables, `fieldname_file` and `interp_method`, carry their last assigned value from one
 * entry to the next.
 */
module Validator {
  import opened Wrappers
  import opened Checks

  /** A top-level key of the YAML document and its ordered list of entries. */
  datatype Section = Section(name: string, entries: seq<Entry>)

  /** The parsed document: its sections in document order. */
  type Table = seq<Section>

  /**
   * The bindings of the module-level variables `fieldname_file` and `interp_method`
   * when an entry is reached; None while a variable has never been assigned.
   */
  datatype Carry = Carry(fieldnameFile: Option<Value>, interpMethod: Option<Value>)

  const Unbound: Carry := Carry(None, None)

  /** Lines 67-68 and 73-74: a key present in the entry rebinds its variable, an absent key keeps the old binding. */
  function Inherit(c: Carry, e: Entry): (r: Carry)
    ensures "fieldname_file" in e ==> r.fieldnameFile == Some(e["fieldname_file"])
    ensures "fieldname_file" !in e ==> r.fieldnameFile == c.fieldnameFile
    ensures "interpol_method" in e ==> r.interpMethod == Some(e["interpol_method"])
    ensures "interpol_method" !in e ==> r.interpMethod == c.interpMethod
    ensures r.fieldnameFile.None? <==> c.fieldnameFile.None? && "fieldname_file" !in e
    ensures r.interpMethod.None? <==> c.interpMethod.None? && "interpol_method" !in e
  {
    Carry(if "fieldname_file" in e then Some(e["fieldname_file"]) else c.fieldnameFile,
          if "interpol_method" in e then Some(e["interpol_method"]) else c.interpMethod)
  }

  predicate HasBounds(e: Entry) {
    "lat_start" in e && "lat_end" in e && "lon_start" in e && "lon_end" in e
  }

  /** Lines 84-95, run only when the entry has a `region_type`. */
  function CheckRegionEntry(e: Entry): (r: Outcome<Error>)
    requires "region_type" in e
    ensures r.Pass? <==>
      && e["region_type"] in RegionTypes
      && HasBounds(e)
      && AtMost(e["lat_start"], e["lat_end"])
      && AtMost(e["lon_start"], e["lon_end"])
  {
    var kind := CheckRegionType(e["region_type"]);
    if kind.Fail? then kind
    else
      var bounds := CheckIfBoundsPresent(e);
      if bounds.Fail? then bounds
      else
        var lat := CheckRegion(Lat, e["lat_start"], e["lat_end"]);
        if lat.Fail? then lat
        else CheckRegion(Lon, e["lon_start"], e["lon_end"])
  }

  /**
   * A defect visible in the entry alone, whatever the variables carried into it: a
   * missing or invalid required key, an invalid interpolation method or an empty
   * `fieldname_file` given by the entry itself, or a bad region.
   */
  predicate SelfEvidentFault(e: Entry) {
    || "gridname" !in e || e["gridname"] !in GridNames
    || "fieldname_code" !in e || e["fieldname_code"] == Str("")
    || ("interpol_method" in e && e["interpol_method"] !in InterpMethods)
    || ("fieldname_file" in e && e["fieldname_file"] == Str(""))
    || "factor" !in e
    || ("region_type" in e && e["region_type"] !in RegionTypes)
    || ("region_type" in e && !HasBounds(e))
    || ("region_type" in e && HasBounds(e) && !AtMost(e["lat_start"], e["lat_end"]))
    || ("region_type" in e && HasBounds(e) && !AtMost(e["lon_start"], e["lon_end"]))
  }

  /**
   * Lines 56-95 for one entry, given the variables carried into it: the checks run in
   * the order gridname, fieldname_code, interp_method, filename/field, factor, region,
   * and the first one that fails decides the outcome.
   */
  function CheckEntry(c: Carry, e: Entry): (r: Outcome<Error>)
    ensures r.Pass? ==> "gridname" in e && "fieldname_code" in e && "factor" in e
    ensures r.Pass? ==> Inherit(c, e).interpMethod.Some? && Inherit(c, e).interpMethod.value in InterpMethods
    ensures r.Pass? ==> Inherit(c, e).fieldnameFile.Some? && Inherit(c, e).fieldnameFile.value != Str("")
    ensures SelfEvidentFault(e) ==> r.Fail?
    ensures Inherit(c, e).fieldnameFile == Some(Str("")) ==> r.Fail?
    ensures r.Fail? && r.error.BadGridname? ==> "gridname" in e && r.error.gridname == e["gridname"]
    ensures r.Fail? && r.error.BadInterpMethod? ==> Inherit(c, e).interpMethod == Some(r.error.interpMethod)
    ensures r.Fail? && r.error.BadRegionType? ==> "region_type" in e && r.error.regionType == e["region_type"]
  {
    var now := Inherit(c, e);
    if "gridname" !in e then Fail(MissingGridname)
    else
      var grid := CheckGridname(e["gridname"]);
      if grid.Fail? then grid
      else if "fieldname_code" !in e then Fail(MissingFieldnameCode)
      else
        var code := CheckFieldnameCode(e["fieldname_code"]);
        if code.Fail? then code
        else if now.interpMethod.None? then Fail(UnboundInterpMethod)
        else
          var interp := CheckInterpMethod(now.interpMethod.value);
          if interp.Fail? then interp
          else if now.fieldnameFile.None? then Fail(UnboundFieldnameFile)
          else
            var field := CheckFilenameAndField(now.fieldnameFile.value, now.interpMethod.value);
            if field.Fail? then field
            else if "factor" !in e then Fail(MissingFactor)
            else if "region_type" !in e then Pass
            else CheckRegionEntry(e)
  }

  /** The number of individual checks an entry goes through. */
  const NumChecks: nat := 18

  /**
   * Check number k of an entry, stated on its own: it holds or fails independently of
   * whether the other checks hold. A check that needs a key or a binding holds
   * vacuously when an earlier check about that key or binding fails.
   */
  predicate CheckHolds(k: nat, c: Carry, e: Entry) {
    var now := Inherit(c, e);
    var region := "region_type" in e;
    if k == 0 then "gridname" in e
    else if k == 1 then "gridname" in e ==> e["gridname"] in GridNames
    else if k == 2 then "fieldname_code" in e
    else if k == 3 then "fieldname_code" in e ==> e["fieldname_code"] != Str("")
    else if k == 4 then now.interpMethod.Some?
    else if k == 5 then now.interpMethod.Some? ==> now.interpMethod.value in InterpMethods
    else if k == 6 then now.fieldnameFile.Some?
    else if k == 7 then
      now.fieldnameFile.Some? && now.interpMethod.Some? ==>
        (now.fieldnameFile.value == Str("") ==> now.interpMethod.value == Str(""))
    else if k == 8 then "factor" in e
    else if k == 9 then region ==> e["region_type"] in RegionTypes
    else if k == 10 then region ==> "lat_start" in e
    else if k == 11 then region ==> "lat_end" in e
    else if k == 12 then region ==> "lon_start" in e
    else if k == 13 then region ==> "lon_end" in e
    else if k == 14 then region && HasBounds(e) ==> Greater(e["lat_start"], e["lat_end"]).Some?
    else if k == 15 then region && HasBounds(e) ==> Greater(e["lat_start"], e["lat_end"]) != Some(true)
    else if k == 16 then region && HasBounds(e) ==> Greater(e["lon_start"], e["lon_end"]).Some?
    else if k == 17 then region && HasBounds(e) ==> Greater(e["lon_start"], e["lon_end"]) != Some(true)
    else true
  }

  /** The number of the check that raises a given error. */
  function Position(err: Error): nat {
    match err
    case MissingGridname => 0
    case BadGridname(_) => 1
    case MissingFieldnameCode => 2
    case EmptyFieldnameCode => 3
    case UnboundInterpMethod => 4
    case BadInterpMethod(_) => 5
    case UnboundFieldnameFile => 6
    case EmptyFileWithInterp => 7
    case MissingFactor => 8
    case BadRegionType(_) => 9
    case MissingBound(b) => 10 + b.Position()
    case Incomparable(axis) => if axis.Lat? then 14 else 16
    case StartAfterEnd(axis) => if axis.Lat? then 15 else 17
  }

  /** A failing entry reports the error of a check that fails while every earlier check holds. */
  lemma EntryFailsAtFirstBrokenCheck(c: Carry, e: Entry)
    requires CheckEntry(c, e).Fail?
    ensures var p := Position(CheckEntry(c, e).error);
      && p < NumChecks
      && !CheckHolds(p, c, e)
      && forall k: nat | k < p :: CheckHolds(k, c, e)
  {
    if Position(CheckEntry(c, e).error) < 4 {
      KeyFailureInOrder(c, e);
    } else if Position(CheckEntry(c, e).error) < 9 {
      FieldFailureInOrder(c, e);
    } else {
      RegionFailureInOrder(c, e);
    }
  }

  /** The first four checks: gridname and fieldname_code. */
  lemma KeyFailureInOrder(c: Carry, e: Entry)
    requires CheckEntry(c, e).Fail? && Position(CheckEntry(c, e).error) < 4
    ensures var p := Position(CheckEntry(c, e).error);
      && !CheckHolds(p, c, e)
      && forall k: nat | k < p :: CheckHolds(k, c, e)
  {
  }

  /** Checks four to eight, run once gridname and fieldname_code are accepted: interp_method, filename/field and factor. */
  lemma FieldFailureInOrder(c: Carry, e: Entry)
    requires CheckEntry(c, e).Fail? && 4 <= Position(CheckEntry(c, e).error) < 9
    ensures var p := Position(CheckEntry(c, e).error);
      && !CheckHolds(p, c, e)
      && forall k: nat | k < p :: CheckHolds(k, c, e)
  {
  }

  /** The region checks come after all nine others have held. */
  lemma RegionFailureInOrder(c: Carry, e: Entry)
    requires CheckEntry(c, e).Fail? && Position(CheckEntry(c, e).error) >= 9
    ensures var p := Position(CheckEntry(c, e).error);
      && p < NumChecks
      && !CheckHolds(p, c, e)
      && forall k: nat | k < p :: CheckHolds(k, c, e)
  {
  }

  /**
   * Fail-fast order within an entry: the entry passes exactly when every check holds,
   * and a reported error comes from a check that fails while every earlier check holds.
   */
  lemma EntryChecksInOrder(c: Carry, e: Entry)
    ensures CheckEntry(c, e) == Pass <==> forall k: nat | k < NumChecks :: CheckHolds(k, c, e)
    ensures CheckEntry(c, e).Fail? ==>
      var p := Position(CheckEntry(c, e).error);
      && p < NumChecks
      && !CheckHolds(p, c, e)
      && forall k: nat | k < p :: CheckHolds(k, c, e)
  {
    if CheckEntry(c, e) == Pass {
      forall k: nat | k < NumChecks
        ensures CheckHolds(k, c, e)
      {
      }
    } else {
      EntryFailsAtFirstBrokenCheck(c, e);
    }
  }

  /** The bindings after the given entries have been visited, starting from no binding at all. */
  function CarryAfter(es: seq<Entry>): Carry {
    if es == [] then Unbound else Inherit(CarryAfter(es[..|es| - 1]), es[|es| - 1])
  }

  /** The value the most recent entry with `key` gave it; None when no entry has the key. */
  function Latest(es: seq<Entry>, key: string): Option<Value> {
    if es == [] then None
    else if key in es[|es| - 1] then Some(es[|es| - 1][key])
    else Latest(es[..|es| - 1], key)
  }

  /** Each carried variable holds what the most recent entry that set it gave it. */
  lemma {:induction false} CarryIsLatest(es: seq<Entry>)
    ensures CarryAfter(es) == Carry(Latest(es, "fieldname_file"), Latest(es, "interpol_method"))
  {
    if es != [] {
      CarryIsLatest(es[..|es| - 1]);
    }
  }

  /** A variable is still unbound exactly when no entry so far had its key. */
  lemma {:induction false} LatestUnboundIffNeverGiven(es: seq<Entry>, key: string)
    ensures Latest(es, key).None? <==> forall j | 0 <= j < |es| :: key !in es[j]
  {
    if es != [] {
      var init := es[..|es| - 1];
      LatestUnboundIffNeverGiven(init, key);
      assert forall j | 0 <= j < |init| :: init[j] == es[j];
    }
  }

  /** The value carried is the one from the last entry that had the key, however many entries without it follow. */
  lemma {:induction false} LatestIsMostRecent(es: seq<Entry>, key: string, j: nat)
    requires j < |es| && key in es[j]
    requires forall m | j < m < |es| :: key !in es[m]
    ensures Latest(es, key) == Some(es[j][key])
  {
    if j < |es| - 1 {
      var init := es[..|es| - 1];
      assert forall m | j < m < |init| :: init[m] == es[m];
      LatestIsMostRecent(init, key, j);
    }
  }

  /**
   * The loop over a flat list of entries: Failure with the first error raised, or
   * Success with the bindings the loop leaves behind.
   */
  function Run(es: seq<Entry>): (r: Result<Carry, Error>)
    ensures r.Success? ==> r.value == CarryAfter(es)
  {
    if es == [] then Success(Unbound)
    else
      match Run(es[..|es| - 1])
      case Failure(err) => Failure(err)
      case Success(c) =>
        match CheckEntry(c, es[|es| - 1])
        case Fail(err) => Failure(err)
        case Pass => Success(Inherit(c, es[|es| - 1]))
  }

  /** One more entry: it is checked with the bindings so far, and on success rebinds them. */
  lemma RunStep(done: seq<Entry>, e: Entry, c: Carry)
    requires Run(done) == Success(c)
    ensures Run(done + [e]) ==
      if CheckEntry(c, e).Pass? then Success(Inherit(c, e)) else Failure(CheckEntry(c, e).error)
  {
    assert (done + [e])[..|done|] == done;
  }

  /** The verdict on entry k, checked with the bindings the entries before it leave. */
  function EntryVerdict(es: seq<Entry>, k: nat): Outcome<Error>
    requires k < |es|
  {
    CheckEntry(CarryAfter(es[..k]), es[k])
  }

  predicate PassesBefore(es: seq<Entry>, k: nat)
    requires k <= |es|
  {
    forall j | 0 <= j < k :: EntryVerdict(es, j) == Pass
  }

  lemma VerdictOfPrefix(es: seq<Entry>, n: nat, k: nat)
    requires k < n <= |es|
    ensures EntryVerdict(es[..n], k) == EntryVerdict(es, k)
  {
    assert es[..n][..k] == es[..k];
  }

  lemma PassesBeforeOfPrefix(es: seq<Entry>, n: nat, k: nat)
    requires k <= n <= |es|
    ensures PassesBefore(es[..n], k) <==> PassesBefore(es, k)
  {
    forall j | 0 <= j < k
      ensures EntryVerdict(es[..n], j) == EntryVerdict(es, j)
    {
      VerdictOfPrefix(es, n, j);
    }
  }

  /** The loop finishes without raising exactly when every entry passes with the bindings it inherits. */
  lemma {:induction false} RunAcceptsIff(es: seq<Entry>)
    ensures Run(es).Success? <==> PassesBefore(es, |es|)
  {
    if es != [] {
      var n := |es| - 1;
      RunAcceptsIff(es[..n]);
      PassesBeforeOfPrefix(es, n, n);
      assert PassesBefore(es, |es|) <==> PassesBefore(es, n) && EntryVerdict(es, n) == Pass;
    }
  }

  /** An error the loop raises comes from an entry that raises it after every earlier entry passed. */
  lemma {:induction false} RunFailureLocated(es: seq<Entry>, err: Error)
    requires Run(es) == Failure(err)
    ensures exists k: nat | k < |es| :: PassesBefore(es, k) && EntryVerdict(es, k) == Fail(err)
  {
    var n := |es| - 1;
    var init := es[..n];
    if Run(init) == Failure(err) {
      RunFailureLocated(init, err);
      var k: nat :| k < n && PassesBefore(init, k) && EntryVerdict(init, k) == Fail(err);
      PassesBeforeOfPrefix(es, n, k);
      VerdictOfPrefix(es, n, k);
      assert PassesBefore(es, k) && EntryVerdict(es, k) == Fail(err);
    } else {
      RunAcceptsIff(init);
      PassesBeforeOfPrefix(es, n, n);
      assert PassesBefore(es, n) && EntryVerdict(es, n) == Fail(err);
    }
  }

  /** An entry that raises after every earlier entry passed decides what the loop raises. */
  lemma {:induction false} FirstFailingEntryRaises(es: seq<Entry>, err: Error, k: nat)
    requires k < |es| && PassesBefore(es, k) && EntryVerdict(es, k) == Fail(err)
    ensures Run(es) == Failure(err)
  {
    var n := |es| - 1;
    var init := es[..n];
    if k < n {
      PassesBeforeOfPrefix(es, n, k);
      VerdictOfPrefix(es, n, k);
      FirstFailingEntryRaises(init, err, k);
    } else {
      PassesBeforeOfPrefix(es, n, n);
      RunAcceptsIff(init);
    }
  }

  /** The loop raises err exactly when some entry raises err and every entry before it passes. */
  lemma RunFirstFailure(es: seq<Entry>, err: Error)
    ensures Run(es) == Failure(err) <==>
      exists k: nat | k < |es| :: PassesBefore(es, k) && EntryVerdict(es, k) == Fail(err)
  {
    if Run(es) == Failure(err) {
      RunFailureLocated(es, err);
    }
    if exists k: nat | k < |es| :: PassesBefore(es, k) && EntryVerdict(es, k) == Fail(err) {
      var k: nat :| k < |es| && PassesBefore(es, k) && EntryVerdict(es, k) == Fail(err);
      FirstFailingEntryRaises(es, err, k);
    }
  }

  /** Once the loop has raised, visiting more entries does not change what was raised. */
  lemma {:induction false} RunFailureIsFinal(a: seq<Entry>, b: seq<Entry>)
    requires a <= b && Run(a).Failure?
    ensures Run(b) == Run(a)
  {
    if |b| > |a| {
      var init := b[..|b| - 1];
      assert a <= init;
      RunFailureIsFinal(a, init);
    } else {
      assert a == b;
    }
  }

  /** All entries of a table, section after section, each section's entries in index order. */
  function Flatten(t: Table): (r: seq<Entry>)
    ensures forall e :: e in r <==> exists s | 0 <= s < |t| :: e in t[s].entries
  {
    if t == [] then []
    else
      var init := t[..|t| - 1];
      assert forall s | 0 <= s < |init| :: init[s] == t[s];
      Flatten(init) + t[|t| - 1].entries
  }

  lemma FlattenStep(t: Table, s: nat)
    requires s < |t|
    ensures Flatten(t[..s + 1]) == Flatten(t[..s]) + t[s].entries
  {
    assert t[..s + 1][..s] == t[..s];
  }

  lemma {:induction false} FlattenGrows(t: Table, m: nat, n: nat)
    requires m <= n <= |t|
    ensures Flatten(t[..m]) <= Flatten(t[..n])
  {
    if m < n {
      FlattenGrows(t, m, n - 1);
      FlattenStep(t, n - 1);
    }
  }

  /** The entries visited up to entry i of section s are a prefix of the whole table's entries. */
  lemma PrefixOfFlatten(t: Table, s: nat, i: nat)
    requires s < |t| && i <= |t[s].entries|
    ensures Flatten(t[..s]) + t[s].entries[..i] <= Flatten(t)
  {
    FlattenStep(t, s);
    FlattenGrows(t, s + 1, |t|);
    assert t[..|t|] == t;
  }

  /** Entry i of section s is visited at position |Flatten(t[..s])| + i: sections in table order, entries in index order. */
  lemma FlattenAt(t: Table, s: nat, i: nat)
    requires s < |t| && i < |t[s].entries|
    ensures |Flatten(t[..s])| + i < |Flatten(t)|
    ensures Flatten(t)[|Flatten(t[..s])| + i] == t[s].entries[i]
  {
    PrefixOfFlatten(t, s, i + 1);
  }

  /** The whole validation: Pass when the script would run to its end, otherwise the first error it raises. */
  function Validate(t: Table): (r: Outcome<Error>)
    ensures r == Pass <==> PassesBefore(Flatten(t), |Flatten(t)|)
    ensures r.Fail? ==> exists k: nat | k < |Flatten(t)| ::
      PassesBefore(Flatten(t), k) && EntryVerdict(Flatten(t), k) == r
  {
    var es := Flatten(t);
    RunAcceptsIff(es);
    match Run(es)
    case Success(_) => Pass
    case Failure(err) =>
      RunFailureLocated(es, err);
      Fail(err)
  }

  /** Any entry with a defect of its own makes the whole table invalid, wherever it stands. */
  lemma FaultyEntryRejectsTable(t: Table, s: nat, i: nat)
    requires s < |t| && i < |t[s].entries|
    requires SelfEvidentFault(t[s].entries[i])
    ensures Validate(t).Fail?
  {
    FlattenAt(t, s, i);
    RunAcceptsIff(Flatten(t));
    var k := |Flatten(t[..s])| + i;
    assert EntryVerdict(Flatten(t), k).Fail?;
  }

  /**
   * A carried variable whose key no entry up to and including entry k has set is still
   * unbound at entry k, so the table is invalid.
   */
  lemma UnsetVariableRejectsTable(t: Table, k: nat, key: string)
    requires key == "fieldname_file" || key == "interpol_method"
    requires k < |Flatten(t)|
    requires forall j | 0 <= j <= k :: key !in Flatten(t)[j]
    ensures Validate(t).Fail?
  {
    var es := Flatten(t);
    RunAcceptsIff(es);
    CarryIsLatest(es[..k]);
    LatestUnboundIffNeverGiven(es[..k], key);
    assert EntryVerdict(es, k).Fail?;
  }

  /**
   * In a table that validates, every entry is checked with a bound interpolation method
   * from the allowed list and a bound, non-empty `fieldname_file`, whether the entry
   * gives them itself or inherits them.
   */
  lemma AcceptedTableBindings(t: Table, k: nat)
    requires Validate(t) == Pass && k < |Flatten(t)|
    ensures var now := CarryAfter(Flatten(t)[..k + 1]);
      && now.interpMethod.Some? && now.interpMethod.value in InterpMethods
      && now.fieldnameFile.Some? && now.fieldnameFile.value != Str("")
  {
    var es := Flatten(t);
    RunAcceptsIff(es);
    assert EntryVerdict(es, k) == Pass;
    assert es[..k + 1][..k] == es[..k];
  }

  /**
   * The body of the inner loop, lines 55-95, on one entry: it returns the entry's
   * outcome and the new bindings of the two carried variables.
   */
  method ValidateEntry(fieldnameFile: Option<Value>, interpMethod: Option<Value>, entry: Entry)
    returns (outcome: Outcome<Error>, nextFile: Option<Value>, nextInterp: Option<Value>)
    ensures outcome == CheckEntry(Carry(fieldnameFile, interpMethod), entry)
    ensures outcome.Pass? ==> Carry(nextFile, nextInterp) == Inherit(Carry(fieldnameFile, interpMethod), entry)
  {
    nextFile, nextInterp := fieldnameFile, interpMethod;
    if "gridname" !in entry {
      return Fail(MissingGridname), nextFile, nextInterp;
    }
    var gridname := entry["gridname"];
    outcome := CheckGridname(gridname);
    if outcome.Fail? {
      return;
    }

    if "fieldname_code" !in entry {
      return Fail(MissingFieldnameCode), nextFile, nextInterp;
    }
    var fieldnameCode := entry["fieldname_code"];
    outcome := CheckFieldnameCode(fieldnameCode);
    if outcome.Fail? {
      return;
    }

    if "fieldname_file" in entry {
      nextFile := Some(entry["fieldname_file"]);
    }
    if "interpol_method" in entry {
      nextInterp := Some(entry["interpol_method"]);
    }

    if nextInterp.None? {
      return Fail(UnboundInterpMethod), nextFile, nextInterp;
    }
    outcome := CheckInterpMethod(nextInterp.value);
    if outcome.Fail? {
      return;
    }
    if nextFile.None? {
      return Fail(UnboundFieldnameFile), nextFile, nextInterp;
    }
    outcome := CheckFilenameAndField(nextFile.value, nextInterp.value);
    if outcome.Fail? {
      return;
    }

    if "factor" !in entry {
      return Fail(MissingFactor), nextFile, nextInterp;
    }

    if "region_type" in entry {
      var regionType := entry["region_type"];
      outcome := CheckRegionType(regionType);
      if outcome.Fail? {
        return;
      }
      outcome := CheckIfBoundsPresent(entry);
      if outcome.Fail? {
        return;
      }
      outcome := CheckRegion(Lat, entry["lat_start"], entry["lat_end"]);
      if outcome.Fail? {
        return;
      }
      outcome := CheckRegion(Lon, entry["lon_start"], entry["lon_end"]);
    }
  }

  /**
   * One pass of the inner loop: entry i of section s is checked with the bindings the
   * entries before it left; passing extends the run, failing decides the whole table.
   */
  lemma InnerStep(t: Table, s: nat, i: nat, c: Carry)
    requires s < |t| && i < |t[s].entries|
    requires Run(Flatten(t[..s]) + t[s].entries[..i]) == Success(c)
    ensures var v := CheckEntry(c, t[s].entries[i]);
      && (v.Pass? ==> Run(Flatten(t[..s]) + t[s].entries[..i + 1]) == Success(Inherit(c, t[s].entries[i])))
      && (v.Fail? ==> Validate(t) == v)
  {
    var e := t[s].entries[i];
    var done := Flatten(t[..s]) + t[s].entries[..i];
    RunStep(done, e, c);
    assert done + [e] == Flatten(t[..s]) + t[s].entries[..i + 1];
    if CheckEntry(c, e).Fail? {
      PrefixOfFlatten(t, s, i + 1);
      RunFailureIsFinal(done + [e], Flatten(t));
    }
  }

  /**
   * Lines 53-95: sections in table order, entries in index order, the two carried
   * variables living across entries and sections; the first error aborts the run.
   */
  method ValidateDataTable(table: Table) returns (outcome: Outcome<Error>)
    ensures outcome == Validate(table)
  {
    var fieldnameFile: Option<Value> := None;
    var interpMethod: Option<Value> := None;
    for s := 0 to |table|
      invariant Run(Flatten(table[..s])) == Success(Carry(fieldnameFile, interpMethod))
    {
      var entries := table[s].entries;
      assert Flatten(table[..s]) + entries[..0] == Flatten(table[..s]);
      for i := 0 to |entries|
        invariant Run(Flatten(table[..s]) + entries[..i]) == Success(Carry(fieldnameFile, interpMethod))
      {
        var entryOutcome, nextFile, nextInterp := ValidateEntry(fieldnameFile, interpMethod, entries[i]);
        InnerStep(table, s, i, Carry(fieldnameFile, interpMethod));
        if entryOutcome.Fail? {
          return entryOutcome;
        }
        fieldnameFile, interpMethod := nextFile, nextInterp;
      }
      assert entries[..|entries|] == entries;
      FlattenStep(table, s);
    }
    assert table[..|table|] == table;
    outcome := Pass;
  }
}
