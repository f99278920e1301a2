/**
 * The field checks of the data_table validator (data_table/is_valid_data_table_yaml.py,
 * lines 19-49). Each check either passes or reports the one error the Python helper raises.
 */
module Checks {
  import opened Wrappers

  /**
   * A value as the YAML loader hands it to the validator. `Num` stands for both YAML
   * integers and floats (Python compares them numerically). `Other` stands for every
   * other kind: null, lists, mappings, timestamps, binary and sets. The checks accept
   * none of these, and the model does not order them, although Python orders two
   * lists, two timestamps, two byte strings or two sets.
   */
  datatype Value = Str(s: string) | Num(x: real) | Bool(b: bool) | Other

  /** One data_table entry: a mapping from key to value. */
  type Entry = map<string, Value>

  /** The four region bounds, in the order their presence is checked. */
  datatype Bound = LatStart | LatEnd | LonStart | LonEnd {
    function Key(): string {
      match this
      case LatStart => "lat_start"
      case LatEnd => "lat_end"
      case LonStart => "lon_start"
      case LonEnd => "lon_end"
    }

    function Position(): nat {
      match this
      case LatStart => 0
      case LatEnd => 1
      case LonStart => 2
      case LonEnd => 3
    }
  }

  /** The two axes whose bounds are compared, latitude first. */
  datatype Axis = Lat | Lon {
    function Start(): Bound {
      if Lat? then LatStart else LonStart
    }

    function End(): Bound {
      if Lat? then LatEnd else LonEnd
    }
  }

  /** One constructor per exception the validator can raise, with the offending value where the message names it. */
  datatype Error =
    | MissingGridname
    | BadGridname(gridname: Value)
    | MissingFieldnameCode
    | EmptyFieldnameCode
    | UnboundInterpMethod                    // NameError: no entry so far set `interpol_method`
    | BadInterpMethod(interpMethod: Value)
    | UnboundFieldnameFile                   // NameError: no entry so far set `fieldname_file`
    | EmptyFileWithInterp
    | MissingFactor
    | BadRegionType(regionType: Value)
    | MissingBound(bound: Bound)
    | Incomparable(axis: Axis)               // TypeError raised by `>` on values it cannot order
    | StartAfterEnd(axis: Axis)

  const GridNames: set<Value> := {Str("OCN"), Str("LND"), Str("ATM"), Str("ICE")}
  const InterpMethods: set<Value> := {Str("bilinear"), Str("bicubic"), Str("none")}
  const RegionTypes: set<Value> := {Str("inside_region"), Str("outside_region")}

  /** check_gridname: only the four grid names are accepted. */
  function CheckGridname(gridname: Value): (r: Outcome<Error>)
    ensures r.Pass? <==> gridname in GridNames
    ensures r.Fail? ==> r.error == BadGridname(gridname)
  {
    if gridname.Str? && gridname.s in ["OCN", "LND", "ATM", "ICE"] then Pass
    else Fail(BadGridname(gridname))
  }

  /** check_fieldname_code: the empty string is the only rejected code. */
  function CheckFieldnameCode(fieldname: Value): (r: Outcome<Error>)
    ensures r.Pass? <==> fieldname != Str("")
    ensures r.Fail? ==> r.error == EmptyFieldnameCode
  {
    if fieldname == Str("") then Fail(EmptyFieldnameCode) else Pass
  }

  /** check_filename_and_field: an empty `fieldname_file` demands an empty interpolation method. */
  function CheckFilenameAndField(field: Value, interpMethod: Value): (r: Outcome<Error>)
    ensures r.Pass? <==> (field == Str("") ==> interpMethod == Str(""))
    ensures r.Fail? ==> r.error == EmptyFileWithInterp
  {
    if field == Str("") && interpMethod != Str("") then Fail(EmptyFileWithInterp) else Pass
  }

  /** check_interp_method: only bilinear, bicubic and none are accepted; never the empty string. */
  function CheckInterpMethod(interpMethod: Value): (r: Outcome<Error>)
    ensures r.Pass? <==> interpMethod in InterpMethods
    ensures r.Pass? ==> interpMethod != Str("")
    ensures r.Fail? ==> r.error == BadInterpMethod(interpMethod)
  {
    if interpMethod.Str? && interpMethod.s in ["bilinear", "bicubic", "none"] then Pass
    else Fail(BadInterpMethod(interpMethod))
  }

  /** check_region_type: only inside_region and outside_region are accepted. */
  function CheckRegionType(regionType: Value): (r: Outcome<Error>)
    ensures r.Pass? <==> regionType in RegionTypes
    ensures r.Fail? ==> r.error == BadRegionType(regionType)
  {
    if regionType.Str? && regionType.s in ["inside_region", "outside_region"] then Pass
    else Fail(BadRegionType(regionType))
  }

  /** check_if_bounds_present: the first absent bound, in the order lat_start, lat_end, lon_start, lon_end, is reported. */
  function CheckIfBoundsPresent(entry: Entry): (r: Outcome<Error>)
    ensures r.Pass? <==> "lat_start" in entry && "lat_end" in entry && "lon_start" in entry && "lon_end" in entry
    ensures r.Fail? ==> r.error.MissingBound? && r.error.bound.Key() !in entry
    ensures r.Fail? ==> forall b: Bound :: b.Position() < r.error.bound.Position() ==> b.Key() in entry
  {
    if "lat_start" !in entry then Fail(MissingBound(LatStart))
    else if "lat_end" !in entry then Fail(MissingBound(LatEnd))
    else if "lon_start" !in entry then Fail(MissingBound(LonStart))
    else if "lon_end" !in entry then Fail(MissingBound(LonEnd))
    else Pass
  }

  /** Python's numeric view of a value: numbers as themselves, booleans as 1 and 0. */
  function AsNumber(v: Value): Option<real> {
    match v
    case Num(x) => Some(x)
    case Bool(b) => Some(if b then 1.0 else 0.0)
    case _ => None
  }

  /** Python's `<` on strings: lexicographic by code point, a proper prefix first. */
  predicate StrLess(a: string, b: string) {
    if |b| == 0 then false
    else if |a| == 0 then true
    else if a[0] != b[0] then a[0] < b[0]
    else StrLess(a[1..], b[1..])
  }

  lemma {:induction false} StrLessIrreflexive(a: string)
    ensures !StrLess(a, a)
  {
    if |a| > 0 {
      StrLessIrreflexive(a[1..]);
    }
  }

  lemma {:induction false} StrLessTrichotomy(a: string, b: string)
    ensures a == b || StrLess(a, b) || StrLess(b, a)
    ensures !(StrLess(a, b) && StrLess(b, a))
  {
    if |a| > 0 && |b| > 0 && a[0] == b[0] {
      StrLessTrichotomy(a[1..], b[1..]);
      if a[1..] == b[1..] {
        assert a == [a[0]] + a[1..] && b == [b[0]] + b[1..];
      }
    }
  }

  lemma {:induction false} StrLessTransitive(a: string, b: string, c: string)
    requires StrLess(a, b) && StrLess(b, c)
    ensures StrLess(a, c)
  {
    if |a| > 0 && a[0] == b[0] && b[0] == c[0] {
      StrLessTransitive(a[1..], b[1..], c[1..]);
    }
  }

  /**
   * Python's `a > b` on numbers, booleans and strings: Some(answer) when the two values
   * are of those kinds and can be ordered, None otherwise. None is the TypeError Python
   * raises on mixed kinds or on null and mappings; for two `Other` values that Python
   * does order (lists, timestamps, binary, sets) the model answers None as well.
   */
  function Greater(a: Value, b: Value): (r: Option<bool>)
    ensures r.Some? <==> (AsNumber(a).Some? && AsNumber(b).Some?) || (a.Str? && b.Str?)
    ensures r.Some? && a == b ==> r == Some(false)
    ensures r == Some(false) <==> AtMost(a, b)
  {
    if AsNumber(a).Some? && AsNumber(b).Some? then Some(AsNumber(a).value > AsNumber(b).value)
    else if a.Str? && b.Str? then
      StrLessIrreflexive(a.s);
      StrLessTrichotomy(a.s, b.s);
      Some(StrLess(b.s, a.s))
    else None
  }

  /** Python's `>` is a strict order on the values it can compare: asymmetric and transitive. */
  lemma GreaterStrictOrder(a: Value, b: Value, c: Value)
    ensures Greater(a, b) == Some(true) ==> Greater(b, a) == Some(false)
    ensures Greater(a, b) == Some(true) && Greater(b, c) == Some(true) ==> Greater(a, c) == Some(true)
  {
    if a.Str? && b.Str? {
      StrLessTrichotomy(a.s, b.s);
      if c.Str? && StrLess(b.s, a.s) && StrLess(c.s, b.s) {
        StrLessTransitive(c.s, b.s, a.s);
      }
    }
  }

  /** Python's `a <= b` where both are of an ordered kind: the relation a region's bounds must satisfy. */
  predicate AtMost(a: Value, b: Value) {
    || (AsNumber(a).Some? && AsNumber(b).Some? && AsNumber(a).value <= AsNumber(b).value)
    || (a.Str? && b.Str? && (a.s == b.s || StrLess(a.s, b.s)))
  }

  /** check_region: the start of an axis must not lie after its end. */
  function CheckRegion(axis: Axis, start: Value, end: Value): (r: Outcome<Error>)
    ensures r.Pass? <==> AtMost(start, end)
    ensures r.Fail? ==> r.error == (if Greater(start, end).Some? then StartAfterEnd(axis) else Incomparable(axis))
  {
    match Greater(start, end)
    case None => Fail(Incomparable(axis))
    case Some(after) => if after then Fail(StartAfterEnd(axis)) else Pass
  }
}
