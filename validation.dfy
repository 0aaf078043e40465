/** `__validate_args`: normalise the loosely shaped arguments of `get_houses`
    and reject bad ones, year range first, then `output_type`, then unknown
    community areas. */
module Validation {
  import opened Wrappers
  import opened Text
  import opened Seqs
  import opened Frames

  /** The output kinds `get_houses` dispatches on. */
  datatype OutputType = GeoPandas | Pandas | Polars

  /** The membership test against ["geopandas", "pandas", "polars"]. */
  function ParseOutputType(s: string): (r: Option<OutputType>)
    ensures r.Some? <==> s in ["geopandas", "pandas", "polars"]
    ensures r == Some(GeoPandas) <==> s == "geopandas"
    ensures r == Some(Pandas) <==> s == "pandas"
    ensures r == Some(Polars) <==> s == "polars"
  {
    if s == "geopandas" then Some(GeoPandas)
    else if s == "pandas" then Some(Pandas)
    else if s == "polars" then Some(Polars)
    else None
  }

  /** The three RuntimeErrors the validation raises. */
  datatype ArgError =
    | YearRangeError
    | OutputTypeError
    | InvalidAreas(names: seq<string>)

  // The texts are built from short pieces so that the verifier can see their characters.
  const YearRangeMessage: string := "Invalid date range." + " Requires a 2-integer list of values."
  const OutputTypeMessage: string :=
    "Invalid selection for \"output_type\"." +
    " Choose one of the following: \"polars\", \"geopandas\", or \"pandas\"."
  const InvalidAreasPrefix: string := "The following are not valid " + "community area(s): "

  /** The text of the RuntimeError each error raises. The three texts differ,
      so the message tells which check failed. */
  function Message(e: ArgError): (r: string)
    ensures r == YearRangeMessage <==> e.YearRangeError?
    ensures r == OutputTypeMessage <==> e.OutputTypeError?
    ensures e.InvalidAreas? ==>
      |InvalidAreasPrefix| < |r| && r[..|InvalidAreasPrefix|] == InvalidAreasPrefix && r[|r| - 1] == '.'
    ensures e.InvalidAreas? ==> r == InvalidAreasPrefix + Join(e.names, ", ") + "."
  {
    assert YearRangeMessage[0] == 'I' && YearRangeMessage[8] == 'd';
    assert OutputTypeMessage[0] == 'I' && OutputTypeMessage[8] == 's';
    assert InvalidAreasPrefix[0] == 'T';
    match e
    case YearRangeError => YearRangeMessage
    case OutputTypeError => OutputTypeMessage
    case InvalidAreas(names) =>
      var r := InvalidAreasPrefix + Join(names, ", ") + ".";
      assert r[0] == 'T';
      r
  }

  /** The invalid-area message names every offending area, each one whole. */
  lemma MessageNamesEveryArea(names: seq<string>, i: nat)
    requires i < |names|
    ensures OccursAt(Message(InvalidAreas(names)), names[i], |InvalidAreasPrefix| + JoinOffset(names, ", ", i))
  {
    var joined := Join(names, ", ");
    JoinContains(names, ", ", i);
    OccursBeforeSuffix(joined, ".", names[i], JoinOffset(names, ", ", i));
    OccursAfterPrefix(InvalidAreasPrefix, joined + ".", names[i], JoinOffset(names, ", ", i));
    assert Message(InvalidAreas(names)) == InvalidAreasPrefix + (joined + ".");
  }

  /** The caller's Python list of years, which the validation may extend in place. */
  class IntList {
    var items: seq<int>

    constructor (items: seq<int>)
      ensures this.items == items
    {
      this.items := items;
    }

    /** `list.extend(xs)`. */
    method Extend(xs: seq<int>)
      modifies this
      ensures items == old(items) + xs
    {
      items := items + xs;
    }
  }

  /** `community_areas`: the default `False`, one name, or a list of names. */
  datatype AreasArg = NoAreas | AreaName(name: string) | AreaNames(names: seq<string>)

  /** `year_range`: the default `False`, one number, or the caller's list. */
  datatype YearArg = NoYearRange | YearNumber(year: int) | YearList(list: IntList) {
    function Footprint(): set<object> {
      if YearList? then {list} else {}
    }
  }

  /** Python truthiness of `community_areas`: `False`, "" and [] mean "no filter". */
  predicate AreasGiven(a: AreasArg)
    ensures !AreasGiven(a) <==> a == NoAreas || a == AreaName("") || a == AreaNames([])
  {
    match a
    case NoAreas => false
    case AreaName(name) => name != []
    case AreaNames(names) => names != []
  }

  /** Python truthiness of `year_range`: `False`, 0 and [] mean "no filter". */
  predicate YearsGiven(a: YearArg)
    reads a.Footprint()
    ensures !YearsGiven(a) <==> a == NoYearRange || a == YearNumber(0) || (a.YearList? && a.list.items == [])
  {
    match a
    case NoYearRange => false
    case YearNumber(y) => y != 0
    case YearList(list) => list.items != []
  }

  /** What `year_range.extend(year_range)` leaves in a list that it doubles. */
  function ExtendIfSingle(ys: seq<int>): (r: seq<int>)
    ensures |ys| == 1 ==> r == [ys[0], ys[0]]
    ensures |ys| != 1 ==> r == ys
    ensures |r| == 2 <==> |ys| == 1 || |ys| == 2
  {
    if |ys| == 1 then ys + ys else ys
  }

  /** Normalised community areas: None when no filter was asked for, otherwise
      the names (one name wrapped in a list) upper-cased. */
  function NormalizeAreas(a: AreasArg): (r: Option<seq<string>>)
    ensures r.None? <==> !AreasGiven(a)
    ensures r.Some? ==> r.value != []
    ensures a.AreaName? && a.name != [] ==> r == Some([Upper(a.name)])
    ensures a.AreaNames? && a.names != [] ==>
      r.Some? && |r.value| == |a.names| &&
      forall i :: 0 <= i < |a.names| ==> r.value[i] == Upper(a.names[i])
  {
    if !AreasGiven(a) then None
    else if a.AreaName? then
      var one := UpperAll([a.name]);
      assert one == [Upper(a.name)];
      Some(one)
    else Some(UpperAll(a.names))
  }

  /** Normalised year range: None when no filter was asked for, the inclusive
      bounds (lower, upper) otherwise, or the year-range error. */
  function NormalizeYears(a: YearArg): (r: Result<Option<(int, int)>, ArgError>)
    reads a.Footprint()
    ensures !YearsGiven(a) ==> r == Success(None)
    ensures a.YearNumber? && a.year != 0 ==> r == Success(Some((a.year, a.year)))
    ensures a.YearList? && |a.list.items| == 1 ==>
      r == Success(Some((a.list.items[0], a.list.items[0])))
    ensures a.YearList? && |a.list.items| == 2 ==>
      r == Success(Some((a.list.items[0], a.list.items[1])))
    ensures a.YearList? && |a.list.items| >= 3 ==> r == Failure(YearRangeError)
    ensures r.Failure? ==> r.error == YearRangeError
  {
    if !YearsGiven(a) then Success(None)
    else
      var ys := ExtendIfSingle(if a.YearNumber? then [a.year] else a.list.items);
      if |ys| != 2 then Failure(YearRangeError)
      else Success(Some((ys[0], ys[1])))
  }

  /** `[area for area in areas if area not in known]`. */
  function UnknownAreas(areas: seq<string>, known: set<string>): (r: seq<string>)
    ensures forall a :: a in r <==> a in areas && a !in known
    ensures r == [] <==> forall a :: a in areas ==> a in known
  {
    var r := Keep(areas, a => a !in known);
    assert r != [] ==> r[0] in r;
    r
  }

  /** The unknown areas keep the input order and every duplicate. */
  lemma UnknownAreasOrderAndDuplicates(a: seq<string>, b: seq<string>, known: set<string>, x: string)
    ensures UnknownAreas(a + b, known) == UnknownAreas(a, known) + UnknownAreas(b, known)
    ensures multiset(UnknownAreas(a, known))[x] == if x in known then 0 else multiset(a)[x]
  {
    KeepConcat(a, b, u => u !in known);
    KeepCount(a, u => u !in known, x);
  }

  /** What a successful validation hands back to `get_houses`. */
  datatype Args = Args(areas: Option<seq<string>>, years: Option<(int, int)>, output: OutputType)

  /** The outcome of `__validate_args` on the arguments as the caller passed
      them, against the dataset's distinct community names `known`. */
  function Validate(areas: AreasArg, outputType: string, years: YearArg, known: set<string>): (r: Result<Args, ArgError>)
    reads years.Footprint()
    // the year range is checked first ...
    ensures NormalizeYears(years).Failure? ==> r == Failure(YearRangeError)
    // ... then the output type ...
    ensures NormalizeYears(years).Success? && ParseOutputType(outputType).None? ==>
      r == Failure(OutputTypeError)
    // ... and last the community areas, all unknown names in one error
    ensures (NormalizeYears(years).Success? && ParseOutputType(outputType).Some? &&
             NormalizeAreas(areas).Some? && UnknownAreas(NormalizeAreas(areas).value, known) != []) ==>
      r == Failure(InvalidAreas(UnknownAreas(NormalizeAreas(areas).value, known)))
    ensures r.Failure? && r.error.InvalidAreas? ==>
      NormalizeAreas(areas).Some? &&
      r.error.names == UnknownAreas(NormalizeAreas(areas).value, known) &&
      r.error.names != []
    ensures r.Success? <==>
      NormalizeYears(years).Success? && ParseOutputType(outputType).Some? &&
      (NormalizeAreas(areas).None? || forall a :: a in NormalizeAreas(areas).value ==> a in known)
    ensures r.Success? ==>
      r.value.areas == NormalizeAreas(areas) &&
      r.value.years == NormalizeYears(years).value &&
      Some(r.value.output) == ParseOutputType(outputType)
  {
    var ys := NormalizeYears(years);
    if ys.Failure? then Failure(ys.error)
    else
      match ParseOutputType(outputType)
      case None => Failure(OutputTypeError)
      case Some(output) =>
        var names := NormalizeAreas(areas);
        if names.Some? && UnknownAreas(names.value, known) != [] then
          Failure(InvalidAreas(UnknownAreas(names.value, known)))
        else
          Success(Args(names, ys.value, output))
  }

  /** A three-element year range with output type "csv" reports the year range. */
  lemma BadYearsBeforeBadOutput(areas: AreasArg, list: IntList, known: set<string>)
    requires |list.items| == 3
    ensures Validate(areas, "csv", YearList(list), known) == Failure(YearRangeError)
  {
  }

  /** An unknown name such as "Atlantis" is reported upper-cased. */
  lemma UnknownNameReported(known: set<string>)
    requires "ATLANTIS" !in known
    ensures Validate(AreaNames(["Atlantis"]), "geopandas", NoYearRange, known) ==
      Failure(InvalidAreas(["ATLANTIS"]))
  {
    assert Upper("Atlantis") == "ATLANTIS";
    var normal := NormalizeAreas(AreaNames(["Atlantis"]));
    assert |normal.value| == 1 && normal.value[0] == Upper("Atlantis");
    assert normal.value == [normal.value[0]];
    assert NormalizeAreas(AreaNames(["Atlantis"])) == Some(["ATLANTIS"]);
    var invalid := UnknownAreas(["ATLANTIS"], known);
    assert "ATLANTIS" in invalid;
    assert |invalid| <= 1 by {
      assert invalid == Keep(["ATLANTIS"], a => a !in known);
    }
    assert invalid == ["ATLANTIS"];
  }

  /** `__validate_args`, statement by statement. The caller's one-element year
      list is doubled in place before any check can fail. */
  method ValidateArgs(areasIn: AreasArg, outputType: string, yearsIn: YearArg, dataset: Frame)
    returns (r: Result<Args, ArgError>)
    modifies yearsIn.Footprint()
    ensures r == old(Validate(areasIn, outputType, yearsIn, Communities(dataset.rows)))
    ensures yearsIn.YearList? ==> yearsIn.list.items == ExtendIfSingle(old(yearsIn.list.items))
  {
    var areas: Option<seq<string>> := None;
    if AreasGiven(areasIn) {
      var names := if areasIn.AreaName? then [areasIn.name] else areasIn.names;
      areas := Some(UpperAll(names));
    }

    var years: Option<(int, int)> := None;
    if YearsGiven(yearsIn) {
      var list: IntList;
      if yearsIn.YearNumber? {
        list := new IntList([yearsIn.year]);
      } else {
        list := yearsIn.list;
      }
      if |list.items| == 1 {
        list.Extend(list.items);
      }
      if |list.items| != 2 {
        return Failure(YearRangeError);
      }
      years := Some((list.items[0], list.items[1]));
    }

    var output := ParseOutputType(outputType);
    if output.None? {
      return Failure(OutputTypeError);
    }

    if areas.Some? {
      var known := Communities(dataset.rows);
      var invalid := UnknownAreas(areas.value, known);
      if invalid != [] {
        return Failure(InvalidAreas(invalid));
      }
    }
    r := Success(Args(areas, years, output.value));
  }
}
