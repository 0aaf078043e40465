/** `get_houses`: validate the arguments, project the columns, filter by
    community area and by build year, and tag the result with its output kind. */
module Houses {
  import opened Wrappers
  import opened Text
  import opened Seqs
  import opened Frames
  import opened Validation

  /** The result of a successful call: the filtered frame and the kind of
      table it is handed back as (a GeoDataFrame, a pandas DataFrame or the
      polars LazyFrame itself). */
  datatype HouseTable = HouseTable(kind: OutputType, frame: Frame)

  /** Minimal mode keeps the five core columns; full mode keeps them all. */
  function Project(dataset: Frame, fullData: bool): (r: Frame)
    requires HasColumns(dataset, MinimalColumns)
    ensures r.columns == if fullData then dataset.columns else MinimalColumns
    ensures forall c :: c in r.columns ==> c in dataset.columns
    ensures forall c :: c in MinimalColumns ==> c in r.columns
    ensures r.rows == dataset.rows
  {
    if fullData then dataset else Select(dataset, MinimalColumns)
  }

  /** The community-area predicate: membership in the (re-)upper-cased names. */
  function AreaFilter(areas: seq<string>): (keep: Row -> bool)
    ensures forall x: Row :: keep(x) <==> exists i :: 0 <= i < |areas| && x.community == Upper(areas[i])
  {
    (x: Row) => x.community in UpperAll(areas)
  }

  /** The build-year predicate, inclusive at both ends: a row passes exactly
      when its build year lies within the bounds, so a row built in either
      bound year passes and a reversed range lets nothing through. */
  function YearFilter(years: (int, int)): (keep: Row -> bool)
    ensures forall x: Row :: keep(x) ==> years.0 <= x.buildYear <= years.1
    ensures forall x: Row :: years.0 <= x.buildYear <= years.1 ==> keep(x)
    ensures forall x: Row :: years.0 <= years.1 && (x.buildYear == years.0 || x.buildYear == years.1) ==> keep(x)
    ensures years.0 > years.1 ==> forall x: Row :: !keep(x)
  {
    (x: Row) => years.0 <= x.buildYear <= years.1
  }

  /** The rows a validated call selects, stated directly on a row: each active
      filter holds and an inactive one lets everything through. */
  predicate Selected(x: Row, args: Args) {
    && (args.areas.None? || x.community in args.areas.value)
    && (args.years.None? || args.years.value.0 <= x.buildYear <= args.years.value.1)
  }

  function Selection(args: Args): Row -> bool {
    (x: Row) => Selected(x, args)
  }

  /** The projection and the two filters of `get_houses`, once the arguments
      are valid. With upper-case area names it keeps exactly the selected rows,
      in dataset order. */
  function Pipeline(dataset: Frame, args: Args, fullData: bool): (r: Frame)
    requires HasColumns(dataset, MinimalColumns)
    ensures r.columns == if fullData then dataset.columns else MinimalColumns
    ensures (args.areas.Some? ==> UpperAll(args.areas.value) == args.areas.value) ==>
      r.rows == Keep(dataset.rows, Selection(args))
  {
    var projected := Project(dataset, fullData);
    var byArea := if args.areas.Some? then Filter(projected, AreaFilter(args.areas.value)) else projected;
    var result := if args.years.Some? then Filter(byArea, YearFilter(args.years.value)) else byArea;
    var areaKeep: Row -> bool := if args.areas.Some? then AreaFilter(args.areas.value) else (x: Row) => true;
    var yearKeep: Row -> bool := if args.years.Some? then YearFilter(args.years.value) else (x: Row) => true;
    KeepAll(dataset.rows, areaKeep);
    KeepAll(byArea.rows, yearKeep);
    KeepKeep(dataset.rows, areaKeep, yearKeep, Selection(args));
    result
  }

  /** The outcome of `get_houses` on the arguments as the caller passed them. */
  function Query(dataset: Frame, areas: AreasArg, years: YearArg, fullData: bool, outputType: string)
    : (r: Result<HouseTable, ArgError>)
    requires HasColumns(dataset, MinimalColumns)
    reads years.Footprint()
    ensures r.Failure? <==> Validate(areas, outputType, years, Communities(dataset.rows)).Failure?
    ensures r.Failure? ==> r.error == Validate(areas, outputType, years, Communities(dataset.rows)).error
    ensures r.Success? ==>
      Some(r.value.kind) == ParseOutputType(outputType) &&
      r.value.frame.columns == (if fullData then dataset.columns else MinimalColumns)
  {
    match Validate(areas, outputType, years, Communities(dataset.rows))
    case Failure(e) => Failure(e)
    case Success(args) => Success(HouseTable(args.output, Pipeline(dataset, args, fullData)))
  }

  /** The validated area names are upper-case already, so upper-casing them
      again at the filter changes nothing. */
  lemma NormalizedAreasAreUpper(areas: AreasArg)
    requires NormalizeAreas(areas).Some?
    ensures UpperAll(NormalizeAreas(areas).value) == NormalizeAreas(areas).value
  {
    var names := if areas.AreaName? then [areas.name] else areas.names;
    assert NormalizeAreas(areas).value == UpperAll(names);
    UpperAllIdempotent(names);
  }

  /** A successful call returns exactly the rows that satisfy every active
      filter, in dataset order, with the columns of the chosen mode. */
  lemma QueryResult(dataset: Frame, areas: AreasArg, years: YearArg, fullData: bool, outputType: string, args: Args)
    requires HasColumns(dataset, MinimalColumns)
    requires Validate(areas, outputType, years, Communities(dataset.rows)) == Success(args)
    ensures Query(dataset, areas, years, fullData, outputType) ==
      Success(HouseTable(args.output, Frame(if fullData then dataset.columns else MinimalColumns,
                                        Keep(dataset.rows, Selection(args)))))
    ensures forall x :: x in Query(dataset, areas, years, fullData, outputType).value.frame.rows <==>
      x in dataset.rows && Selected(x, args)
  {
    if args.areas.Some? {
      NormalizedAreasAreUpper(areas);
    }
  }

  /** Full mode and minimal mode select the same rows, and fail alike. */
  lemma ProjectionKeepsRows(dataset: Frame, areas: AreasArg, years: YearArg, outputType: string)
    requires HasColumns(dataset, MinimalColumns)
    ensures Query(dataset, areas, years, true, outputType).Success? <==>
            Query(dataset, areas, years, false, outputType).Success?
    ensures Query(dataset, areas, years, true, outputType).Success? ==>
      Query(dataset, areas, years, true, outputType).value.frame.rows ==
      Query(dataset, areas, years, false, outputType).value.frame.rows
  {
  }

  /** Falsy area and year arguments filter nothing out. */
  lemma NoFilterKeepsEveryRow(dataset: Frame, areas: AreasArg, years: YearArg, fullData: bool, outputType: string)
    requires HasColumns(dataset, MinimalColumns)
    requires !AreasGiven(areas) && !YearsGiven(years)
    requires ParseOutputType(outputType).Some?
    ensures Query(dataset, areas, years, fullData, outputType).Success?
    ensures Query(dataset, areas, years, fullData, outputType).value.frame.rows == dataset.rows
  {
  }

  /** Nothing checks that the lower bound is at most the upper bound: a
      reversed range is accepted and selects no rows. */
  lemma ReversedRangeSelectsNothing(dataset: Frame, areas: AreasArg, list: IntList, fullData: bool, outputType: string)
    requires HasColumns(dataset, MinimalColumns)
    requires |list.items| == 2 && list.items[0] > list.items[1]
    requires ParseOutputType(outputType).Some?
    requires NormalizeAreas(areas).None? ||
      forall a :: a in NormalizeAreas(areas).value ==> a in Communities(dataset.rows)
    ensures Query(dataset, areas, YearList(list), fullData, outputType).Success?
    ensures Query(dataset, areas, YearList(list), fullData, outputType).value.frame.rows == []
  {
    var args := Validate(areas, outputType, YearList(list), Communities(dataset.rows)).value;
    QueryResult(dataset, areas, YearList(list), fullData, outputType, args);
    KeepNone(dataset.rows, Selection(args));
  }

  /** A single year y behaves as the range [y, y]: whatever accepted output
      type is asked for, exactly the rows built in year y come back. */
  lemma SingleYearSelectsThatYear(dataset: Frame, y: int, fullData: bool, outputType: string, x: Row)
    requires HasColumns(dataset, MinimalColumns)
    requires y != 0
    requires ParseOutputType(outputType).Some?
    ensures Query(dataset, NoAreas, YearNumber(y), fullData, outputType).Success?
    ensures x in Query(dataset, NoAreas, YearNumber(y), fullData, outputType).value.frame.rows <==>
      x in dataset.rows && x.buildYear == y
  {
    var args := Args(None, Some((y, y)), ParseOutputType(outputType).value);
    QueryResult(dataset, NoAreas, YearNumber(y), fullData, outputType, args);
  }

  /** `get_houses`, step by step: `p` plays the part of the reassigned `p_df`. */
  method GetHouses(dataset: Frame, areasIn: AreasArg, yearsIn: YearArg, fullData: bool, outputType: string)
    returns (r: Result<HouseTable, ArgError>)
    requires HasColumns(dataset, MinimalColumns)
    modifies yearsIn.Footprint()
    ensures r == old(Query(dataset, areasIn, yearsIn, fullData, outputType))
    ensures yearsIn.YearList? ==> yearsIn.list.items == ExtendIfSingle(old(yearsIn.list.items))
  {
    var p := dataset;
    var checked := ValidateArgs(areasIn, outputType, yearsIn, p);
    if checked.Failure? {
      return Failure(checked.error);
    }
    var args := checked.value;

    if !fullData {
      p := Select(p, MinimalColumns);
    }
    if args.areas.Some? {
      p := Filter(p, AreaFilter(args.areas.value));
    }
    if args.years.Some? {
      p := Filter(p, YearFilter(args.years.value));
    }

    match args.output
    case GeoPandas => r := Success(HouseTable(GeoPandas, p));
    case Pandas => r := Success(HouseTable(Pandas, p));
    case Polars => r := Success(HouseTable(Polars, p));
  }
}
