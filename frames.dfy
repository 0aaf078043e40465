/** The dataset as the lazy frame sees it: a list of column names and the
    parcel rows, with the frame's `select` and `filter` as pure operations. */
module Frames {
  import opened Seqs

  /** One parcel. `characteristics` stands for the columns only full mode
      shows (square footage, room counts, ...), treated opaquely. */
  datatype Row = Row(
    pin: string,
    addr: string,
    buildYear: int,
    community: string,
    housePoint: string,
    characteristics: seq<string>)

  datatype Frame = Frame(columns: seq<string>, rows: seq<Row>)

  /** The projection minimal mode applies. */
  const MinimalColumns: seq<string> := ["pin", "addr", "build_year", "community", "house_point"]

  predicate HasColumns(f: Frame, cols: seq<string>) {
    forall c :: c in cols ==> c in f.columns
  }

  /** `select(cols)`: the named columns, in the order named, each of them a
      column of the frame; projection never adds, drops or reorders a row. */
  function Select(f: Frame, cols: seq<string>): (r: Frame)
    requires HasColumns(f, cols)
    ensures r.columns == cols
    ensures forall c :: c in r.columns ==> c in f.columns
    ensures |r.rows| == |f.rows|
    ensures forall i :: 0 <= i < |f.rows| ==> r.rows[i] == f.rows[i]
  {
    Frame(cols, f.rows)
  }

  /** `filter(keep)`: the rows that pass, in their original order and with
      their duplicates (see `Seqs.KeepConcat` and `Seqs.KeepCount`). */
  function Filter(f: Frame, keep: Row -> bool): (r: Frame)
    ensures r.columns == f.columns
    ensures r.rows == Keep(f.rows, keep)
    ensures forall x :: x in r.rows <==> x in f.rows && keep(x)
  {
    Frame(f.columns, Keep(f.rows, keep))
  }

  /** The distinct values of the `community` column: a name is known exactly
      when some row carries it. */
  function Communities(rows: seq<Row>): (known: set<string>)
    ensures forall c :: c in known <==> exists i :: 0 <= i < |rows| && rows[i].community == c
  {
    set x | x in rows :: x.community
  }
}
