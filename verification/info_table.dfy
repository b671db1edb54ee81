/** The product-information table of a book page, read into a dictionary
    by the loop `info[header] = value`. */
module InfoTable {
  import opened Wrappers
  import opened Exceptions

  /** A `<tr>` of the table: the text of its `<th>` and of its `<td>`, each
      absent when the cell is missing. */
  datatype Row = Row(header: Option<string>, cell: Option<string>)

  predicate Complete(row: Row) {
    row.header.Some? && row.cell.Some?
  }

  /** Row `i` is the last row whose header is `key`. */
  predicate LastWith(rows: seq<Row>, key: string, i: nat) {
    i < |rows| && rows[i].header == Some(key)
    && forall j :: i < j < |rows| ==> rows[j].header != Some(key)
  }

  /** Some row has header `key`. */
  predicate HasHeader(rows: seq<Row>, key: string) {
    exists i :: 0 <= i < |rows| && rows[i].header == Some(key)
  }

  /** `info` is the dictionary the loop builds from `rows`: its keys are the
      headers, and each maps to the value of the last row with that header. */
  ghost predicate Describes(rows: seq<Row>, info: map<string, string>) {
    && (forall key :: key in info <==> HasHeader(rows, key))
    && (forall key, i: nat :: LastWith(rows, key, i) ==> key in info && rows[i].cell == Some(info[key]))
  }

  /** Adding one complete row to the dictionary of the rows before it. */
  lemma DescribesStep(rows: seq<Row>, info: map<string, string>)
    requires |rows| > 0 && Complete(rows[|rows| - 1])
    requires Describes(rows[..|rows| - 1], info)
    ensures Describes(rows, info[rows[|rows| - 1].header.value := rows[|rows| - 1].cell.value])
  {
    var init := rows[..|rows| - 1];
    var last := rows[|rows| - 1];
    var info' := info[last.header.value := last.cell.value];
    forall key
      ensures key in info' <==> HasHeader(rows, key)
    {
      if HasHeader(rows, key) && key != last.header.value {
        var i :| 0 <= i < |rows| && rows[i].header == Some(key);
        assert init[i] == rows[i];
        assert HasHeader(init, key);
      }
      if HasHeader(init, key) {
        var i :| 0 <= i < |init| && init[i].header == Some(key);
        assert rows[i] == init[i];
      }
      assert HasHeader(rows, last.header.value) by {
        assert rows[|rows| - 1].header == Some(last.header.value);
      }
    }
    forall key, i: nat | LastWith(rows, key, i)
      ensures key in info' && rows[i].cell == Some(info'[key])
    {
      if i < |init| {
        assert LastWith(init, key, i);
      }
    }
  }

  /** The loop over `rows` in order: a later row overwrites an earlier one
      with the same header, and the first row missing its `<th>` or `<td>`
      raises (`None.get_text`). */
  function InfoMap(rows: seq<Row>): (r: Result<map<string, string>, Exception>)
    ensures r.Failure? <==> exists i :: 0 <= i < |rows| && !Complete(rows[i])
    ensures r.Success? ==> Describes(rows, r.value)
    decreases |rows|
  {
    if |rows| == 0 then Success(map[])
    else
      var init := rows[..|rows| - 1];
      var last := rows[|rows| - 1];
      assert forall i :: 0 <= i < |init| ==> init[i] == rows[i];
      match InfoMap(init)
      case Failure(e) => Failure(e)
      case Success(info) =>
        if !Complete(last) then Failure(AttributeError("get_text"))
        else
          DescribesStep(rows, info);
          Success(info[last.header.value := last.cell.value])
  }

  /** The table of a page; a page without the table gives an empty map. */
  function InfoOf(table: Option<seq<Row>>): (r: Result<map<string, string>, Exception>)
    ensures table.None? ==> r == Success(map[])
    ensures table.Some? ==> r == InfoMap(table.value)
  {
    match table
    case None => Success(map[])
    case Some(rows) => InfoMap(rows)
  }

  /** Python's `info.get(key, default)`. */
  function Lookup(info: map<string, string>, key: string, default: string): string {
    if key in info then info[key] else default
  }

  /** A later duplicate header wins, and a header no row carries falls back
      to the default. */
  lemma LastDuplicateWins(k: string, v1: string, v2: string, other: string)
    requires other != k
    ensures InfoMap([Row(Some(k), Some(v1)), Row(Some(k), Some(v2))]).Success?
    ensures Lookup(InfoMap([Row(Some(k), Some(v1)), Row(Some(k), Some(v2))]).value, k, "") == v2
    ensures Lookup(InfoMap([Row(Some(k), Some(v1)), Row(Some(k), Some(v2))]).value, other, "") == ""
  {
    var rows := [Row(Some(k), Some(v1)), Row(Some(k), Some(v2))];
    assert LastWith(rows, k, 1);
    assert !HasHeader(rows, other);
  }
}
