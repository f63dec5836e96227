/**
 * The rows a stored mysqli result hands out, and the two ways ComfySQL reads
 * them: `fetch_row` (column values in order) and `fetch_assoc` (column name
 * to value). The result object keeps a cursor that each fetch advances.
 */
module Rows {
  import opened Wrappers

  /** A column value as mysqli returns it by default: SQL NULL or a string. */
  datatype Value = Null | Str(s: string)

  /** One column of a row: its name in the result set and its value. */
  datatype Column = Column(name: string, value: Value)

  /** A row: its columns in select-list order. A result set has at least
      one column, so every row has one. */
  type Row = r: seq<Column> | |r| > 0 witness [Column("", Null)]

  /** What `fetch_row` returns for a row: the values, in column order. */
  function Values(row: seq<Column>): (r: seq<Value>)
    ensures |r| == |row|
    ensures forall k :: 0 <= k < |row| ==> r[k] == row[k].value
  {
    if row == [] then [] else [row[0].value] + Values(row[1..])
  }

  /**
   * What `fetch_assoc` returns for a row: column name to value. When two
   * columns share a name the later one's value is kept.
   */
  function Assoc(row: seq<Column>): map<string, Value> {
    if row == [] then map[]
    else Assoc(row[..|row| - 1])[row[|row| - 1].name := row[|row| - 1].value]
  }

  /** `fetch_assoc` has a key for exactly the column names of the row. */
  lemma {:induction false} AssocKeys(row: seq<Column>)
    ensures Assoc(row).Keys == set k | 0 <= k < |row| :: row[k].name
    decreases |row|
  {
    if row != [] {
      var init := row[..|row| - 1];
      AssocKeys(init);
      var ks := set k | 0 <= k < |row| :: row[k].name;
      var ki := set k | 0 <= k < |init| :: init[k].name;
      forall n | n in ks ensures n in ki + {row[|row| - 1].name} {
        var k :| 0 <= k < |row| && row[k].name == n;
        if k < |init| { assert init[k] == row[k]; }
      }
      forall n | n in ki ensures n in ks {
        var k :| 0 <= k < |init| && init[k].name == n;
        assert row[k] == init[k];
      }
    }
  }

  /** The value `fetch_assoc` gives a name is that of the last column so named. */
  lemma {:induction false} AssocLast(row: seq<Column>, k: nat)
    requires k < |row|
    requires forall j :: k < j < |row| ==> row[j].name != row[k].name
    ensures row[k].name in Assoc(row) && Assoc(row)[row[k].name] == row[k].value
    decreases |row|
  {
    if k < |row| - 1 {
      var init := row[..|row| - 1];
      forall j | k < j < |init| ensures init[j].name != init[k].name {
        assert init[j] == row[j];
      }
      AssocLast(init, k);
      assert init[k] == row[k];
    }
  }

  /** A fetched row is never the empty array, so PHP reads it as true and
      the fetch loops, which stop on a false row, stop only at the end. */
  lemma AssocNonEmpty(row: Row)
    ensures row[|row| - 1].name in Assoc(row) && Assoc(row) != map[]
  {
    AssocLast(row, |row| - 1);
  }

  /** Every row of a list through `fetch_assoc`, in order. */
  function AssocRows(rows: seq<Row>): (r: seq<map<string, Value>>)
    ensures |r| == |rows|
    ensures forall i :: 0 <= i < |rows| ==> r[i] == Assoc(rows[i])
  {
    if rows == [] then [] else [Assoc(rows[0])] + AssocRows(rows[1..])
  }

  /** Reading one more row extends the rows read so far by that row. */
  lemma AssocRowsSnoc(rows: seq<Row>, k: nat)
    requires k < |rows|
    ensures AssocRows(rows[..k + 1]) == AssocRows(rows[..k]) + [Assoc(rows[k])]
  {
    var a, b := AssocRows(rows[..k + 1]), AssocRows(rows[..k]) + [Assoc(rows[k])];
    forall j | 0 <= j < |a| ensures a[j] == b[j] {
      assert rows[..k + 1][j] == rows[j];
    }
  }

  /**
   * A stored query result (mysqli_result): the rows in driver order, the
   * cursor of the next row to fetch, and whether it was freed.
   */
  class ResultSet {
    const rows: seq<Row>
    var pos: nat
    var freed: bool

    ghost predicate Valid()
      reads this
    {
      pos <= |rows|
    }

    /** A result just returned by the driver, nothing fetched yet. */
    constructor (rows: seq<Row>)
      ensures Valid() && this.rows == rows && pos == 0 && !freed
    {
      this.rows := rows;
      pos := 0;
      freed := false;
    }

    /** `fetch_row`: the next row's values and advance, or `null` at the end. */
    method FetchRow() returns (r: Option<seq<Value>>)
      requires Valid()
      modifies this`pos
      ensures Valid()
      ensures old(pos) < |rows| ==> r == Some(Values(rows[old(pos)])) && pos == old(pos) + 1
      ensures old(pos) == |rows| ==> r == None && pos == old(pos)
    {
      if pos < |rows| {
        r := Some(Values(rows[pos]));
        pos := pos + 1;
      } else {
        r := None;
      }
    }

    /** `fetch_assoc`: the next row by column name and advance, or `null` at the end. */
    method FetchAssoc() returns (r: Option<map<string, Value>>)
      requires Valid()
      modifies this`pos
      ensures Valid()
      ensures old(pos) < |rows| ==> r == Some(Assoc(rows[old(pos)])) && pos == old(pos) + 1
      ensures old(pos) == |rows| ==> r == None && pos == old(pos)
    {
      if pos < |rows| {
        r := Some(Assoc(rows[pos]));
        pos := pos + 1;
      } else {
        r := None;
      }
    }

    /** `free`: release the result. */
    method Free()
      requires Valid()
      modifies this`freed
      ensures Valid() && freed
    {
      freed := true;
    }
  }

  /** A value a PHP callback may return. */
  datatype PhpValue = PNull | PBool(b: bool) | PInt(i: int) | PStr(s: string)

  /** The row loop stops only on a result identical (`===`) to `false`. */
  predicate Stops(v: PhpValue) {
    v == PBool(false)
  }

  /**
   * The callback is given the rows it was called with before and the current
   * row, so a callback that keeps state between calls is a function of both.
   * From row i on, the loop calls it on rows i, i + 1, ... and StopAt is the
   * number of rows it has been called with when the loop ends: one past the
   * first row whose call returns `false`, or all of them.
   */
  function StopAt<T>(rows: seq<T>, cb: (seq<T>, T) -> PhpValue, i: nat): (n: nat)
    requires i <= |rows|
    ensures i <= n <= |rows|
    ensures n == |rows| || n > i
    decreases |rows| - i
  {
    if i == |rows| then |rows|
    else if Stops(cb(rows[..i], rows[i])) then i + 1
    else StopAt(rows, cb, i + 1)
  }

  /** The rows the callback is called with: all of them, up to and including
      the first one for which it returns `false`. */
  function Delivered<T>(rows: seq<T>, cb: (seq<T>, T) -> PhpValue): (d: seq<T>)
    ensures |d| <= |rows| && d == rows[..|d|]
  {
    rows[..StopAt(rows, cb, 0)]
  }

  /** From row i on, the loop passes every row up to the one where it stops,
      and it stops before the end only on a `false`. */
  lemma {:induction false} StopAtSpec<T>(rows: seq<T>, cb: (seq<T>, T) -> PhpValue, i: nat)
    requires i <= |rows|
    ensures var n := StopAt(rows, cb, i);
      && (forall j :: i <= j < n - 1 ==> !Stops(cb(rows[..j], rows[j])))
      && (n < |rows| ==> Stops(cb(rows[..n - 1], rows[n - 1])))
    decreases |rows| - i
  {
    if i < |rows| && !Stops(cb(rows[..i], rows[i])) {
      StopAtSpec(rows, cb, i + 1);
    }
  }

  /**
   * The callback sees a prefix of the rows in order, each call given the
   * rows before it; no call before the last returned `false`; and rows are
   * missed only when the last call returned `false`.
   */
  lemma DeliveredPrefix<T>(rows: seq<T>, cb: (seq<T>, T) -> PhpValue)
    ensures var d := Delivered(rows, cb);
      && |d| <= |rows|
      && d == rows[..|d|]
      && (forall i :: 0 <= i < |d| - 1 ==> !Stops(cb(rows[..i], rows[i])))
      && (|d| < |rows| ==> |d| > 0 && Stops(cb(rows[..|d| - 1], rows[|d| - 1])))
  {
    StopAtSpec(rows, cb, 0);
  }

  /** Results such as `null`, `0`, `""` or `true` never stop the loop: when no
      call returns `false` the callback sees every row. */
  lemma DeliveredAll<T>(rows: seq<T>, cb: (seq<T>, T) -> PhpValue)
    requires forall i :: 0 <= i < |rows| ==> !Stops(cb(rows[..i], rows[i]))
    ensures Delivered(rows, cb) == rows
  {
    DeliveredPrefix(rows, cb);
  }

  /** When the call on row i is the first to return `false`, the callback
      sees rows 0..i. */
  lemma DeliveredStopsAtFirstFalse<T>(rows: seq<T>, cb: (seq<T>, T) -> PhpValue, i: nat)
    requires i < |rows| && Stops(cb(rows[..i], rows[i]))
    requires forall j :: 0 <= j < i ==> !Stops(cb(rows[..j], rows[j]))
    ensures Delivered(rows, cb) == rows[..i + 1]
  {
    DeliveredPrefix(rows, cb);
  }
}
