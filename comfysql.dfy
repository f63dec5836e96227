/**
 * The ComfySQL class: one database session that encodes query templates and
 * shapes the driver's results. The driver itself is outside the model: its
 * escape function is the session's `esc`, and what a query returned is given
 * to each reader as a QueryOutcome.
 */
module ComfySQL {
  import opened Wrappers
  import opened Encoding
  import opened Rows
  import opened Errors

  /** What the connection's `query` returned for the encoded query: `false`, with
      the connection's error number and text; `true`, for a statement without
      a result set; or a stored result. */
  datatype QueryOutcome = Failed(errno: int, error: string) | Done | Stored(data: ResultSet)

  /** How a reader ends without a result: the ComfySQL_Exception it throws on
      a failed query, or the PHP Error raised by calling a fetch method on
      the `true` that the query returned for a statement without a result set. */
  datatype ReadFailure = Thrown(exception: ComfyException) | FetchOnBool

  /** The result object a reader may advance and free. */
  function Touched(outcome: QueryOutcome): set<object> {
    if outcome.Stored? then {outcome.data} else {}
  }

  /** A result the driver has just stored: valid, nothing fetched yet. */
  ghost predicate JustStored(outcome: QueryOutcome)
    reads Touched(outcome)
  {
    outcome.Stored? ==> outcome.data.Valid() && outcome.data.pos == 0
  }

  /** The value `dbgetsingle` takes from what `fetch_row` gave: PHP `null`
      when there was no row, otherwise the row's value at index 0. */
  function FirstColumn(first: Option<seq<Value>>): Value
    requires first.Some? ==> first.value != []
  {
    if first.None? then Null else first.value[0]
  }

  /** What `dbgetsingle` returns for a result: `null` with no rows, otherwise
      the value in the first column of the first row. */
  function SingleValue(rows: seq<Row>): (v: Value)
    ensures rows == [] ==> v == Null
    ensures rows != [] ==> v == rows[0][0].value
  {
    FirstColumn(if rows == [] then None else Some(Values(rows[0])))
  }

  /** What `dbgetrow` returns for a result: `null` with no rows, otherwise the
      first row by column name. */
  function FirstRow(rows: seq<Row>): (r: Option<map<string, Value>>)
    ensures r.None? <==> rows == []
    ensures r.Some? ==> r.value == Assoc(rows[0])
  {
    if rows == [] then None else Some(Assoc(rows[0]))
  }

  /** `dbgetrow` returns the first of the rows `dbgetall` returns, and `null`
      exactly when `dbgetall` returns an empty array. */
  lemma FirstRowIsFirstOfAll(rows: seq<Row>)
    ensures FirstRow(rows) == if AssocRows(rows) == [] then None else Some(AssocRows(rows)[0])
  {
  }

  /** The value `dbgetsingle` returns is the one `dbgetrow` returns under the
      first column's name, unless a later column of the row has that name. */
  lemma SingleValueInFirstRow(rows: seq<Row>)
    requires rows != []
    requires forall j :: 0 < j < |rows[0]| ==> rows[0][j].name != rows[0][0].name
    ensures rows[0][0].name in FirstRow(rows).value
    ensures FirstRow(rows).value[rows[0][0].name] == SingleValue(rows)
  {
    AssocLast(rows[0], 0);
  }

  class Session {
    /** The connection's `real_escape_string`. */
    const esc: string -> string
    /** The queries given to the driver so far, as resolved strings. */
    ghost var sent: seq<string>

    /** A session over a connection that opened without error. */
    constructor (esc: string -> string)
      ensures this.esc == esc && sent == []
    {
      this.esc := esc;
      sent := [];
    }

    /**
     * `encode(query, args)`: every `?` of the template, left to right, is
     * replaced by the next argument, quoted and escaped; a `null` argument
     * list leaves the template as it is.
     */
    method Encode(query: string, args: Option<seq<Arg>>) returns (q: string)
      ensures args.None? ==> q == query
      ensures args.Some? ==> q == Interleave(Segments(query), Substitutions(args.value, 0, Count(query), Substituter(esc)))
    {
      if args.None? {
        return query;
      }
      var a := args.value;
      ghost var sub := Substituter(esc);
      var p := 0;
      var o := "";
      var i := 0;
      while i < |query|
        invariant 0 <= i <= |query|
        invariant o + Scan(query[i..], a, p, sub) == Scan(query, a, 0, sub)
      {
        ScanStep(query, i, a, p, o, sub);
        if query[i] == Marker {
          o := o + Substitution(ArgAt(a, p), esc);
          p := p + 1;
        } else {
          o := o + [query[i]];
        }
        i := i + 1;
      }
      assert query[i..] == [];
      ScanIsInterleave(query, a, 0, sub);
      q := o;
    }

    /** Encode the template, hand it to the driver, and throw on `false`. */
    method Query(query: string, args: Option<seq<Arg>>, outcome: QueryOutcome) returns (failure: Option<ComfyException>)
      modifies this`sent
      ensures sent == old(sent) + [Encoded(query, args, esc)]
      ensures outcome.Failed? ==> failure == Some(NewException(outcome.errno, outcome.error, query))
      ensures !outcome.Failed? ==> failure == None
    {
      var resolved := Encode(query, args);
      EncodedIsInterleave(query, args, esc);
      sent := sent + [resolved];
      if outcome.Failed? {
        return Some(NewException(outcome.errno, outcome.error, query));
      }
      return None;
    }

    /** `dbgetsingle`: one value, or `null` when no row matched. */
    method DbGetSingle(query: string, args: Option<seq<Arg>>, outcome: QueryOutcome) returns (r: Result<Value, ReadFailure>)
      requires JustStored(outcome)
      modifies this`sent, Touched(outcome)
      ensures sent == old(sent) + [Encoded(query, args, esc)]
      ensures outcome.Failed? ==> r == Err(Thrown(NewException(outcome.errno, outcome.error, query)))
      ensures outcome.Done? ==> r == Err(FetchOnBool)
      ensures outcome.Stored? ==> r == Ok(SingleValue(outcome.data.rows)) && outcome.data.freed
    {
      var failure := Query(query, args, outcome);
      if failure.Some? {
        return Err(Thrown(failure.value));
      }
      if outcome.Done? {
        return Err(FetchOnBool);
      }
      var data := outcome.data;
      var out := data.FetchRow();
      data.Free();
      return Ok(FirstColumn(out));
    }

    /** `dbgetrow`: the first row by column name, or `null` when no row matched. */
    method DbGetRow(query: string, args: Option<seq<Arg>>, outcome: QueryOutcome) returns (r: Result<Option<map<string, Value>>, ReadFailure>)
      requires JustStored(outcome)
      modifies this`sent, Touched(outcome)
      ensures sent == old(sent) + [Encoded(query, args, esc)]
      ensures outcome.Failed? ==> r == Err(Thrown(NewException(outcome.errno, outcome.error, query)))
      ensures outcome.Done? ==> r == Err(FetchOnBool)
      ensures outcome.Stored? ==> r == Ok(FirstRow(outcome.data.rows)) && outcome.data.freed
    {
      var failure := Query(query, args, outcome);
      if failure.Some? {
        return Err(Thrown(failure.value));
      }
      if outcome.Done? {
        return Err(FetchOnBool);
      }
      var data := outcome.data;
      var row := data.FetchAssoc();
      data.Free();
      return Ok(row);
    }

    /** `dbgetall`: every row by column name, in driver order. */
    method DbGetAll(query: string, args: Option<seq<Arg>>, outcome: QueryOutcome) returns (r: Result<seq<map<string, Value>>, ReadFailure>)
      requires JustStored(outcome)
      modifies this`sent, Touched(outcome)
      ensures sent == old(sent) + [Encoded(query, args, esc)]
      ensures outcome.Failed? ==> r == Err(Thrown(NewException(outcome.errno, outcome.error, query)))
      ensures outcome.Done? ==> r == Err(FetchOnBool)
      ensures outcome.Stored? ==> r == Ok(AssocRows(outcome.data.rows)) && outcome.data.freed
    {
      var failure := Query(query, args, outcome);
      if failure.Some? {
        return Err(Thrown(failure.value));
      }
      if outcome.Done? {
        return Err(FetchOnBool);
      }
      var data := outcome.data;
      var out := [];
      var row := data.FetchAssoc();
      while row.Some?
        invariant data.Valid()
        invariant data.pos == |out| + (if row.Some? then 1 else 0)
        invariant row.Some? ==> row.value == Assoc(data.rows[|out|])
        invariant row.None? ==> data.pos == |data.rows|
        invariant out == AssocRows(data.rows[..|out|])
        modifies data
        decreases |data.rows| - data.pos, row.Some?
      {
        AssocRowsSnoc(data.rows, |out|);
        out := out + [row.value];
        row := data.FetchAssoc();
      }
      assert data.rows[..data.pos] == data.rows;
      data.Free();
      return Ok(out);
    }

    /**
     * `dbgetcb`: the callback is called on each row in order until it
     * returns `false`; each call is also given the rows it was called with
     * before, which stands for whatever state the callback keeps. Nothing is
     * returned; the ghost `calls` records the rows the callback was called with.
     */
    method DbGetCb(query: string, args: Option<seq<Arg>>, outcome: QueryOutcome,
                   callback: (seq<map<string, Value>>, map<string, Value>) -> PhpValue)
      returns (r: Result<(), ReadFailure>, ghost calls: seq<map<string, Value>>)
      requires JustStored(outcome)
      modifies this`sent, Touched(outcome)
      ensures sent == old(sent) + [Encoded(query, args, esc)]
      ensures outcome.Failed? ==> r == Err(Thrown(NewException(outcome.errno, outcome.error, query)))
      ensures outcome.Done? ==> r == Err(FetchOnBool)
      ensures outcome.Stored? ==> r == Ok(()) && outcome.data.freed
      ensures outcome.Stored? ==> calls == Delivered(AssocRows(outcome.data.rows), callback)
      ensures outcome.Stored? ==> outcome.data.pos == |calls|
    {
      var failure := Query(query, args, outcome);
      if failure.Some? {
        return Err(Thrown(failure.value)), [];
      }
      if outcome.Done? {
        return Err(FetchOnBool), [];
      }
      var data := outcome.data;
      ghost var all := AssocRows(data.rows);
      // The rows passed so far: the history each call of the callback is given.
      var seen := [];
      var more := true;
      while more
        invariant data.Valid()
        invariant seen == all[..data.pos]
        invariant more ==> StopAt(all, callback, data.pos) == StopAt(all, callback, 0)
        invariant !more ==> data.pos == StopAt(all, callback, 0)
        modifies data
        decreases |data.rows| - data.pos, more
      {
        var row := data.FetchAssoc();
        if row.None? {
          more := false;
        } else {
          assert row.value == all[data.pos - 1];
          more := !Stops(callback(seen, row.value));
          seen := seen + [row.value];
        }
      }
      data.Free();
      return Ok(()), seen;
    }

    /** `dbdo`: a statement without a result set; nothing is returned, and a
        result set the statement may still have produced is left alone. */
    method DbDo(query: string, args: Option<seq<Arg>>, outcome: QueryOutcome) returns (r: Result<(), ComfyException>)
      modifies this`sent
      ensures sent == old(sent) + [Encoded(query, args, esc)]
      ensures outcome.Failed? ==> r == Err(NewException(outcome.errno, outcome.error, query))
      ensures !outcome.Failed? ==> r == Ok(())
    {
      var failure := Query(query, args, outcome);
      if failure.Some? {
        return Err(failure.value);
      }
      return Ok(());
    }
  }
}
