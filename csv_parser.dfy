/**
 * `FearGreedDashboard.parseCSV` of the browser dashboard: CSV text to a
 * sequence of row objects, one per data line whose `date` is truthy.
 */
module CsvParser {
  import opened Wrappers
  import opened JsStrings

  // ---------------------------------------------------------------------------
  // Two generic building blocks: successive assignments into an object, and
  // `Array.prototype.filter`.

  /** The object after `obj[keys[i]] = vals[i]` has run for `i = 0 .. n-1`, in order. */
  function Assign<K, V>(keys: seq<K>, vals: seq<V>, n: nat): map<K, V>
    requires n <= |keys| && n <= |vals|
  {
    if n == 0 then map[] else Assign(keys, vals, n - 1)[keys[n - 1] := vals[n - 1]]
  }

  /** The assigned keys are exactly the first `n` keys. */
  lemma {:induction false} AssignKeys<K, V>(keys: seq<K>, vals: seq<V>, n: nat)
    requires n <= |keys| && n <= |vals|
    ensures forall k :: k in Assign(keys, vals, n) <==> k in keys[..n]
  {
    if n > 0 {
      AssignKeys(keys, vals, n - 1);
      assert keys[..n] == keys[..n - 1] + [keys[n - 1]];
    }
  }

  /** A key holds the value of its last assignment. */
  lemma {:induction false} AssignLast<K, V>(keys: seq<K>, vals: seq<V>, n: nat, i: nat)
    requires i < n <= |keys| && n <= |vals|
    requires forall j :: i < j < n ==> keys[j] != keys[i]
    ensures keys[i] in Assign(keys, vals, n) && Assign(keys, vals, n)[keys[i]] == vals[i]
  {
    if i < n - 1 {
      AssignLast(keys, vals, n - 1, i);
    }
  }

  /** `xs.filter(keep)`, in order. */
  function Filter<T>(xs: seq<T>, keep: T -> bool): seq<T> {
    if xs == [] then []
    else Filter(xs[..|xs| - 1], keep) + (if keep(xs[|xs| - 1]) then [xs[|xs| - 1]] else [])
  }

  /**
   * `Filter` keeps exactly the elements that pass, in their order: `idx[k]`
   * is the position of the `k`-th kept element, positions increase, and a
   * position is selected if and only if its element passes.
   */
  lemma {:induction false} FilterSelects<T>(xs: seq<T>, keep: T -> bool) returns (idx: seq<nat>)
    ensures |idx| == |Filter(xs, keep)| <= |xs|
    ensures forall k :: 0 <= k < |idx| ==> idx[k] < |xs| && Filter(xs, keep)[k] == xs[idx[k]]
    ensures forall k, l :: 0 <= k < l < |idx| ==> idx[k] < idx[l]
    ensures forall j :: 0 <= j < |xs| ==> (keep(xs[j]) <==> j in idx)
  {
    if xs == [] {
      idx := [];
    } else {
      var n := |xs| - 1;
      var front := xs[..n];
      var before := FilterSelects(front, keep);
      var kept := Filter(front, keep);
      var last := if keep(xs[n]) then [n] else [];
      assert Filter(xs, keep) == kept + if keep(xs[n]) then [xs[n]] else [];
      idx := before + last;
      forall k | 0 <= k < |before| ensures Filter(xs, keep)[k] == xs[before[k]] {
        assert Filter(xs, keep)[k] == kept[k] == front[before[k]];
      }
      assert n !in before;
      forall j | 0 <= j < |xs| ensures keep(xs[j]) <==> j in idx {
        if j < n {
          assert front[j] == xs[j];
          assert j in idx <==> j in before;
        }
      }
    }
  }

  // ---------------------------------------------------------------------------
  // Row objects

  /** A row object: trimmed header name to trimmed field, `None` for `undefined`. */
  type Record = map<string, Option<string>>

  /** The keys `header.trim()`, one per header. */
  function HeaderNames(headers: seq<string>): (names: seq<string>)
    ensures |names| == |headers|
    ensures forall i :: 0 <= i < |headers| ==> names[i] == Trim(headers[i])
  {
    seq(|headers|, i requires 0 <= i < |headers| => Trim(headers[i]))
  }

  /** `values[index]?.trim()`. */
  function Field(values: seq<string>, index: nat): Option<string> {
    if index < |values| then Some(Trim(values[index])) else None
  }

  /** The values assigned for the first `count` headers. */
  function Fields(values: seq<string>, count: nat): (fields: seq<Option<string>>)
    ensures |fields| == count
    ensures forall i :: 0 <= i < count ==> fields[i] == Field(values, i)
  {
    seq(count, i requires 0 <= i < count => Field(values, i))
  }

  /** The row object the `headers.forEach` callback builds from one line's values. */
  function Row(headers: seq<string>, values: seq<string>): Record {
    Assign(HeaderNames(headers), Fields(values, |headers|), |headers|)
  }

  /** The keys every row object gets. */
  function HeaderKeys(headers: seq<string>): set<string> {
    set k | k in HeaderNames(headers)
  }

  /** The `headers.forEach` loop that fills one row object. */
  method FillRow(headers: seq<string>, values: seq<string>) returns (obj: Record)
    ensures obj == Row(headers, values)
  {
    obj := map[];
    var index := 0;
    while index < |headers|
      invariant index <= |headers|
      invariant obj == Assign(HeaderNames(headers), Fields(values, |headers|), index)
    {
      obj := obj[Trim(headers[index]) := Field(values, index)];
      index := index + 1;
    }
  }

  /** Every row object has exactly the trimmed header names as keys. */
  lemma RowKeys(headers: seq<string>, values: seq<string>)
    ensures Row(headers, values).Keys == HeaderKeys(headers)
  {
    var names := HeaderNames(headers);
    AssignKeys(names, Fields(values, |headers|), |headers|);
    assert names[..|headers|] == names;
  }

  /**
   * The value stored under header `i` is the trimmed `i`-th field, or
   * `undefined` when the line is shorter; when trimmed header names repeat,
   * the last header with that name decides.
   */
  lemma RowValue(headers: seq<string>, values: seq<string>, i: nat)
    requires i < |headers|
    requires forall j :: i < j < |headers| ==> Trim(headers[j]) != Trim(headers[i])
    ensures Trim(headers[i]) in Row(headers, values)
    ensures Row(headers, values)[Trim(headers[i])] == Field(values, i)
    ensures i < |values| ==> Row(headers, values)[Trim(headers[i])] == Some(Trim(values[i]))
    ensures |values| <= i ==> Row(headers, values)[Trim(headers[i])] == None
  {
    AssignLast(HeaderNames(headers), Fields(values, |headers|), |headers|, i);
  }

  /** Fields beyond the number of headers do not affect the row object. */
  lemma ExtraFieldsIgnored(headers: seq<string>, values: seq<string>)
    requires |headers| <= |values|
    ensures Row(headers, values) == Row(headers, values[..|headers|])
  {
    assert Fields(values, |headers|) == Fields(values[..|headers|], |headers|);
  }

  // ---------------------------------------------------------------------------
  // The parsed rows

  /** The `filter(row => row.date)` test: `date` is present and a non-empty string. */
  predicate HasDate(r: Record) {
    "date" in r && r["date"].Some? && r["date"].value != ""
  }

  /**
   * With `date` the trimmed name of header `i` (and of no later header), a
   * row passes the filter exactly when its line has an `i`-th field that is
   * non-empty once trimmed.
   */
  lemma RowHasDate(headers: seq<string>, values: seq<string>, i: nat)
    requires i < |headers| && Trim(headers[i]) == "date"
    requires forall j :: i < j < |headers| ==> Trim(headers[j]) != "date"
    ensures HasDate(Row(headers, values)) <==> i < |values| && Trim(values[i]) != ""
  {
    RowValue(headers, values, i);
  }

  /** Without a `date` header no row passes the filter. */
  lemma RowWithoutDate(headers: seq<string>, values: seq<string>)
    requires "date" !in HeaderKeys(headers)
    ensures !HasDate(Row(headers, values))
  {
    RowKeys(headers, values);
  }

  /** The lines of the trimmed text; the first is the header line. */
  function Lines(text: string): (lines: seq<string>)
    ensures |lines| >= 1
  {
    Split(Trim(text), '\n')
  }

  /** The lines after the header line. */
  function DataLines(text: string): seq<string> {
    Lines(text)[1..]
  }

  /** The untrimmed header names. */
  function Headers(text: string): seq<string> {
    Split(Lines(text)[0], ',')
  }

  /** `lines.map(...)`: one row object per line. */
  function RowsOf(headers: seq<string>, lines: seq<string>): (rows: seq<Record>)
    ensures |rows| == |lines|
    ensures forall j :: 0 <= j < |lines| ==> rows[j] == Row(headers, Split(lines[j], ','))
  {
    seq(|lines|, j requires 0 <= j < |lines| => Row(headers, Split(lines[j], ',')))
  }

  /** What `parseCSV(text)` returns. */
  function Parse(text: string): seq<Record> {
    Filter(RowsOf(Headers(text), DataLines(text)), HasDate)
  }

  /**
   * `parseCSV`: the `map` over the data lines, each row object filled by
   * `FillRow`, then the `filter` on `date`.
   */
  method ParseCsv(text: string) returns (rows: seq<Record>)
    ensures rows == Parse(text)
  {
    var lines := Split(Trim(text), '\n');
    var headers := Split(lines[0], ',');
    var mapped: seq<Record> := [];
    var i := 1;
    while i < |lines|
      invariant 1 <= i <= |lines|
      invariant mapped == RowsOf(headers, lines[1..i])
    {
      var values := Split(lines[i], ',');
      var obj := FillRow(headers, values);
      RowsOfStep(headers, lines, i);
      mapped := mapped + [obj];
      i := i + 1;
    }
    assert lines[1..i] == DataLines(text);
    rows := Filter(mapped, HasDate);
  }

  lemma RowsOfStep(headers: seq<string>, lines: seq<string>, i: nat)
    requires 1 <= i < |lines|
    ensures RowsOf(headers, lines[1..i + 1]) == RowsOf(headers, lines[1..i]) + [Row(headers, Split(lines[i], ','))]
  {
    var longer := RowsOf(headers, lines[1..i + 1]);
    assert longer[..i - 1] == RowsOf(headers, lines[1..i]);
    assert longer == longer[..i - 1] + [longer[i - 1]];
  }

  /** The header line never becomes a record: at most one record per data line. */
  lemma ParseCount(text: string)
    ensures |Parse(text)| <= |Lines(text)| - 1
  {
    var _ := FilterSelects(RowsOf(Headers(text), DataLines(text)), HasDate);
  }

  /** Empty or header-only text parses to no records (no error is raised). */
  lemma ParseHeaderOnly(text: string)
    requires |Lines(text)| == 1
    ensures Parse(text) == []
  {
    assert DataLines(text) == [];
  }

  /** Every record has a non-empty `date` and exactly the trimmed header names as keys. */
  lemma ParseRowsShape(text: string)
    ensures forall k :: 0 <= k < |Parse(text)| ==>
      HasDate(Parse(text)[k]) && Parse(text)[k].Keys == HeaderKeys(Headers(text))
  {
    var headers, lines := Headers(text), DataLines(text);
    var idx := FilterSelects(RowsOf(headers, lines), HasDate);
    forall k | 0 <= k < |Parse(text)|
      ensures HasDate(Parse(text)[k]) && Parse(text)[k].Keys == HeaderKeys(headers)
    {
      RowKeys(headers, Split(lines[idx[k]], ','));
    }
  }

  /**
   * The records are exactly the rows of the data lines whose `date` is
   * non-empty, in the order of those lines: `idx[k]` is the data line that
   * record `k` comes from, the indices increase, and a data line is selected
   * if and only if its row has a non-empty `date`.
   */
  lemma ParseSelectsLines(text: string) returns (idx: seq<nat>)
    ensures |idx| == |Parse(text)|
    ensures forall k :: 0 <= k < |idx| ==>
      idx[k] < |DataLines(text)| &&
      Parse(text)[k] == Row(Headers(text), Split(DataLines(text)[idx[k]], ','))
    ensures forall k, l :: 0 <= k < l < |idx| ==> idx[k] < idx[l]
    ensures forall j :: 0 <= j < |DataLines(text)| ==>
      (HasDate(Row(Headers(text), Split(DataLines(text)[j], ','))) <==> j in idx)
  {
    idx := FilterSelects(RowsOf(Headers(text), DataLines(text)), HasDate);
  }
}
