/**
 * `rename_coin_columns`: the column header of the coin CSV file, renamed to
 * short coin names and projected onto a fixed column order.
 */
module CoinColumns {

  /** The renames the script knows, old column name to new one. */
  const Renames: map<string, string> := map[
    "price_btc_price" := "btc",
    "price_eth_price" := "eth",
    "price_sol_price" := "sol",
    "price_xrp_price" := "xrp",
    "fear_greed_value" := "crypto_fear_greed_value"]

  /** The column order of the rewritten file. */
  const DesiredOrder: seq<string> := ["date", "crypto_fear_greed_value", "btc", "eth", "sol", "xrp"]

  /** `df.rename(columns=mapping).columns`: every label passed through the mapping. */
  function RenameColumns(columns: seq<string>, mapping: map<string, string>): (renamed: seq<string>)
    ensures |renamed| == |columns|
  {
    seq(|columns|, i requires 0 <= i < |columns| =>
      if columns[i] in mapping then mapping[columns[i]] else columns[i])
  }

  /**
   * `[col for col in desired if col in columns]`. The comprehension also keeps
   * the order of `desired`, but only membership matters downstream: the
   * selection is the same as selecting all of `desired`
   * (`SelectExistingIsSelectAll`), and its order comes from `SelectOrdered`.
   */
  function ExistingColumns(desired: seq<string>, columns: seq<string>): (existing: seq<string>)
    ensures forall c :: c in existing <==> c in desired && c in columns
  {
    if desired == [] then []
    else (if desired[0] in columns then [desired[0]] else []) + ExistingColumns(desired[1..], columns)
  }

  /** The columns labelled `key`, in column order. */
  function Occurrences(columns: seq<string>, key: string): (found: seq<string>)
    ensures forall c :: c in found ==> c == key
    ensures |found| == multiset(columns)[key]
  {
    if columns == [] then []
    else
      assert columns == [columns[0]] + columns[1..];
      (if columns[0] == key then [key] else []) + Occurrences(columns[1..], key)
  }

  /** `df[keys].columns`: for each key in turn, every column with that label. */
  function Select(columns: seq<string>, keys: seq<string>): (selected: seq<string>)
    ensures forall c :: c in selected ==> c in keys && c in columns
  {
    if keys == [] then []
    else
      assert forall c :: c in Occurrences(columns, keys[0]) ==> c in columns;
      Occurrences(columns, keys[0]) + Select(columns, keys[1..])
  }

  /** The index of `x` in `s`. */
  function Position(s: seq<string>, x: string): (p: nat)
    requires x in s
    ensures p < |s| && s[p] == x
  {
    if s[0] == x then 0 else 1 + Position(s[1..], x)
  }

  /** No label appears twice. */
  predicate Distinct(s: seq<string>) {
    forall i, j :: 0 <= i < j < |s| ==> s[i] != s[j]
  }

  /** The labels of `r` that occur in `keys` come in the order of `keys` (repeats allowed). */
  predicate OrderedBy(r: seq<string>, keys: seq<string>) {
    forall i, j :: 0 <= i < j < |r| && r[i] in keys && r[j] in keys ==> Position(keys, r[i]) <= Position(keys, r[j])
  }

  /** The labels of `r` that occur in `keys` come in the order of `keys`, none twice. */
  predicate StrictlyOrderedBy(r: seq<string>, keys: seq<string>) {
    forall i, j :: 0 <= i < j < |r| && r[i] in keys && r[j] in keys ==> Position(keys, r[i]) < Position(keys, r[j])
  }

  /** The `new_columns` table: one conditional insertion per known column. */
  method BuildRenameTable(columns: seq<string>) returns (newColumns: map<string, string>)
    ensures TableFor(newColumns, columns, Renames.Keys)
  {
    RenamesEntries();
    newColumns := map[];
    ghost var before := newColumns;
    if "price_btc_price" in columns {
      newColumns := newColumns["price_btc_price" := "btc"];
    }
    TableStep(before, newColumns, columns, {}, "price_btc_price");
    before := newColumns;
    if "price_eth_price" in columns {
      newColumns := newColumns["price_eth_price" := "eth"];
    }
    TableStep(before, newColumns, columns, {"price_btc_price"}, "price_eth_price");
    before := newColumns;
    if "price_sol_price" in columns {
      newColumns := newColumns["price_sol_price" := "sol"];
    }
    TableStep(before, newColumns, columns, {"price_btc_price", "price_eth_price"}, "price_sol_price");
    before := newColumns;
    if "price_xrp_price" in columns {
      newColumns := newColumns["price_xrp_price" := "xrp"];
    }
    TableStep(before, newColumns, columns,
      {"price_btc_price", "price_eth_price", "price_sol_price"}, "price_xrp_price");
    before := newColumns;
    if "fear_greed_value" in columns {
      newColumns := newColumns["fear_greed_value" := "crypto_fear_greed_value"];
    }
    TableStep(before, newColumns, columns,
      {"price_btc_price", "price_eth_price", "price_sol_price", "price_xrp_price"}, "fear_greed_value");
  }

  /**
   * `rename_coin_columns` on the header of the coin file: build the rename
   * table from the known columns that are present; if it is non-empty,
   * rename and keep the desired columns that exist, in the desired order.
   * `rewritten` tells whether the file is written back.
   */
  method RenameCoinColumns(columns: seq<string>) returns (result: seq<string>, rewritten: bool)
    ensures rewritten <==> exists c :: c in columns && c in Renames
    ensures !rewritten ==> result == columns
    ensures rewritten ==> forall c :: c in result ==> c in DesiredOrder
    ensures rewritten ==> forall d :: d in DesiredOrder ==>
      multiset(result)[d] == multiset(RenameColumns(columns, Renames))[d]
    ensures rewritten ==> OrderedBy(result, DesiredOrder)
    ensures rewritten && Distinct(RenameColumns(columns, Renames)) ==> StrictlyOrderedBy(result, DesiredOrder)
  {
    var newColumns := BuildRenameTable(columns);
    result, rewritten := columns, false;
    if newColumns != map[] {
      var renamed := RenameColumns(columns, newColumns);
      RenameWithTable(columns, newColumns);
      var existing := ExistingColumns(DesiredOrder, renamed);
      result := Select(renamed, existing);
      rewritten := true;
      var c :| c in newColumns;
      assert c in columns && c in Renames;
      ProjectionFacts(renamed);
      if Distinct(renamed) {
        NoRepeatsSelected(result, renamed);
      }
    } else {
      forall c | c in columns ensures c !in Renames {
        assert c !in newColumns;
      }
    }
  }

  /**
   * The rename table built so far: the names of `done` that are among the
   * columns, each mapped as in `Renames`.
   */
  ghost predicate TableFor(table: map<string, string>, columns: seq<string>, done: set<string>) {
    && done <= Renames.Keys
    && (forall c :: c in table <==> c in done && c in columns)
    && (forall c :: c in table ==> table[c] == Renames[c])
  }

  lemma RenamesEntries()
    ensures Renames.Keys == {"price_btc_price", "price_eth_price", "price_sol_price", "price_xrp_price", "fear_greed_value"}
    ensures Renames["price_btc_price"] == "btc" && Renames["price_eth_price"] == "eth"
    ensures Renames["price_sol_price"] == "sol" && Renames["price_xrp_price"] == "xrp"
    ensures Renames["fear_greed_value"] == "crypto_fear_greed_value"
  {
  }

  /** One conditional insertion `if key in df.columns: new_columns[key] = ...`. */
  lemma TableStep(table: map<string, string>, table': map<string, string>, columns: seq<string>,
                  done: set<string>, key: string)
    requires TableFor(table, columns, done) && key in Renames
    requires table' == if key in columns then table[key := Renames[key]] else table
    ensures TableFor(table', columns, done + {key})
  {
  }

  /** Renaming with the table of present columns is renaming with the whole of `Renames`. */
  lemma RenameWithTable(columns: seq<string>, table: map<string, string>)
    requires TableFor(table, columns, Renames.Keys)
    ensures RenameColumns(columns, table) == RenameColumns(columns, Renames)
  {
    forall i | 0 <= i < |columns|
      ensures RenameColumns(columns, table)[i] == RenameColumns(columns, Renames)[i]
    {
      assert columns[i] in columns;
    }
  }

  // ---------------------------------------------------------------------------
  // Lemmas about the projection

  /** What keeping the existing desired columns, in the desired order, yields. */
  lemma ProjectionFacts(renamed: seq<string>)
    ensures forall c :: c in Select(renamed, ExistingColumns(DesiredOrder, renamed)) ==> c in DesiredOrder
    ensures forall d :: d in DesiredOrder ==>
      multiset(Select(renamed, ExistingColumns(DesiredOrder, renamed)))[d] == multiset(renamed)[d]
    ensures OrderedBy(Select(renamed, ExistingColumns(DesiredOrder, renamed)), DesiredOrder)
  {
    SelectExistingIsSelectAll(renamed, DesiredOrder);
    DesiredOrderDistinct();
    SelectCounts(renamed, DesiredOrder);
    SelectOrdered(renamed, DesiredOrder);
  }

  lemma DesiredOrderDistinct()
    ensures Distinct(DesiredOrder)
  {
  }

  /** Keys with no matching column select nothing, so filtering them out first changes nothing. */
  lemma {:induction false} SelectExistingIsSelectAll(columns: seq<string>, desired: seq<string>)
    ensures Select(columns, ExistingColumns(desired, columns)) == Select(columns, desired)
  {
    if desired != [] {
      SelectExistingIsSelectAll(columns, desired[1..]);
      var k := desired[0];
      var rest := ExistingColumns(desired[1..], columns);
      if k in columns {
        assert ExistingColumns(desired, columns) == [k] + rest;
        assert ([k] + rest)[1..] == rest;
      } else {
        assert multiset(columns)[k] == 0;
        assert Occurrences(columns, k) == [];
        assert ExistingColumns(desired, columns) == rest;
      }
    }
  }

  /** With distinct keys, each key's columns are all selected, and nothing else. */
  lemma {:induction false} SelectCounts(columns: seq<string>, keys: seq<string>)
    requires Distinct(keys)
    ensures forall d :: d in keys ==> multiset(Select(columns, keys))[d] == multiset(columns)[d]
    ensures forall d :: d !in keys ==> multiset(Select(columns, keys))[d] == 0
  {
    if keys != [] {
      var k, rest := keys[0], keys[1..];
      assert Distinct(rest);
      SelectCounts(columns, rest);
      var occ := Occurrences(columns, k);
      assert Select(columns, keys) == occ + Select(columns, rest);
      assert k !in rest;
      forall d ensures multiset(occ)[d] == if d == k then multiset(columns)[k] else 0 {
        OccurrencesMultiset(columns, k, d);
      }
    }
  }

  lemma {:induction false} OccurrencesMultiset(columns: seq<string>, key: string, d: string)
    ensures multiset(Occurrences(columns, key))[d] == if d == key then multiset(columns)[key] else 0
  {
    var occ := Occurrences(columns, key);
    if d != key {
      assert d !in occ;
    } else {
      assert forall c :: c in occ ==> c == key;
      assert multiset(occ)[key] == |occ| by {
        MultisetOfConstant(occ, key);
      }
    }
  }

  lemma {:induction false} MultisetOfConstant(s: seq<string>, key: string)
    requires forall c :: c in s ==> c == key
    ensures multiset(s)[key] == |s|
  {
    if s != [] {
      assert s == [s[0]] + s[1..];
      assert s[0] in s && forall c :: c in s[1..] ==> c in s;
      MultisetOfConstant(s[1..], key);
    }
  }

  /** Past the first key, positions in `keys` are one more than in its tail. */
  lemma PositionInTail(keys: seq<string>, x: string)
    requires Distinct(keys) && keys != [] && x in keys[1..]
    ensures Position(keys, x) == 1 + Position(keys[1..], x)
  {
    var p := Position(keys[1..], x);
    assert keys[p + 1] == x;
  }

  /** Labels equal to the first key, then labels ordered by the later keys, are ordered by all keys. */
  lemma OrderedConcat(head: seq<string>, tail: seq<string>, keys: seq<string>)
    requires Distinct(keys) && keys != []
    requires forall c :: c in head ==> c == keys[0]
    requires forall c :: c in tail ==> c in keys[1..]
    requires OrderedBy(tail, keys[1..])
    ensures OrderedBy(head + tail, keys)
  {
    var rest, r := keys[1..], head + tail;
    forall i, j | 0 <= i < j < |r| && r[i] in keys && r[j] in keys
      ensures Position(keys, r[i]) <= Position(keys, r[j])
    {
      if i < |head| {
        assert r[i] == head[i] && head[i] in head;
      } else {
        var i', j' := i - |head|, j - |head|;
        var a, b := tail[i'], tail[j'];
        assert a == r[i] && b == r[j];
        assert a in tail && b in tail;
        assert Position(rest, a) <= Position(rest, b);
        PositionInTail(keys, a);
        PositionInTail(keys, b);
      }
    }
  }

  /** With distinct keys, the selected columns come in key order. */
  lemma {:induction false} SelectOrdered(columns: seq<string>, keys: seq<string>)
    requires Distinct(keys)
    ensures OrderedBy(Select(columns, keys), keys)
  {
    if keys != [] {
      assert Distinct(keys[1..]);
      SelectOrdered(columns, keys[1..]);
      OrderedConcat(Occurrences(columns, keys[0]), Select(columns, keys[1..]), keys);
    }
  }

  // ---------------------------------------------------------------------------
  // Without repeated labels the result is a subsequence of the desired order

  lemma {:induction false} DistinctCount(s: seq<string>, x: string)
    requires Distinct(s)
    ensures multiset(s)[x] <= 1
  {
    if s != [] {
      assert s == [s[0]] + s[1..];
      assert Distinct(s[1..]);
      DistinctCount(s[1..], x);
      assert s[0] !in s[1..];
    }
  }

  lemma RepeatCount(s: seq<string>, i: nat, j: nat)
    requires i < j < |s| && s[i] == s[j]
    ensures multiset(s)[s[i]] >= 2
  {
    assert s == s[..j] + s[j..];
    assert s[i] in s[..j] && s[j] in s[j..];
  }

  /**
   * Selected labels whose counts match a list without repeats, and that
   * come in the desired order, come in strictly increasing desired order.
   */
  lemma NoRepeatsSelected(result: seq<string>, renamed: seq<string>)
    requires Distinct(renamed)
    requires forall c :: c in result ==> c in DesiredOrder
    requires forall d :: d in DesiredOrder ==> multiset(result)[d] == multiset(renamed)[d]
    requires OrderedBy(result, DesiredOrder)
    ensures StrictlyOrderedBy(result, DesiredOrder)
  {
    forall i, j | 0 <= i < j < |result| && result[i] in DesiredOrder && result[j] in DesiredOrder
      ensures Position(DesiredOrder, result[i]) < Position(DesiredOrder, result[j])
    {
      if result[i] == result[j] {
        RepeatCount(result, i, j);
        DistinctCount(renamed, result[i]);
        assert false;
      }
    }
  }

  /**
   * Column labels that are unique (as `read_csv` makes them) stay unique
   * after renaming unless a column and its new name were both present.
   */
  lemma RenameKeepsDistinct(columns: seq<string>)
    requires Distinct(columns)
    requires forall c :: c in columns && c in Renames ==> Renames[c] !in columns
    ensures Distinct(RenameColumns(columns, Renames))
  {
    RenamesEntries();
    var renamed := RenameColumns(columns, Renames);
    forall i, j | 0 <= i < j < |renamed| ensures renamed[i] != renamed[j] {
      var a, b := columns[i], columns[j];
      assert a in columns && b in columns;
    }
  }
}
