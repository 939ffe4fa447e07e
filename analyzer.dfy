/** The structure analyzer: from a loaded table, a report of its row count,
    one entry per column (type, distinct and null counts, a few example
    values) and the first few rows. */
module Analyzer {
  import opened Frames

  /** Most example values listed per column. */
  const MaxExamples: nat := 5

  /** Rows echoed in the report's sample. */
  const SampleRows: nat := 3

  /** What replaces a column's examples when extracting them fails. */
  const Placeholder: string := "ERRO: Não foi possível obter valores"

  /** An example value: a cell value as it is, or its text. */
  datatype Example<V> = Value(v: V) | Text(s: string)

  datatype ColumnReport<V> =
    ColumnReport(name: string, dtype: string, distinct: nat, nulls: nat, examples: seq<Example<V>>)

  /** One field of a sample row: the column name and the cell. */
  datatype Field<V> = Field(name: string, value: Option<V>)

  datatype FileReport<V> =
    FileReport(fileName: string, totalRows: nat, columns: seq<ColumnReport<V>>, samples: seq<seq<Field<V>>>)

  // ---------------------------------------------------------------------
  // Sequences and their elements

  ghost predicate Distinct<T>(s: seq<T>)
  {
    forall i, j :: 0 <= i < j < |s| ==> s[i] != s[j]
  }

  /** The set of elements of `s`. */
  function Elems<T(==, !new)>(s: seq<T>): (r: set<T>)
    ensures forall x :: x in r <==> x in s
    ensures |r| <= |s|
  {
    if s == [] then {} else Elems(s[..|s| - 1]) + {s[|s| - 1]}
  }

  /** `s` without repetitions. The contract promises no order. */
  function Dedupe<T(==, !new)>(s: seq<T>): (r: seq<T>)
    ensures Distinct(r)
    ensures forall x :: x in r <==> x in s
    ensures |r| == |Elems(s)|
  {
    if s == [] then []
    else
      var init, last := s[..|s| - 1], s[|s| - 1];
      var rest := Dedupe(init);
      assert Elems(s) == Elems(init) + {last};
      if last in rest then
        assert last in Elems(init);
        assert Elems(s) == Elems(init);
        rest
      else
        assert last !in Elems(init);
        assert |Elems(s)| == |Elems(init)| + 1;
        rest + [last]
  }

  /** The first `n` elements of `s`, or all of them when there are fewer. */
  function Prefix<T>(s: seq<T>, n: nat): (r: seq<T>)
    ensures |r| == Min(n, |s|) && r == s[..|r|]
  {
    if |s| <= n then s else s[..n]
  }

  // ---------------------------------------------------------------------
  // Column statistics

  /** The number of missing cells. */
  function NullCount<V>(cells: seq<Option<V>>): nat
  {
    if cells == [] then 0
    else NullCount(cells[..|cells| - 1]) + if cells[|cells| - 1].None? then 1 else 0
  }

  /** The values of the present cells. */
  function DropNulls<V(==, !new)>(cells: seq<Option<V>>): (r: seq<V>)
    ensures |r| + NullCount(cells) == |cells|
    ensures forall v :: v in r <==> Some(v) in cells
  {
    if cells == [] then []
    else
      var init := DropNulls(cells[..|cells| - 1]);
      assert cells == cells[..|cells| - 1] + [cells[|cells| - 1]];
      match cells[|cells| - 1]
      case None => init
      case Some(v) => init + [v]
  }

  /** The number of distinct present values. */
  function DistinctCount<V(==, !new)>(cells: seq<Option<V>>): nat
  {
    |Elems(DropNulls(cells))|
  }

  /** The distinct present values. */
  function Unique<V(==, !new)>(cells: seq<Option<V>>): seq<V>
  {
    Dedupe(DropNulls(cells))
  }

  /** The distinct present values, each once; exactly as many as the
      distinct count says. */
  lemma UniqueSpec<V(!new)>(cells: seq<Option<V>>)
    ensures Distinct(Unique(cells))
    ensures forall v :: v in Unique(cells) <==> Some(v) in cells
    ensures |Unique(cells)| == DistinctCount(cells)
  {
  }

  lemma {:induction false} ElemsCount<T(!new)>(s: seq<T>)
    ensures |Elems(s)| <= |s|
    ensures |Elems(s)| == |s| <==> Distinct(s)
  {
    if s != [] {
      ElemsCount(s[..|s| - 1]);
      if s[|s| - 1] in s[..|s| - 1] {
        RepeatedLast(s);
      } else {
        FreshLast(s);
      }
    }
  }

  lemma RepeatedLast<T(!new)>(s: seq<T>)
    requires s != [] && s[|s| - 1] in s[..|s| - 1]
    ensures !Distinct(s) && Elems(s) == Elems(s[..|s| - 1])
  {
    var i :| 0 <= i < |s| - 1 && s[..|s| - 1][i] == s[|s| - 1];
    assert s[i] == s[|s| - 1];
  }

  lemma FreshLast<T(!new)>(s: seq<T>)
    requires s != [] && s[|s| - 1] !in s[..|s| - 1]
    ensures |Elems(s)| == |Elems(s[..|s| - 1])| + 1
    ensures Distinct(s) <==> Distinct(s[..|s| - 1])
  {
    var init, last := s[..|s| - 1], s[|s| - 1];
    assert Elems(s) == Elems(init) + {last};
    assert last !in Elems(init);
    DistinctSnoc(s);
  }

  lemma DistinctSnoc<T>(s: seq<T>)
    requires s != [] && s[|s| - 1] !in s[..|s| - 1]
    ensures Distinct(s) <==> Distinct(s[..|s| - 1])
  {
    var init := s[..|s| - 1];
    if Distinct(init) {
      forall i, j | 0 <= i < j < |s| ensures s[i] != s[j] {
        assert s[i] == init[i];
        if j < |init| { assert s[j] == init[j]; }
      }
    }
    if Distinct(s) {
      forall i, j | 0 <= i < j < |init| ensures init[i] != init[j] {
        assert s[i] == init[i] && s[j] == init[j];
      }
    }
  }

  /** Nulls and distinct values together never outnumber the rows, and they
      match the rows exactly when no present value repeats. */
  lemma CountsBound<V(!new)>(cells: seq<Option<V>>)
    ensures NullCount(cells) + DistinctCount(cells) <= |cells|
    ensures NullCount(cells) + DistinctCount(cells) == |cells| <==> Distinct(DropNulls(cells))
  {
    ElemsCount(DropNulls(cells));
  }

  // ---------------------------------------------------------------------
  // One column's entry

  /** The text form of an example, as the date/time conversion writes it. */
  function Stringify<V>(e: Example<V>, show: V -> string): Example<V>
  {
    match e
    case Value(v) => Text(show(v))
    case Text(s) => Text(s)
  }

  /** `e` is the report entry for column `c`: its name, type, distinct and
      null counts, and as examples the placeholder when extraction fails,
      otherwise the first distinct values (as text for a date/time column). */
  ghost predicate Describes<V(!new)>(e: ColumnReport<V>, c: Column<V>, fails: Column<V> -> bool, show: V -> string)
  {
    && e.name == c.name
    && e.dtype == c.dtype.typeName
    && e.distinct == DistinctCount(c.cells)
    && e.nulls == NullCount(c.cells)
    && (fails(c) ==> e.examples == [Text(Placeholder)])
    && (!fails(c) ==>
          && |e.examples| == Min(MaxExamples, |Unique(c.cells)|)
          && forall k :: 0 <= k < |e.examples| ==>
               e.examples[k] == if c.dtype.isDatetime then Text(show(Unique(c.cells)[k]))
                                else Value(Unique(c.cells)[k]))
  }

  /** The bounds every column entry keeps. */
  lemma EntryBounds<V(!new)>(e: ColumnReport<V>, c: Column<V>, fails: Column<V> -> bool, show: V -> string)
    requires Describes(e, c, fails, show)
    ensures e.nulls + e.distinct <= |c.cells|
    ensures |e.examples| <= MaxExamples
    ensures !fails(c) ==> |e.examples| == Min(MaxExamples, e.distinct)
    ensures !fails(c) && !c.dtype.isDatetime ==>
              (forall k :: 0 <= k < |e.examples| ==> e.examples[k].Value? && Some(e.examples[k].v) in c.cells)
              && Distinct(e.examples)
    ensures c.dtype.isDatetime ==> forall k :: 0 <= k < |e.examples| ==> e.examples[k].Text?
    ensures !fails(c) && c.dtype.isDatetime ==>
              forall k :: 0 <= k < |e.examples| ==> exists v :: Some(v) in c.cells && e.examples[k] == Text(show(v))
    ensures !fails(c) && c.dtype.isDatetime && (forall a, b :: show(a) == show(b) ==> a == b) ==>
              Distinct(e.examples)
  {
    CountsBound(c.cells);
    UniqueSpec(c.cells);
    var u := Unique(c.cells);
    if !fails(c) {
      if !c.dtype.isDatetime {
        forall k, l | 0 <= k < l < |e.examples| ensures e.examples[k] != e.examples[l] {
          assert e.examples[k] == Value(u[k]) && e.examples[l] == Value(u[l]);
        }
        forall k | 0 <= k < |e.examples| ensures e.examples[k].Value? && Some(e.examples[k].v) in c.cells {
          assert u[k] in u;
        }
      } else {
        forall k | 0 <= k < |e.examples| ensures exists v :: Some(v) in c.cells && e.examples[k] == Text(show(v)) {
          assert u[k] in u;
        }
        if forall a, b :: show(a) == show(b) ==> a == b {
          forall k, l | 0 <= k < l < |e.examples| ensures e.examples[k] != e.examples[l] {
            assert e.examples[k] == Text(show(u[k])) && e.examples[l] == Text(show(u[l]));
          }
        }
      }
    }
  }

  /** A failed extraction changes only the examples: the entry is the one a
      successful extraction gives, with the examples replaced by the
      placeholder. */
  lemma FailureChangesOnlyExamples<V(!new)>(failed: ColumnReport<V>, ok: ColumnReport<V>, c: Column<V>,
                                      fails: Column<V> -> bool, passes: Column<V> -> bool, show: V -> string)
    requires Describes(failed, c, fails, show) && fails(c)
    requires Describes(ok, c, passes, show) && !passes(c)
    ensures failed == ok.(examples := [Text(Placeholder)])
  {
  }

  // ---------------------------------------------------------------------
  // The sample rows

  /** The table cut to its first `n` rows. */
  function Head<V>(t: Table<V>, n: nat): (h: Table<V>)
    requires t.WellFormed()
    ensures h.WellFormed() && h.rows == Min(n, t.rows) && |h.columns| == |t.columns|
    ensures forall j :: 0 <= j < |t.columns| ==>
              h.columns[j] == t.columns[j].(cells := t.columns[j].cells[..h.rows])
  {
    var rows := Min(n, t.rows);
    Table(rows, seq(|t.columns|, j requires 0 <= j < |t.columns| =>
                                 t.columns[j].(cells := t.columns[j].cells[..rows])))
  }

  /** The table's rows, each as its fields in column order. */
  function Records<V>(t: Table<V>): (rs: seq<seq<Field<V>>>)
    requires t.WellFormed()
    ensures |rs| == t.rows
    ensures forall i :: 0 <= i < t.rows ==> |rs[i]| == |t.columns|
    ensures forall i, j :: 0 <= i < t.rows && 0 <= j < |t.columns| ==>
              rs[i][j] == Field(t.columns[j].name, t.columns[j].cells[i])
  {
    seq(t.rows, i requires 0 <= i < t.rows =>
      seq(|t.columns|, j requires 0 <= j < |t.columns| => Field(t.columns[j].name, t.columns[j].cells[i])))
  }

  // ---------------------------------------------------------------------
  // The report

  /** The report entry of one column: its counts, then its examples, which
      are overwritten with the placeholder when extraction fails and turned
      into text in a date/time column. */
  method DescribeColumn<V(==, !new)>(c: Column<V>, fails: Column<V> -> bool, show: V -> string)
    returns (info: ColumnReport<V>)
    ensures Describes(info, c, fails, show)
  {
    info := ColumnReport(c.name, c.dtype.typeName, DistinctCount(c.cells), NullCount(c.cells), []);
    if fails(c) {
      info := info.(examples := [Text(Placeholder)]);
    } else {
      var values := Prefix(Unique(c.cells), MaxExamples);
      info := info.(examples := seq(|values|, k requires 0 <= k < |values| => Value(values[k])));
      if c.dtype.isDatetime {
        var ex := info.examples;
        info := info.(examples := seq(|ex|, k requires 0 <= k < |ex| => Stringify(ex[k], show)));
      }
    }
  }

  /** Builds the report column by column. `fails` says for which columns
      extracting the distinct values raises, and `show` is the text form of
      a date/time value. */
  method Analyze<V(==, !new)>(t: Table<V>, fileName: string, fails: Column<V> -> bool, show: V -> string)
    returns (r: FileReport<V>)
    requires t.WellFormed()
    ensures r.fileName == fileName && r.totalRows == t.rows
    ensures |r.samples| == Min(SampleRows, t.rows)
    ensures forall i :: 0 <= i < |r.samples| ==> |r.samples[i]| == |t.columns|
    ensures forall i, j :: 0 <= i < |r.samples| && 0 <= j < |t.columns| ==>
              r.samples[i][j] == Field(t.columns[j].name, t.columns[j].cells[i])
    ensures |r.columns| == |t.columns|
    ensures forall j :: 0 <= j < |t.columns| ==> Describes(r.columns[j], t.columns[j], fails, show)
  {
    var columns: seq<ColumnReport<V>> := [];
    for j := 0 to |t.columns|
      invariant |columns| == j
      invariant forall k :: 0 <= k < j ==> Describes(columns[k], t.columns[k], fails, show)
    {
      var info := DescribeColumn(t.columns[j], fails, show);
      columns := columns + [info];
    }
    var head := Head(t, SampleRows);
    r := FileReport(fileName, t.rows, columns, Records(head));
  }
}
