/**
 * The Go pgPriceRepository: the INSERT statement and argument list it builds, and the
 * range query it reads prices back with.
 */
module GoPriceRepository {
  import opened Wrappers
  import opened Decimal
  import opened Model
  import opened PriceStore

  /** The column list of the INSERT, in argument order. */
  const Columns: seq<string> := ["delivery_start", "delivery_end", "price"]
  const InsertHead := "INSERT INTO price_history (delivery_start, delivery_end, price) VALUES "
  const InsertTail := " ON CONFLICT (delivery_start) DO NOTHING"

  /** PostgreSQL positional parameter $n. */
  function Placeholder(n: nat): string {
    "$" + NatToString(n)
  }

  /** The VALUES tuple of entry i: its three parameters are numbered 3i+1, 3i+2, 3i+3. */
  function ValueTuple(i: nat): string {
    "(" + Placeholder(3 * i + 1) + ", " + Placeholder(3 * i + 2) + ", " + Placeholder(3 * i + 3) + ")"
  }

  function InsertQuery(n: nat): string {
    InsertHead + Join(seq(n, i requires 0 <= i => ValueTuple(i)), ", ") + InsertTail
  }

  /** The value the entry supplies for a column of the INSERT. */
  function ColumnValue(e: PriceHistoryEntry, column: string): SqlValue {
    if column == StartColumn then Timestamp(e.deliveryStart)
    else if column == EndColumn then Timestamp(e.deliveryEnd)
    else Numeric(e.price)
  }

  function RowArgs(e: PriceHistoryEntry): seq<SqlValue> {
    [Timestamp(e.deliveryStart), Timestamp(e.deliveryEnd), Numeric(e.price)]
  }

  /** valueArgs: three arguments per entry, in entry order. */
  function Args(entries: seq<PriceHistoryEntry>): (r: seq<SqlValue>)
    ensures |r| == 3 * |entries|
  {
    if |entries| == 0 then [] else RowArgs(entries[0]) + Args(entries[1..])
  }

  lemma {:induction false} ArgsAppend(a: seq<PriceHistoryEntry>, e: PriceHistoryEntry)
    ensures Args(a + [e]) == Args(a) + RowArgs(e)
  {
    if |a| == 0 {
      assert [] + [e] == [e];
    } else {
      assert (a + [e])[1..] == a[1..] + [e];
      ArgsAppend(a[1..], e);
    }
  }

  /** Argument 3i+c (bound to placeholder $3i+c+1) is entry i's value for column c. */
  lemma {:induction false} ArgsLayout(entries: seq<PriceHistoryEntry>)
    ensures forall i, c :: 0 <= i < |entries| && 0 <= c < 3 ==>
              Args(entries)[3 * i + c] == ColumnValue(entries[i], Columns[c])
  {
    if |entries| > 0 {
      ArgsLayout(entries[1..]);
      forall i, c | 0 <= i < |entries| && 0 <= c < 3
        ensures Args(entries)[3 * i + c] == ColumnValue(entries[i], Columns[c])
      {
        if i > 0 {
          assert Args(entries)[3 * i + c] == Args(entries[1..])[3 * (i - 1) + c];
        }
      }
    }
  }

  /** Reading the arguments back by the column list gives the entries: nothing is swapped or lost. */
  lemma {:induction false} ArgsRoundTrip(entries: seq<PriceHistoryEntry>)
    ensures DecodeArgs(Columns, |entries|, Args(entries)) == Ok(entries)
  {
    if |entries| > 0 {
      var args := Args(entries);
      assert args[..3] == RowArgs(entries[0]);
      assert args[3..] == Args(entries[1..]);
      assert IndexOf(Columns, StartColumn) == Some(0);
      assert IndexOf(Columns, EndColumn) == Some(1);
      assert IndexOf(Columns, PriceColumn) == Some(2);
      ArgsRoundTrip(entries[1..]);
      assert entries == [entries[0]] + entries[1..];
    }
  }

  /** The loop of InsertPrices: one VALUES tuple and three arguments per entry. */
  method BuildInsert(entries: seq<PriceHistoryEntry>) returns (query: string, args: seq<SqlValue>)
    ensures query == InsertQuery(|entries|)
    ensures args == Args(entries)
  {
    var valueStrings: seq<string> := [];
    var valueArgs: seq<SqlValue> := [];
    var i := 0;
    while i < |entries|
      invariant 0 <= i <= |entries|
      invariant valueStrings == seq(i, j requires 0 <= j => ValueTuple(j))
      invariant valueArgs == Args(entries[..i])
      decreases |entries| - i
    {
      var offset := i * 3;
      valueStrings := valueStrings + ["(" + Placeholder(offset + 1) + ", " + Placeholder(offset + 2) + ", " + Placeholder(offset + 3) + ")"];
      ArgsAppend(entries[..i], entries[i]);
      assert entries[..i + 1] == entries[..i] + [entries[i]];
      valueArgs := valueArgs + RowArgs(entries[i]);
      i := i + 1;
    }
    assert entries[..i] == entries;
    query := InsertHead + Join(valueStrings, ", ") + InsertTail;
    args := valueArgs;
  }

  /**
   * InsertPrices: an empty batch returns (0, nil) without a statement; otherwise one
   * statement, whose failure (execFault, the driver's or server's error) returns 0 and
   * the error and changes nothing.
   */
  method InsertPrices(table: PriceTable, entries: seq<PriceHistoryEntry>, execFault: Option<string>)
    returns (affected: int, err: Option<string>)
    requires table.Valid()
    modifies table
    ensures table.Valid()
    ensures |entries| == 0 ==> affected == 0 && err.None? && table.rows == old(table.rows)
    ensures |entries| > 0 && execFault.Some? ==> affected == 0 && err.Some? && table.rows == old(table.rows)
    ensures |entries| > 0 && execFault.None? ==>
              err.None? && table.rows == InsertAll(old(table.rows), entries)
              && affected == |BatchKeys(entries) - Keys(old(table.rows))|
  {
    if |entries| == 0 {
      return 0, None;
    }
    var query, args := BuildInsert(entries);
    if execFault.Some? {
      return 0, Some("failed to insert prices: " + execFault.value);
    }
    ArgsRoundTrip(entries);
    InsertAllCount(table.rows, entries);
    var result := table.ExecInsert(Columns, |entries|, args);
    return result.value, None;
  }

  /** What can go wrong while reading: the query, the scan of one row, or the cursor. */
  datatype ReadFault = NoFault | QueryFails | ScanFailsAt(row: nat) | RowsFail

  /** The WHERE clause: delivery_start >= $1 AND delivery_start < $2, a half-open window. */
  function InWindow(from: int, to: int): PriceHistoryEntry -> bool {
    (e: PriceHistoryEntry) => from <= e.deliveryStart < to
  }

  /** GetPrices: every scanned row, in ORDER BY delivery_start order; any failure yields no list at all. */
  method GetPrices(table: PriceTable, from: int, to: int, fault: ReadFault) returns (r: Result<seq<PriceHistoryEntry>, string>)
    requires table.Valid()
    ensures r.Ok? <==> fault.NoFault? || (fault.ScanFailsAt? && fault.row >= |table.Select(InWindow(from, to))|)
    ensures r.Ok? ==> r.value == table.Select(InWindow(from, to))
    ensures r.Ok? ==> Ascending(r.value)
    ensures r.Ok? ==> forall x :: x in r.value <==> x in table.rows && from <= x.deliveryStart < to
  {
    if fault.QueryFails? {
      return Err("failed to query prices");
    }
    var rows := table.Select(InWindow(from, to));
    var entries: seq<PriceHistoryEntry> := [];
    var i := 0;
    while i < |rows|
      invariant 0 <= i <= |rows|
      invariant entries == rows[..i]
      invariant fault.ScanFailsAt? ==> fault.row >= i
      decreases |rows| - i
    {
      if fault.ScanFailsAt? && fault.row == i {
        return Err("failed to scan price entry");
      }
      entries := entries + [rows[i]];
      i := i + 1;
    }
    if fault.RowsFail? {
      return Err("rows error");
    }
    assert rows[..i] == rows;
    return Ok(entries);
  }
}

/**
 * The Java PriceRepository: a JDBC statement with "?" parameters bound by a counter,
 * a strict range query on both interval ends, and exceptions instead of error values.
 */
module JavaPriceRepository {
  import opened Wrappers
  import opened Model
  import opened PriceStore

  /** The column list of the INSERT, in binding order. */
  const Columns: seq<string> := ["price", "delivery_start", "delivery_end"]
  const Head := "INSERT INTO " + "price_history " + "(price, " + "delivery_start, " + "delivery_end)" + "\nVALUES" + "\n"
  const Tuple := "(?, ?, ?)"
  const Separator := ", \n"
  const Tail := " ON CONFLICT (delivery_start) DO NOTHING"

  function StatementText(n: nat): string {
    Head + Join(seq(n, _ => Tuple), Separator) + Tail
  }

  /** The StringBuilder loop: a tuple per entry, a separator after every tuple but the last. */
  method BuildStatement(n: nat) returns (sql: string)
    ensures sql == StatementText(n)
  {
    sql := Head;
    var i := 0;
    ghost var tuples: seq<string> := [];
    while i < n
      invariant 0 <= i <= n
      invariant tuples == seq(i, _ => Tuple)
      invariant sql == Head + Join(tuples, Separator) + (if 0 < i < n then Separator else "")
      decreases n - i
    {
      sql := sql + Tuple;
      tuples := tuples + [Tuple];
      if i < n - 1 {
        sql := sql + Separator;
      }
      i := i + 1;
    }
    sql := sql + Tail;
  }

  /** The statement has exactly one "?" per bound parameter: three per entry. */
  lemma {:induction false} StatementParameters(n: nat)
    ensures CountChar(StatementText(n), '?') == 3 * n
  {
    JoinTuplesCount(n);
    CountCharAppend(Head, Join(seq(n, _ => Tuple), Separator), '?');
    CountCharAppend(Head + Join(seq(n, _ => Tuple), Separator), Tail, '?');
    NoParameters("INSERT INTO ", "price_history ", "(price, ", "delivery_start, ");
    NoParameters("INSERT INTO " + "price_history " + "(price, " + "delivery_start, ", "delivery_end)", "\nVALUES", "\n");
    NoParameters(" ON CONFLICT ", "(delivery_start) ", "DO NOTHING", "");
    assert Tail == " ON CONFLICT " + "(delivery_start) " + "DO NOTHING" + "";
  }

  lemma {:induction false} JoinTuplesCount(n: nat)
    ensures CountChar(Join(seq(n, _ => Tuple), Separator), '?') == 3 * n
  {
    TupleParameters();
    CountCharAbsent(Separator, '?');
    if n == 1 {
      assert seq(1, _ => Tuple) == [Tuple];
    } else if n > 1 {
      var parts := seq(n, _ => Tuple);
      assert parts[..n - 1] == seq(n - 1, _ => Tuple);
      JoinTuplesCount(n - 1);
      CountCharAppend(Join(parts[..n - 1], Separator), Separator, '?');
      CountCharAppend(Join(parts[..n - 1], Separator) + Separator, Tuple, '?');
    }
  }

  lemma NoParameters(a: string, b: string, c: string, d: string)
    requires '?' !in a && '?' !in b && '?' !in c && '?' !in d
    ensures CountChar(a + b + c + d, '?') == 0
  {
    CountCharAbsent(a + b + c + d, '?');
  }

  lemma TupleParameters()
    ensures CountChar(Tuple, '?') == 3
  {
    assert Tuple == "(" + "?" + ", " + "?" + ", " + "?" + ")";
    CountCharAbsent("(", '?');
    CountCharAbsent(", ", '?');
    CountCharAbsent(")", '?');
    assert CountChar("?", '?') == 1 by { assert "?"[..0] == ""; }
    CountCharAppend("(", "?", '?');
    CountCharAppend("(" + "?", ", ", '?');
    CountCharAppend("(" + "?" + ", ", "?", '?');
    CountCharAppend("(" + "?" + ", " + "?", ", ", '?');
    CountCharAppend("(" + "?" + ", " + "?" + ", ", "?", '?');
    CountCharAppend("(" + "?" + ", " + "?" + ", " + "?", ")", '?');
  }

  /** The three parameters bound for one entry; a null FI price is bound as SQL NULL. */
  function EntryParams(e: JavaEntry): seq<SqlValue>
    requires e.entryPerArea.Some?
  {
    [if e.entryPerArea.value.fi.Some? then Numeric(e.entryPerArea.value.fi.value) else Null,
     Timestamp(e.deliveryStart), Timestamp(e.deliveryEnd)]
  }

  function Params(es: seq<JavaEntry>): (r: seq<SqlValue>)
    requires forall i :: 0 <= i < |es| ==> es[i].entryPerArea.Some?
    ensures |r| == 3 * |es|
  {
    if |es| == 0 then [] else EntryParams(es[0]) + Params(es[1..])
  }

  lemma {:induction false} ParamsAppend(a: seq<JavaEntry>, e: JavaEntry)
    requires forall i :: 0 <= i < |a| ==> a[i].entryPerArea.Some?
    requires e.entryPerArea.Some?
    ensures Params(a + [e]) == Params(a) + EntryParams(e)
  {
    if |a| == 0 {
      assert [] + [e] == [e];
    } else {
      assert (a + [e])[1..] == a[1..] + [e];
      ParamsAppend(a[1..], e);
    }
  }

  /**
   * The binding loop: paramCounter runs 1, 2, 3, ... and every entry binds (FI price,
   * deliveryStart, deliveryEnd).  A null entryPerArea throws NullPointerException.
   */
  method Bind(es: seq<JavaEntry>) returns (r: Result<seq<SqlValue>, string>)
    ensures r.Ok? <==> forall i :: 0 <= i < |es| ==> es[i].entryPerArea.Some?
    ensures r.Ok? ==> r.value == Params(es)
  {
    var bound: seq<SqlValue> := [];
    var paramCounter := 1;
    var i := 0;
    while i < |es|
      invariant 0 <= i <= |es|
      invariant forall j :: 0 <= j < i ==> es[j].entryPerArea.Some?
      invariant bound == Params(es[..i])
      invariant paramCounter == |bound| + 1
      decreases |es| - i
    {
      var entry := es[i];
      if entry.entryPerArea.None? {
        return Err("NullPointerException");
      }
      ParamsAppend(es[..i], entry);
      assert es[..i + 1] == es[..i] + [entry];
      var fi := entry.entryPerArea.value.fi;
      bound := bound + [if fi.Some? then Numeric(fi.value) else Null];
      paramCounter := paramCounter + 1;
      bound := bound + [Timestamp(entry.deliveryStart)];
      paramCounter := paramCounter + 1;
      bound := bound + [Timestamp(entry.deliveryEnd)];
      paramCounter := paramCounter + 1;
      i := i + 1;
    }
    assert es[..i] == es;
    return Ok(bound);
  }

  /** The stored row for an entry whose FI price is present. */
  function ToRow(e: JavaEntry): PriceHistoryEntry
    requires e.entryPerArea.Some? && e.entryPerArea.value.fi.Some?
  {
    PriceHistoryEntry(e.entryPerArea.value.fi.value, e.deliveryStart, e.deliveryEnd)
  }

  predicate AllPriced(es: seq<JavaEntry>) {
    forall i :: 0 <= i < |es| ==> es[i].entryPerArea.Some? && es[i].entryPerArea.value.fi.Some?
  }

  /** The rows a fully priced entry list stands for, in list order. */
  function Rows(es: seq<JavaEntry>): (r: seq<PriceHistoryEntry>)
    requires AllPriced(es)
    ensures |r| == |es|
    ensures forall i :: 0 <= i < |es| ==> r[i] == ToRow(es[i])
  {
    if |es| == 0 then []
    else
      assert forall i :: 1 <= i < |es| ==> es[i] == es[1..][i - 1];
      [ToRow(es[0])] + Rows(es[1..])
  }

  /** What the database reads from the bound parameters: the rows, or the NOT NULL violation of a null price. */
  lemma {:induction false} ParamsDecode(es: seq<JavaEntry>)
    requires forall i :: 0 <= i < |es| ==> es[i].entryPerArea.Some?
    ensures AllPriced(es) ==> DecodeArgs(Columns, |es|, Params(es)) == Ok(Rows(es))
    ensures !AllPriced(es) ==> DecodeArgs(Columns, |es|, Params(es)).Err?
  {
    if |es| > 0 {
      var args := Params(es);
      assert args[..3] == EntryParams(es[0]);
      assert args[3..] == Params(es[1..]);
      assert IndexOf(Columns, StartColumn) == Some(1);
      assert IndexOf(Columns, EndColumn) == Some(2);
      assert IndexOf(Columns, PriceColumn) == Some(0);
      ParamsDecode(es[1..]);
      assert AllPriced(es) <==> es[0].entryPerArea.value.fi.Some? && AllPriced(es[1..]) by {
        assert forall i :: 1 <= i < |es| ==> es[i] == es[1..][i - 1];
      }
    }
  }

  /**
   * insertPrices: a null list or a null entryPerArea throws; an empty list builds
   * "VALUES\n ON CONFLICT", which the database rejects; a null FI price violates NOT NULL;
   * a failing connection or statement (execFault) throws.  Every exception leaves the
   * table as it was.
   */
  method InsertPrices(table: PriceTable, entryList: Option<seq<JavaEntry>>, execFault: Option<string>)
    returns (r: Result<(), string>)
    requires table.Valid()
    modifies table
    ensures table.Valid()
    ensures r.Err? ==> table.rows == old(table.rows)
    ensures r.Ok? <==> entryList.Some? && |entryList.value| > 0 && AllPriced(entryList.value) && execFault.None?
    ensures r.Ok? ==>
              table.rows == InsertAll(old(table.rows), Rows(entryList.value))
  {
    if entryList.None? {
      return Err("NullPointerException");
    }
    var es := entryList.value;
    if execFault.Some? {
      return Err(execFault.value);
    }
    var sql := BuildStatement(|es|);
    var bound := Bind(es);
    if bound.Err? {
      return Err(bound.error);
    }
    ParamsDecode(es);
    var result := table.ExecInsert(Columns, |es|, bound.value);
    if result.Err? {
      return Err(result.error);
    }
    return Ok(());
  }

  /** The WHERE clause: delivery_start > ? AND delivery_end < ?, both strict. */
  function InRange(from: int, to: int): PriceHistoryEntry -> bool {
    (e: PriceHistoryEntry) => from < e.deliveryStart && e.deliveryEnd < to
  }

  /** getPrices: the `while (rs.next())` loop collects every selected row; an SQLException is rethrown. */
  method GetPrices(table: PriceTable, from: int, to: int, fault: Option<string>) returns (r: Result<seq<PriceHistoryEntry>, string>)
    requires table.Valid()
    ensures r.Err? <==> fault.Some?
    ensures r.Ok? ==> r.value == table.Select(InRange(from, to))
    ensures r.Ok? ==> Ascending(r.value)
    ensures r.Ok? ==> forall x :: x in r.value <==> x in table.rows && from < x.deliveryStart && x.deliveryEnd < to
  {
    if fault.Some? {
      return Err(fault.value);
    }
    var rs := table.Select(InRange(from, to));
    var ret: seq<PriceHistoryEntry> := [];
    var i := 0;
    while i < |rs|
      invariant 0 <= i <= |rs|
      invariant ret == rs[..i]
      decreases |rs| - i
    {
      ret := ret + [rs[i]];
      i := i + 1;
    }
    assert rs[..i] == rs;
    return Ok(ret);
  }
}
