/**
 * The price_history table as the SQL text of both repositories uses it: rows keyed by
 * delivery_start, inserted with ON CONFLICT (delivery_start) DO NOTHING, read back with
 * a WHERE filter and ORDER BY delivery_start.
 *
 * The table is kept as a sequence in key order, so ORDER BY delivery_start is the
 * sequence order and uniqueness of the key is strict ascent.
 */
module PriceStore {
  import opened Wrappers
  import opened Model

  predicate Ascending(rows: seq<PriceHistoryEntry>) {
    forall i, j :: 0 <= i < j < |rows| ==> rows[i].deliveryStart < rows[j].deliveryStart
  }

  /** The delivery_start values present in the table. */
  function Keys(rows: seq<PriceHistoryEntry>): set<int> {
    if |rows| == 0 then {} else {rows[0].deliveryStart} + Keys(rows[1..])
  }

  lemma {:induction false} KeysMember(rows: seq<PriceHistoryEntry>, k: int)
    ensures k in Keys(rows) <==> exists x :: x in rows && x.deliveryStart == k
  {
    if |rows| > 0 {
      KeysMember(rows[1..], k);
      assert forall x :: x in rows <==> x == rows[0] || x in rows[1..];
    }
  }

  lemma KeysCons(h: PriceHistoryEntry, t: seq<PriceHistoryEntry>)
    ensures Keys([h] + t) == {h.deliveryStart} + Keys(t)
  {
    assert ([h] + t)[1..] == t;
  }

  /** In an ascending table no key is below the first row's. */
  lemma {:induction false} KeysAbove(rows: seq<PriceHistoryEntry>)
    requires Ascending(rows) && |rows| > 0
    ensures forall k :: k in Keys(rows) ==> k >= rows[0].deliveryStart
  {
    if |rows| > 1 {
      KeysAbove(rows[1..]);
    }
  }

  lemma AscendingCons(h: PriceHistoryEntry, t: seq<PriceHistoryEntry>)
    requires Ascending(t)
    requires forall x :: x in t ==> h.deliveryStart < x.deliveryStart
    ensures Ascending([h] + t)
  {
    var r := [h] + t;
    forall i, j | 0 <= i < j < |r| ensures r[i].deliveryStart < r[j].deliveryStart {
      if i == 0 {
        assert r[j] == t[j - 1];
        assert t[j - 1] in t;
      } else {
        assert r[i] == t[i - 1] && r[j] == t[j - 1];
      }
    }
  }

  /** Insert-or-skip of one row: a row whose delivery_start is already present is dropped. */
  function InsertRow(rows: seq<PriceHistoryEntry>, e: PriceHistoryEntry): (r: seq<PriceHistoryEntry>)
    requires Ascending(rows)
    ensures Ascending(r)
    ensures forall x :: x in r ==> x in rows || x == e
  {
    if |rows| == 0 then [e]
    else if e.deliveryStart < rows[0].deliveryStart then
      assert forall x :: x in rows ==> rows[0] == x || rows[0].deliveryStart < x.deliveryStart;
      AscendingCons(e, rows);
      [e] + rows
    else if e.deliveryStart == rows[0].deliveryStart then rows
    else
      var tail := InsertRow(rows[1..], e);
      assert forall x :: x in rows[1..] ==> rows[0].deliveryStart < x.deliveryStart;
      AscendingCons(rows[0], tail);
      assert forall x :: x in [rows[0]] + tail ==> x == rows[0] || x in tail;
      [rows[0]] + tail
  }

  /** What one insert-or-skip does to the table's keys and rows. */
  lemma {:induction false} InsertRowEffect(rows: seq<PriceHistoryEntry>, e: PriceHistoryEntry)
    requires Ascending(rows)
    ensures Keys(InsertRow(rows, e)) == Keys(rows) + {e.deliveryStart}
    ensures e.deliveryStart in Keys(rows) ==> InsertRow(rows, e) == rows
    ensures e.deliveryStart !in Keys(rows) ==> |InsertRow(rows, e)| == |rows| + 1 && e in InsertRow(rows, e)
    ensures forall x :: x in rows ==> x in InsertRow(rows, e)
  {
    if |rows| == 0 {
      KeysCons(e, []);
    } else if e.deliveryStart < rows[0].deliveryStart {
      KeysAbove(rows);
      KeysCons(e, rows);
    } else if e.deliveryStart == rows[0].deliveryStart {
      KeysCons(rows[0], rows[1..]);
      assert rows == [rows[0]] + rows[1..];
    } else {
      var tail := InsertRow(rows[1..], e);
      InsertRowEffect(rows[1..], e);
      assert rows == [rows[0]] + rows[1..];
      KeysCons(rows[0], rows[1..]);
      KeysCons(rows[0], tail);
    }
  }

  /** A batch applied row by row, as one INSERT ... ON CONFLICT DO NOTHING statement does. */
  function InsertAll(rows: seq<PriceHistoryEntry>, batch: seq<PriceHistoryEntry>): (r: seq<PriceHistoryEntry>)
    requires Ascending(rows)
    ensures Ascending(r)
    decreases |batch|
  {
    if |batch| == 0 then rows else InsertAll(InsertRow(rows, batch[0]), batch[1..])
  }

  /** The delivery_start values of a batch. */
  function BatchKeys(batch: seq<PriceHistoryEntry>): set<int> {
    Keys(batch)
  }

  /** Afterwards the table holds the old keys and the batch's keys, and nothing else. */
  lemma {:induction false} InsertAllKeys(rows: seq<PriceHistoryEntry>, batch: seq<PriceHistoryEntry>)
    requires Ascending(rows)
    ensures Keys(InsertAll(rows, batch)) == Keys(rows) + BatchKeys(batch)
    decreases |batch|
  {
    if |batch| > 0 {
      InsertRowEffect(rows, batch[0]);
      InsertAllKeys(InsertRow(rows, batch[0]), batch[1..]);
    }
  }

  /** Existing rows are kept as they are: a conflicting row never overwrites them. */
  lemma {:induction false} InsertAllKeepsRows(rows: seq<PriceHistoryEntry>, batch: seq<PriceHistoryEntry>)
    requires Ascending(rows)
    ensures forall x :: x in rows ==> x in InsertAll(rows, batch)
    ensures forall x :: x in InsertAll(rows, batch) ==> x in rows || x in batch
    decreases |batch|
  {
    if |batch| > 0 {
      InsertRowEffect(rows, batch[0]);
      InsertAllKeepsRows(InsertRow(rows, batch[0]), batch[1..]);
      assert batch == [batch[0]] + batch[1..];
    }
  }

  /** A batch whose keys are all present changes nothing. */
  lemma {:induction false} InsertAllPresent(rows: seq<PriceHistoryEntry>, batch: seq<PriceHistoryEntry>)
    requires Ascending(rows)
    requires BatchKeys(batch) <= Keys(rows)
    ensures InsertAll(rows, batch) == rows
    decreases |batch|
  {
    if |batch| > 0 {
      InsertRowEffect(rows, batch[0]);
      InsertAllPresent(rows, batch[1..]);
    }
  }

  /** Re-running the same batch is a no-op: the insert is idempotent. */
  lemma InsertAllIdempotent(rows: seq<PriceHistoryEntry>, batch: seq<PriceHistoryEntry>)
    requires Ascending(rows)
    ensures InsertAll(InsertAll(rows, batch), batch) == InsertAll(rows, batch)
  {
    InsertAllKeys(rows, batch);
    InsertAllPresent(InsertAll(rows, batch), batch);
  }

  /** In an ascending table every row has its own key. */
  lemma {:induction false} AscendingKeyCount(rows: seq<PriceHistoryEntry>)
    requires Ascending(rows)
    ensures |Keys(rows)| == |rows|
  {
    if |rows| > 0 {
      var tail := rows[1..];
      AscendingKeyCount(tail);
      assert rows == [rows[0]] + tail;
      assert Keys(rows) == {rows[0].deliveryStart} + Keys(tail);
      if |tail| > 0 {
        KeysAbove(tail);
      }
    }
  }

  /** The number of rows a batch adds is the number of its keys the table did not have yet. */
  lemma InsertAllCount(rows: seq<PriceHistoryEntry>, batch: seq<PriceHistoryEntry>)
    requires Ascending(rows)
    ensures |InsertAll(rows, batch)| == |rows| + |BatchKeys(batch) - Keys(rows)|
  {
    InsertAllKeys(rows, batch);
    AscendingKeyCount(rows);
    AscendingKeyCount(InsertAll(rows, batch));
    var old_ := Keys(rows);
    var added := BatchKeys(batch) - Keys(rows);
    assert Keys(InsertAll(rows, batch)) == old_ + added;
    assert old_ * added == {};
  }

  /** SELECT ... WHERE keep ORDER BY delivery_start over the table. */
  function Where(rows: seq<PriceHistoryEntry>, keep: PriceHistoryEntry -> bool): (r: seq<PriceHistoryEntry>)
    ensures |r| <= |rows|
    ensures forall x :: x in r <==> x in rows && keep(x)
    ensures Ascending(rows) ==> Ascending(r)
  {
    if |rows| == 0 then []
    else
      var tail := Where(rows[1..], keep);
      assert forall x :: x in rows <==> x == rows[0] || x in rows[1..];
      if keep(rows[0]) then
        assert Ascending(rows) ==> forall x :: x in tail ==> rows[0].deliveryStart < x.deliveryStart;
        [rows[0]] + tail
      else tail
  }

  // ---- The statement interface ----

  /** strings.Join / a separator-between-items StringBuilder loop. */
  function Join(parts: seq<string>, sep: string): string {
    if |parts| == 0 then ""
    else if |parts| == 1 then parts[0]
    else Join(parts[..|parts| - 1], sep) + sep + parts[|parts| - 1]
  }

  /** Number of occurrences of c in s. */
  function CountChar(s: string, c: char): nat {
    if |s| == 0 then 0 else CountChar(s[..|s| - 1], c) + (if s[|s| - 1] == c then 1 else 0)
  }

  lemma {:induction false} CountCharAbsent(s: string, c: char)
    requires c !in s
    ensures CountChar(s, c) == 0
  {
    if |s| > 0 {
      assert s[..|s| - 1] <= s;
      CountCharAbsent(s[..|s| - 1], c);
    }
  }

  lemma {:induction false} CountCharAppend(a: string, b: string, c: char)
    ensures CountChar(a + b, c) == CountChar(a, c) + CountChar(b, c)
    decreases |b|
  {
    if |b| == 0 {
      assert a + b == a;
    } else {
      assert (a + b)[..|a + b| - 1] == a + b[..|b| - 1];
      CountCharAppend(a, b[..|b| - 1], c);
    }
  }

  /** A bound statement parameter. */
  datatype SqlValue = Timestamp(t: int) | Numeric(v: real) | Null

  const StartColumn := "delivery_start"
  const EndColumn := "delivery_end"
  const PriceColumn := "price"

  function IndexOf(columns: seq<string>, name: string): (r: Option<nat>)
    ensures r.Some? ==> r.value < |columns| && columns[r.value] == name
    ensures r.None? ==> name !in columns
    ensures r.Some? ==> forall j :: 0 <= j < r.value ==> columns[j] != name
  {
    if |columns| == 0 then None
    else if columns[0] == name then Some(0)
    else match IndexOf(columns[1..], name)
      case None => None
      case Some(i) => Some(i + 1)
  }

  /** One VALUES tuple, read by the statement's column list. */
  function DecodeTuple(columns: seq<string>, vals: seq<SqlValue>): Result<PriceHistoryEntry, string>
    requires |vals| == |columns|
  {
    match (IndexOf(columns, StartColumn), IndexOf(columns, EndColumn), IndexOf(columns, PriceColumn))
    case (Some(s), Some(e), Some(p)) =>
      if vals[p].Null? then Err("null value in column \"price\" violates not-null constraint")
      else if !vals[s].Timestamp? || !vals[e].Timestamp? || !vals[p].Numeric? then Err("column type mismatch")
      else Ok(PriceHistoryEntry(vals[p].v, vals[s].t, vals[e].t))
    case _ => Err("missing column")
  }

  /** The rows a statement with `tuples` VALUES tuples and these bound parameters denotes. */
  function DecodeArgs(columns: seq<string>, tuples: nat, args: seq<SqlValue>): (r: Result<seq<PriceHistoryEntry>, string>)
    requires |columns| == 3
    ensures r.Ok? ==> |r.value| == tuples
    decreases tuples
  {
    if |args| != 3 * tuples then Err("wrong number of parameters")
    else if tuples == 0 then Ok([])
    else match DecodeTuple(columns, args[..3])
      case Err(e) => Err(e)
      case Ok(row) =>
        match DecodeArgs(columns, tuples - 1, args[3..])
        case Err(e) => Err(e)
        case Ok(rest) => Ok([row] + rest)
  }

  /** The table. Only the two repositories' statements touch it. */
  class PriceTable {
    var rows: seq<PriceHistoryEntry>

    ghost predicate Valid()
      reads this
    {
      Ascending(rows)
    }

    constructor ()
      ensures Valid() && rows == []
    {
      rows := [];
    }

    /**
     * INSERT INTO price_history (columns) VALUES <tuples> ON CONFLICT (delivery_start) DO NOTHING.
     * A statement with no tuples is a syntax error; a statement that fails changes nothing.
     */
    method ExecInsert(columns: seq<string>, tuples: nat, args: seq<SqlValue>) returns (r: Result<nat, string>)
      requires Valid() && |columns| == 3
      modifies this
      ensures Valid()
      ensures tuples == 0 ==> r.Err? && rows == old(rows)
      ensures tuples > 0 && DecodeArgs(columns, tuples, args).Err? ==> r.Err? && rows == old(rows)
      ensures tuples > 0 && DecodeArgs(columns, tuples, args).Ok? ==>
                rows == InsertAll(old(rows), DecodeArgs(columns, tuples, args).value)
                && r == Ok(|rows| - |old(rows)|)
    {
      if tuples == 0 {
        return Err("syntax error at or near \"ON\"");
      }
      var decoded := DecodeArgs(columns, tuples, args);
      if decoded.Err? {
        return Err(decoded.error);
      }
      var batch := decoded.value;
      var before := rows;
      var i := 0;
      while i < |batch|
        invariant 0 <= i <= |batch|
        invariant Ascending(rows)
        invariant InsertAll(rows, batch[i..]) == InsertAll(before, batch)
        invariant |rows| >= |before|
        decreases |batch| - i
      {
        assert batch[i..][1..] == batch[i + 1..];
        InsertRowGrows(rows, batch[i]);
        rows := InsertRow(rows, batch[i]);
        i := i + 1;
      }
      return Ok(|rows| - |before|);
    }

    /** SELECT price, delivery_start, delivery_end FROM price_history WHERE keep ORDER BY delivery_start */
    function Select(keep: PriceHistoryEntry -> bool): (r: seq<PriceHistoryEntry>)
      reads this
      requires Valid()
      ensures Ascending(r)
      ensures forall x :: x in r <==> x in rows && keep(x)
    {
      Where(rows, keep)
    }
  }

  lemma InsertRowGrows(rows: seq<PriceHistoryEntry>, e: PriceHistoryEntry)
    requires Ascending(rows)
    ensures |InsertRow(rows, e)| >= |rows|
  {
  }
}
