/**
 * The `food.db` database as the program uses it: the `dishes` table that
 * `create_db` makes, the INSERT of `add_dish`, the full SELECT of
 * `fill_table` and the date-range SELECT of `show_chart`.  Rows come back in
 * the order they were inserted (rowid order).
 */
module Store {
  import opened Text

  const MinInt64 := -0x8000_0000_0000_0000
  const MaxInt64 := 0x7FFF_FFFF_FFFF_FFFF

  predicate IsInt64(n: int)
  {
    MinInt64 <= n <= MaxInt64
  }

  /** A row of `dishes`; `date` is text (the column is declared varchar). */
  datatype Dish = Dish(id: int, name: string, calories: int, proteins: int, fats: int, carbs: int, date: string)

  predicate Int64Fields(d: Dish)
  {
    IsInt64(d.calories) && IsInt64(d.proteins) && IsInt64(d.fats) && IsInt64(d.carbs)
  }

  /** What one `cur.execute(INSERT ...)` does. */
  datatype InsertResult =
    | Inserted(id: int)
    | NoSuchTable  // sqlite3.OperationalError: the table is missing
    | Overflow     // OverflowError: an int does not fit SQLite's 64-bit INTEGER
    | Full         // sqlite3.OperationalError: AUTOINCREMENT has used up the largest rowid

  /** Rowids strictly increase along the table and never exceed the last one handed out. */
  predicate WellOrdered(ds: seq<Dish>, lastId: int)
  {
    (forall i, j :: 0 <= i < j < |ds| ==> ds[i].id < ds[j].id)
    && (forall i :: 0 <= i < |ds| ==> 1 <= ds[i].id <= lastId)
  }

  class Database {
    /** Whether the `dishes` table exists. */
    var tableExists: bool
    /** The rows of `dishes`, in rowid order. */
    var dishes: seq<Dish>
    /** The largest rowid AUTOINCREMENT has handed out (its `sqlite_sequence` entry, 0 when none). */
    var lastId: int

    ghost predicate Valid()
      reads this
    {
      0 <= lastId <= MaxInt64 && WellOrdered(dishes, lastId)
      && (forall i :: 0 <= i < |dishes| ==> Int64Fields(dishes[i]))
      && (!tableExists ==> dishes == [] && lastId == 0)
    }

    /** A file that does not exist yet: `sqlite3.connect` creates it empty. */
    constructor NewFile()
      ensures Valid() && !tableExists && dishes == [] && lastId == 0
    {
      tableExists, dishes, lastId := false, [], 0;
    }

    /** A file from an earlier run, holding a `dishes` table. */
    constructor Existing(rows: seq<Dish>, last: int)
      requires 0 <= last <= MaxInt64 && WellOrdered(rows, last)
      requires forall i :: 0 <= i < |rows| ==> Int64Fields(rows[i])
      ensures Valid() && tableExists && dishes == rows && lastId == last
    {
      tableExists, dishes, lastId := true, rows, last;
    }

    /** `create_db`: CREATE TABLE IF NOT EXISTS, so an existing table and its rows are kept. */
    method CreateDb()
      requires Valid()
      modifies this
      ensures Valid() && tableExists
      ensures dishes == old(dishes) && lastId == old(lastId)
    {
      tableExists := true;
    }

    /**
     * The INSERT of `add_dish`: the table must exist, the integers must fit
     * 64 bits, and AUTOINCREMENT gives the new row the rowid after the
     * largest ever used.  On any failure nothing changes.
     */
    method Insert(name: string, calories: int, proteins: int, fats: int, carbs: int, date: string)
      returns (r: InsertResult)
      requires Valid()
      modifies this
      ensures Valid() && tableExists == old(tableExists)
      ensures r == InsertOutcome(old(tableExists), old(lastId), calories, proteins, fats, carbs)
      ensures r.Inserted? ==> lastId == r.id && dishes == old(dishes) + [Dish(r.id, name, calories, proteins, fats, carbs, date)]
      ensures !r.Inserted? ==> dishes == old(dishes) && lastId == old(lastId)
    {
      r := InsertOutcome(tableExists, lastId, calories, proteins, fats, carbs);
      if r.Inserted? {
        dishes := dishes + [Dish(r.id, name, calories, proteins, fats, carbs, date)];
        lastId := r.id;
      }
    }
  }

  /**
   * The outcome of the INSERT: the statement is prepared first (a missing
   * table fails there), then the parameters are bound (an int outside 64
   * bits fails there), then the row is given its rowid.
   */
  function InsertOutcome(tableExists: bool, lastId: int, calories: int, proteins: int, fats: int, carbs: int): (r: InsertResult)
    ensures r.Inserted? <==> tableExists && IsInt64(calories) && IsInt64(proteins) && IsInt64(fats) && IsInt64(carbs) && lastId < MaxInt64
    ensures r.Inserted? ==> r.id == lastId + 1
    ensures r == NoSuchTable <==> !tableExists
    ensures r == Overflow <==> tableExists && !(IsInt64(calories) && IsInt64(proteins) && IsInt64(fats) && IsInt64(carbs))
  {
    if !tableExists then NoSuchTable
    else if !(IsInt64(calories) && IsInt64(proteins) && IsInt64(fats) && IsInt64(carbs)) then Overflow
    else if lastId >= MaxInt64 then Full
    else Inserted(lastId + 1)
  }

  /** Running `create_db` again changes nothing. */
  method CreateDbTwice(db: Database)
    requires db.Valid()
    modifies db
    ensures db.Valid() && db.tableExists
    ensures db.dishes == old(db.dishes) && db.lastId == old(db.lastId)
  {
    db.CreateDb();
    ghost var once := db.dishes;
    db.CreateDb();
    assert db.dishes == once;
  }

  // ---------------------------------------------------------------------
  // `WHERE date <= <to> AND date >= <from>`

  /**
   * The bounds are spliced into the SQL as bare numbers.  Compared with the
   * text column they are turned into the text of their integer value: the
   * digits with their leading zeros dropped (BoundTextIsNumber).
   */
  function BoundText(digits: string): string
    requires IntegerLiteral(digits)
    decreases |digits|
  {
    if |digits| > 1 && digits[0] == '0' then
      LeadingZeroValue(digits);
      BoundText(digits[1..])
    else digits
  }

  /**
   * A digit text SQLite reads as an integer literal: at least one digit and a
   * value within 64 bits.  An empty bound is a syntax error and a larger one
   * is read as a REAL; neither is modelled.
   */
  predicate IntegerLiteral(digits: string)
  {
    AllDigits(digits) && |digits| > 0 && DigitsValue(digits) <= MaxInt64
  }

  /** An eight-digit `yyyyMMdd` text is read as an integer literal. */
  lemma DateBoundIsLiteral(digits: string)
    requires AllDigits(digits) && |digits| == 8
    ensures IntegerLiteral(digits)
  {
    DigitsValueBelow(digits);
  }

  /** The bound's text is the decimal text of the number the digits spell. */
  lemma {:induction false} BoundTextIsNumber(digits: string)
    requires IntegerLiteral(digits)
    ensures BoundText(digits) == NatStr(DigitsValue(digits))
    decreases |digits|
  {
    if |digits| > 1 && digits[0] == '0' {
      LeadingZeroValue(digits);
      BoundTextIsNumber(digits[1..]);
    } else {
      CanonicalRoundTrip(digits);
    }
  }

  /** A row is selected when its date text lies between the bounds' texts, compared character by character. */
  predicate InPeriod(d: Dish, lo: string, hi: string)
  {
    StrLe(d.date, hi) && StrLe(lo, d.date)
  }

  /** The rows the range query returns, in table order. */
  function SelectPeriod(ds: seq<Dish>, lo: string, hi: string): (r: seq<Dish>)
    ensures |r| <= |ds|
    decreases |ds|
  {
    if ds == [] then []
    else (if InPeriod(ds[0], lo, hi) then [ds[0]] else []) + SelectPeriod(ds[1..], lo, hi)
  }

  /** The query `show_chart` sends, for its two `yyyyMMdd` texts. */
  function ChartQuery(ds: seq<Dish>, dateFrom: string, dateTo: string): seq<Dish>
    requires AllDigits(dateFrom) && AllDigits(dateTo) && |dateFrom| == 8 && |dateTo| == 8
  {
    DateBoundIsLiteral(dateFrom);
    DateBoundIsLiteral(dateTo);
    SelectPeriod(ds, BoundText(dateFrom), BoundText(dateTo))
  }

  /** A row is returned exactly when it is in the table and its date is in the period. */
  lemma {:induction false} SelectPeriodMembers(ds: seq<Dish>, lo: string, hi: string, d: Dish)
    ensures d in SelectPeriod(ds, lo, hi) <==> d in ds && InPeriod(d, lo, hi)
    decreases |ds|
  {
    if ds != [] {
      SelectPeriodMembers(ds[1..], lo, hi, d);
      assert ds == [ds[0]] + ds[1..];
    }
  }

  /** Every matching row comes back as many times as it is stored: duplicates are kept. */
  lemma {:induction false} SelectPeriodCounts(ds: seq<Dish>, lo: string, hi: string, d: Dish)
    ensures multiset(SelectPeriod(ds, lo, hi))[d] == if InPeriod(d, lo, hi) then multiset(ds)[d] else 0
    decreases |ds|
  {
    if ds != [] {
      SelectPeriodCounts(ds[1..], lo, hi, d);
      assert ds == [ds[0]] + ds[1..];
    }
  }

  /** Rows come back in table order: each result is a subsequence of the table. */
  lemma {:induction false} SelectPeriodKeepsOrder(ds: seq<Dish>, lo: string, hi: string)
    requires forall i, j :: 0 <= i < j < |ds| ==> ds[i].id < ds[j].id
    ensures var r := SelectPeriod(ds, lo, hi); forall i, j :: 0 <= i < j < |r| ==> r[i].id < r[j].id
    decreases |ds|
  {
    if ds != [] {
      SelectPeriodKeepsOrder(ds[1..], lo, hi);
      var rest := SelectPeriod(ds[1..], lo, hi);
      forall k | 0 <= k < |rest|
        ensures ds[0].id < rest[k].id
      {
        SelectPeriodMembers(ds[1..], lo, hi, rest[k]);
        var j :| 0 <= j < |ds[1..]| && ds[1..][j] == rest[k];
        assert ds[j + 1] == rest[k];
      }
    }
  }

  /** With the upper bound before the lower one nothing is returned. */
  lemma EmptyPeriod(ds: seq<Dish>, lo: string, hi: string)
    requires StrLess(hi, lo)
    ensures SelectPeriod(ds, lo, hi) == []
  {
    forall d | d in ds
      ensures !InPeriod(d, lo, hi)
    {
      if StrLe(d.date, hi) && StrLe(lo, d.date) {
        StrLeTransitive(lo, d.date, hi);
        StrLeTotalOrder(hi, lo);
      }
    }
    if SelectPeriod(ds, lo, hi) != [] {
      var d := SelectPeriod(ds, lo, hi)[0];
      SelectPeriodMembers(ds, lo, hi, d);
    }
  }

  /** With equal bounds exactly the rows of that one date are returned. */
  lemma OneDayPeriod(ds: seq<Dish>, day: string, d: Dish)
    ensures d in SelectPeriod(ds, day, day) <==> d in ds && d.date == day
  {
    SelectPeriodMembers(ds, day, day, d);
    StrLeTotalOrder(d.date, day);
  }
}
