/**
 * The main window: the table widget, the input fields, and the three slots
 * that act on the database (`fill_table`, `add_dish`, `show_chart`).
 * Widgets the slots only read are fields holding their current text or
 * date; the table widget is an object whose rows the slots change in place.
 */
module Window {
  import opened Wrappers
  import opened Text
  import opened Dates
  import opened Store

  // ---------------------------------------------------------------------
  // The table widget

  /** A table cell: never set, or holding an item's text. */
  datatype Cell = Empty | Item(text: string)

  /** Name, calories, proteins, fats, carbs, date. */
  const ColumnCount := 6

  function EmptyRow(): (r: seq<Cell>)
    ensures |r| == ColumnCount && forall c :: 0 <= c < ColumnCount ==> r[c] == Empty
  {
    [Empty, Empty, Empty, Empty, Empty, Empty]
  }

  /** `removeRow(i)`: rows after i move up; an index outside the table does nothing. */
  function RemoveAt(rows: seq<seq<Cell>>, i: int): (r: seq<seq<Cell>>)
    ensures 0 <= i < |rows| ==> |r| == |rows| - 1 && r == rows[..i] + rows[i + 1..]
    ensures !(0 <= i < |rows|) ==> r == rows
  {
    if 0 <= i < |rows| then rows[..i] + rows[i + 1..] else rows
  }

  /** `insertRow(i)`: a row of empty cells before row i, or at the end for i = rowCount. */
  function InsertAt(rows: seq<seq<Cell>>, i: int): (r: seq<seq<Cell>>)
    ensures 0 <= i <= |rows| ==> r == rows[..i] + [EmptyRow()] + rows[i..]
    ensures !(0 <= i <= |rows|) ==> r == rows
  {
    if 0 <= i <= |rows| then rows[..i] + [EmptyRow()] + rows[i..] else rows
  }

  /** `setItem(r, c, item)`: replaces one cell; a cell outside the table is ignored. */
  function SetAt(rows: seq<seq<Cell>>, r: int, c: int, x: Cell): (res: seq<seq<Cell>>)
    ensures |res| == |rows|
    ensures forall i :: 0 <= i < |rows| && i != r ==> res[i] == rows[i]
    ensures 0 <= r < |rows| && 0 <= c < |rows[r]| ==> res[r] == rows[r][c := x]
    ensures !(0 <= r < |rows| && 0 <= c < |rows[r]|) ==> res == rows
  {
    if 0 <= r < |rows| && 0 <= c < |rows[r]| then rows[r := rows[r][c := x]] else rows
  }

  class Table {
    var rows: seq<seq<Cell>>

    /** A new QTableWidget with its six columns and no rows. */
    constructor()
      ensures rows == []
    {
      rows := [];
    }

    function RowCount(): int
      reads this
    {
      |rows|
    }

    method RemoveRow(i: int)
      modifies this
      ensures rows == RemoveAt(old(rows), i)
    {
      rows := RemoveAt(rows, i);
    }

    method InsertRow(i: int)
      modifies this
      ensures rows == InsertAt(old(rows), i)
    {
      rows := InsertAt(rows, i);
    }

    method SetItem(r: int, c: int, text: string)
      modifies this
      ensures rows == SetAt(old(rows), r, c, Item(text))
    {
      rows := SetAt(rows, r, c, Item(text));
    }
  }

  /** The row `fill_table` shows for a record: the numbers in decimal, the date as `DD.MM.YYYY`. */
  function RowOf(d: Dish): (r: seq<Cell>)
    ensures |r| == ColumnCount
  {
    [Item(d.name), Item(Str(d.calories)), Item(Str(d.proteins)), Item(Str(d.fats)), Item(Str(d.carbs)), Item(Display(d.date))]
  }

  /** The table's intended content: one row per record, in table order. */
  function Render(ds: seq<Dish>): (r: seq<seq<Cell>>)
    ensures |r| == |ds|
    ensures forall i :: 0 <= i < |ds| ==> r[i] == RowOf(ds[i])
  {
    seq(|ds|, i requires 0 <= i < |ds| => RowOf(ds[i]))
  }

  /** Rendering record by record: one more record is one more row. */
  lemma RenderSnoc(ds: seq<Dish>, d: Dish)
    ensures Render(ds + [d]) == Render(ds) + [RowOf(d)]
  {
  }

  /** `int()` applied to a cell's text; an empty cell has none. */
  function CellNumber(c: Cell): Option<int>
  {
    match c
    case Empty => None
    case Item(text) => ParseInt(text)
  }

  /** The name and numbers a row shows can be read back, the numbers with `int()`. */
  lemma RowReadsBack(d: Dish)
    ensures RowOf(d)[0] == Item(d.name)
    ensures CellNumber(RowOf(d)[1]) == Some(d.calories) && CellNumber(RowOf(d)[2]) == Some(d.proteins)
    ensures CellNumber(RowOf(d)[3]) == Some(d.fats) && CellNumber(RowOf(d)[4]) == Some(d.carbs)
  {
    var r := RowOf(d);
    assert r[1] == Item(Str(d.calories)) && r[2] == Item(Str(d.proteins));
    assert r[3] == Item(Str(d.fats)) && r[4] == Item(Str(d.carbs));
    ParseIntStr(d.calories);
    ParseIntStr(d.proteins);
    ParseIntStr(d.fats);
    ParseIntStr(d.carbs);
  }

  /** The date column of a row holding an eight-character stored date can be read back from its dots. */
  lemma RowDateReadsBack(d: Dish)
    requires |d.date| == 8
    ensures FromDisplay(RowOf(d)[5].text) == d.date
  {
    DisplayEight(d.date);
  }

  /** Setting the six cells of a new last row, in column order, gives the record's row. */
  lemma FilledRow(done: seq<seq<Cell>>, d: Dish)
    ensures
      var n := |done|;
      var t0 := done + [EmptyRow()];
      var t1 := SetAt(t0, n, 0, Item(d.name));
      var t2 := SetAt(t1, n, 1, Item(Str(d.calories)));
      var t3 := SetAt(t2, n, 2, Item(Str(d.proteins)));
      var t4 := SetAt(t3, n, 3, Item(Str(d.fats)));
      var t5 := SetAt(t4, n, 4, Item(Str(d.carbs)));
      SetAt(t5, n, 5, Item(Display(d.date))) == done + [RowOf(d)]
  {
    var n := |done|;
    var t0 := done + [EmptyRow()];
    var t1 := SetAt(t0, n, 0, Item(d.name));
    var t2 := SetAt(t1, n, 1, Item(Str(d.calories)));
    var t3 := SetAt(t2, n, 2, Item(Str(d.proteins)));
    var t4 := SetAt(t3, n, 3, Item(Str(d.fats)));
    var t5 := SetAt(t4, n, 4, Item(Str(d.carbs)));
    var t6 := SetAt(t5, n, 5, Item(Display(d.date)));
    assert t6[n] == RowOf(d);
    assert t6 == done + [RowOf(d)];
  }

  // ---------------------------------------------------------------------
  // Reading the input fields

  datatype Field = Name | Calories | Proteins | Fats | Carbs

  /** Why `add_dish` stops before inserting. */
  datatype Rejection =
    | MissingField          // a field is empty: the warning box is shown
    | InvalidNumber(field: Field)  // `int()` raises ValueError on this field

  datatype Entry = Entry(name: string, calories: int, proteins: int, fats: int, carbs: int, date: string)

  /**
   * The first half of `add_dish`: every field must be non-empty, then the
   * four numbers go through `int()` in the order the INSERT's parameters
   * are built.
   */
  function ReadEntry(name: string, calories: string, proteins: string, fats: string, carbs: string, date: string)
    : (r: Result<Entry, Rejection>)
    ensures r == Failure(MissingField) <==> name == [] || calories == [] || proteins == [] || fats == [] || carbs == [] || date == []
    ensures r.Success? <==> (name != [] && date != []
      && ParseInt(calories).Some? && ParseInt(proteins).Some? && ParseInt(fats).Some? && ParseInt(carbs).Some?)
    ensures r.Success? ==> r.value == Entry(name, ParseInt(calories).value, ParseInt(proteins).value,
      ParseInt(fats).value, ParseInt(carbs).value, date)
    ensures r == Failure(InvalidNumber(Calories)) <==> r != Failure(MissingField) && ParseInt(calories).None?
    ensures r == Failure(InvalidNumber(Proteins)) <==> r != Failure(MissingField) && ParseInt(calories).Some? && ParseInt(proteins).None?
    ensures r == Failure(InvalidNumber(Fats)) <==> r != Failure(MissingField) && ParseInt(calories).Some? && ParseInt(proteins).Some? && ParseInt(fats).None?
    ensures r == Failure(InvalidNumber(Carbs)) <==> r != Failure(MissingField) && ParseInt(calories).Some? && ParseInt(proteins).Some? && ParseInt(fats).Some? && ParseInt(carbs).None?
  {
    if name == [] || calories == [] || proteins == [] || fats == [] || carbs == [] || date == [] then
      Failure(MissingField)
    else
      match (ParseInt(calories), ParseInt(proteins), ParseInt(fats), ParseInt(carbs))
      case (None, _, _, _) => Failure(InvalidNumber(Calories))
      case (Some(_), None, _, _) => Failure(InvalidNumber(Proteins))
      case (Some(_), Some(_), None, _) => Failure(InvalidNumber(Fats))
      case (Some(_), Some(_), Some(_), None) => Failure(InvalidNumber(Carbs))
      case (Some(c), Some(p), Some(f), Some(k)) => Success(Entry(name, c, p, f, k, date))
  }

  /** Fields holding a name, the decimal text of four numbers and a date are read back as exactly those values. */
  lemma ReadEntryRoundTrip(e: Entry)
    requires e.name != [] && e.date != []
    ensures ReadEntry(e.name, Str(e.calories), Str(e.proteins), Str(e.fats), Str(e.carbs), e.date) == Success(e)
  {
    ParseIntStr(e.calories);
    ParseIntStr(e.proteins);
    ParseIntStr(e.fats);
    ParseIntStr(e.carbs);
  }

  /** The date field never counts as empty: a widget date always has its eight characters. */
  lemma DateNeverMissing(name: string, calories: string, proteins: string, fats: string, carbs: string, d: Date)
    requires ValidDate(d)
    ensures ReadEntry(name, calories, proteins, fats, carbs, Compact(d)) == Failure(MissingField)
      <==> name == [] || calories == [] || proteins == [] || fats == [] || carbs == []
  {
  }

  /** How one press of the add button ends. */
  datatype AddOutcome =
    | Added(id: int)
    | Warned                     // the "fill in all fields" box
    | BadNumber(field: Field)    // ValueError from int()
    | StorageError(error: InsertResult)  // the INSERT raised

  /** The outcome `add_dish` reaches, from the fields and the database state. */
  function AddOutcomeOf(read: Result<Entry, Rejection>, tableExists: bool, lastId: int): (r: AddOutcome)
    ensures r.Added? <==> read.Success? && InsertOutcome(tableExists, lastId, read.value.calories, read.value.proteins,
      read.value.fats, read.value.carbs).Inserted?
    ensures r == Warned <==> read == Failure(MissingField)
    ensures forall f :: r == BadNumber(f) <==> read == Failure(InvalidNumber(f))
    ensures r.Added? ==> r.id == lastId + 1
  {
    match read
    case Failure(MissingField) => Warned
    case Failure(InvalidNumber(f)) => BadNumber(f)
    case Success(e) =>
      match InsertOutcome(tableExists, lastId, e.calories, e.proteins, e.fats, e.carbs)
      case Inserted(id) => Added(id)
      case other => StorageError(other)
  }

  // ---------------------------------------------------------------------
  // The chart's data

  function Names(ds: seq<Dish>): (r: seq<string>)
    ensures |r| == |ds| && forall i :: 0 <= i < |ds| ==> r[i] == ds[i].name
  {
    seq(|ds|, i requires 0 <= i < |ds| => ds[i].name)
  }

  function CaloriesOf(ds: seq<Dish>): (r: seq<int>)
    ensures |r| == |ds| && forall i :: 0 <= i < |ds| ==> r[i] == ds[i].calories
  {
    seq(|ds|, i requires 0 <= i < |ds| => ds[i].calories)
  }

  /** A record whose date was stored by the program: the `yyyyMMdd` text of a widget date. */
  predicate DatedBy(d: Dish, x: Date)
  {
    ValidDate(x) && d.date == Compact(x)
  }

  /**
   * For records stored by the program, the chart's query selects exactly
   * those dated from the first chosen date to the second, both included.
   */
  lemma ChartPeriod(ds: seq<Dish>, from: Date, to: Date, d: Dish, x: Date)
    requires ValidDate(from) && ValidDate(to) && DatedBy(d, x)
    ensures d in ChartQuery(ds, Compact(from), Compact(to)) <==> d in ds && NotLater(from, x) && NotLater(x, to)
  {
    CompactCanonical(from);
    CompactCanonical(to);
    SelectPeriodMembers(ds, Compact(from), Compact(to), d);
    CompactOrder(x, to);
    CompactOrder(from, x);
  }

  /** With the start of the period after its end the chart is empty. */
  lemma ReversedPeriodIsEmpty(ds: seq<Dish>, from: Date, to: Date)
    requires ValidDate(from) && ValidDate(to) && Earlier(to, from)
    ensures ChartQuery(ds, Compact(from), Compact(to)) == []
  {
    CompactCanonical(from);
    CompactCanonical(to);
    CompactOrder(to, from);
    EmptyPeriod(ds, Compact(from), Compact(to));
  }

  // ---------------------------------------------------------------------
  // The window

  class MainWindow {
    const db: Database
    const table: Table
    var nameText: string
    var caloriesText: string
    var proteinsText: string
    var fatsText: string
    var carbsText: string
    var dateInput: Date
    var dateFrom: Date
    var dateTo: Date

    /** The table widget always shows the database's rows, and every date widget holds a date it accepts. */
    ghost predicate Valid()
      reads this, db, table
    {
      db.Valid() && db.tableExists && table.rows == Render(db.dishes)
      && ValidDate(dateInput) && ValidDate(dateFrom) && ValidDate(dateTo)
    }

    /**
     * `__init__`: the input date and the end of the period start at today,
     * the start of the period at the widget's default; then `create_db` and
     * `fill_table` run on the opened file.
     */
    constructor(file: Database, today: Date)
      requires file.Valid() && ValidDate(today)
      modifies file
      ensures Valid() && db == file && fresh(table)
      ensures db.dishes == old(file.dishes) && db.lastId == old(file.lastId)
      ensures nameText == [] && caloriesText == [] && proteinsText == [] && fatsText == [] && carbsText == []
      ensures dateInput == today && dateTo == today && dateFrom == DefaultEditDate
    {
      db := file;
      table := new Table();
      nameText, caloriesText, proteinsText, fatsText, carbsText := [], [], [], [], [];
      dateInput, dateFrom, dateTo := today, DefaultEditDate, today;
      new;
      db.CreateDb();
      FillTable();
    }

    /**
     * `fill_table`: removes the rows from the last index down to 0, then
     * appends one row per record and fills its six cells.
     */
    method FillTable()
      requires db.Valid() && db.tableExists
      modifies table
      ensures table.rows == Render(db.dishes)
    {
      var rowPosition := table.RowCount();
      ghost var before := table.rows;
      while rowPosition >= 0
        invariant -1 <= rowPosition <= |before|
        invariant table.rows == before[..if rowPosition < |before| then rowPosition + 1 else |before|]
        decreases rowPosition + 1
      {
        table.RemoveRow(rowPosition);
        rowPosition := rowPosition - 1;
      }
      var foodData := db.dishes;
      for i := 0 to |foodData|
        invariant table.rows == Render(foodData[..i])
      {
        AppendRow(foodData[i]);
        assert foodData[..i + 1] == foodData[..i] + [foodData[i]];
        RenderSnoc(foodData[..i], foodData[i]);
      }
      assert foodData[..|foodData|] == foodData;
    }

    /** The body of `fill_table`'s second loop: a new last row, then its six cells in column order. */
    method AppendRow(d: Dish)
      modifies table
      ensures table.rows == old(table.rows) + [RowOf(d)]
    {
      ghost var done := table.rows;
      var rowPosition := table.RowCount();
      table.InsertRow(rowPosition);
      table.SetItem(rowPosition, 0, d.name);
      table.SetItem(rowPosition, 1, Str(d.calories));
      table.SetItem(rowPosition, 2, Str(d.proteins));
      table.SetItem(rowPosition, 3, Str(d.fats));
      table.SetItem(rowPosition, 4, Str(d.carbs));
      table.SetItem(rowPosition, 5, Display(d.date));
      FilledRow(done, d);
    }

    /** What the input fields hold, read as `add_dish` reads them. */
    function Pending(): Result<Entry, Rejection>
      reads this
      requires ValidDate(dateInput)
    {
      ReadEntry(nameText, caloriesText, proteinsText, fatsText, carbsText, Compact(dateInput))
    }

    /**
     * `add_dish`: reads the fields, warns and stops when one is empty, stops
     * when `int()` raises, runs the INSERT, and on success refreshes the
     * table and empties the text fields.  Whenever it stops early nothing
     * has changed.
     */
    method AddDish() returns (outcome: AddOutcome)
      requires Valid()
      modifies this, db, table
      ensures Valid()
      ensures outcome == AddOutcomeOf(old(Pending()), old(db.tableExists), old(db.lastId))
      ensures dateInput == old(dateInput) && dateFrom == old(dateFrom) && dateTo == old(dateTo)
      ensures outcome.Added? ==>
        var e := old(Pending()).value;
        db.dishes == old(db.dishes) + [Dish(outcome.id, e.name, e.calories, e.proteins, e.fats, e.carbs, e.date)]
        && db.lastId == outcome.id
        && nameText == [] && caloriesText == [] && proteinsText == [] && fatsText == [] && carbsText == []
      ensures !outcome.Added? ==>
        db.dishes == old(db.dishes) && db.lastId == old(db.lastId) && table.rows == old(table.rows)
        && nameText == old(nameText) && caloriesText == old(caloriesText) && proteinsText == old(proteinsText)
        && fatsText == old(fatsText) && carbsText == old(carbsText)
    {
      var read := Pending();
      if read.Failure? {
        outcome := AddOutcomeOf(read, db.tableExists, db.lastId);
        return;
      }
      var r := Commit(read.value);
      outcome := if r.Inserted? then Added(r.id) else StorageError(r);
    }

    /**
     * The second half of `add_dish`, for fields that were read successfully:
     * the INSERT, then on success `fill_table` and emptying the text fields.
     */
    method Commit(e: Entry) returns (r: InsertResult)
      requires Valid()
      modifies this, db, table
      ensures Valid()
      ensures r == InsertOutcome(old(db.tableExists), old(db.lastId), e.calories, e.proteins, e.fats, e.carbs)
      ensures dateInput == old(dateInput) && dateFrom == old(dateFrom) && dateTo == old(dateTo)
      ensures r.Inserted? ==>
        db.dishes == old(db.dishes) + [Dish(r.id, e.name, e.calories, e.proteins, e.fats, e.carbs, e.date)]
        && db.lastId == r.id
        && nameText == [] && caloriesText == [] && proteinsText == [] && fatsText == [] && carbsText == []
      ensures !r.Inserted? ==>
        db.dishes == old(db.dishes) && db.lastId == old(db.lastId) && table.rows == old(table.rows)
        && nameText == old(nameText) && caloriesText == old(caloriesText) && proteinsText == old(proteinsText)
        && fatsText == old(fatsText) && carbsText == old(carbsText)
    {
      r := db.Insert(e.name, e.calories, e.proteins, e.fats, e.carbs, e.date);
      if r.Inserted? {
        FillTable();
        nameText, caloriesText, proteinsText, fatsText, carbsText := [], [], [], [], [];
      }
    }

    /**
     * The data `show_chart` plots: the names and calories of the records
     * the range query returns, in the order it returns them.
     */
    method ShowChart() returns (names: seq<string>, calories: seq<int>)
      requires Valid()
      ensures names == Names(ChartQuery(db.dishes, Compact(dateFrom), Compact(dateTo)))
      ensures calories == CaloriesOf(ChartQuery(db.dishes, Compact(dateFrom), Compact(dateTo)))
    {
      var from, to := Compact(dateFrom), Compact(dateTo);
      var foodData := ChartQuery(db.dishes, from, to);
      names, calories := Columns(foodData);
    }
  }

  /** The loop of `show_chart` over the fetched rows: one name and one calorie count per row. */
  method Columns(foodData: seq<Dish>) returns (names: seq<string>, calories: seq<int>)
    ensures names == Names(foodData) && calories == CaloriesOf(foodData)
  {
    names, calories := [], [];
    for i := 0 to |foodData|
      invariant names == Names(foodData[..i])
      invariant calories == CaloriesOf(foodData[..i])
    {
      names := names + [foodData[i].name];
      calories := calories + [foodData[i].calories];
    }
    assert foodData[..|foodData|] == foodData;
  }

  // ---------------------------------------------------------------------
  // An example

  /**
   * One dish on 2024-01-01 and one on 2024-01-05: the chart for 2024-01-01
   * to 2024-01-03 shows the first one only.
   */
  lemma ChartOfTwo(d1: Dish, d2: Dish, first: Date, second: Date, last: Date)
    requires first == Date(2024, 1, 1) && second == Date(2024, 1, 5) && last == Date(2024, 1, 3)
    requires DatedBy(d1, first) && DatedBy(d2, second)
    ensures ChartQuery([d1, d2], Compact(first), Compact(last)) == [d1]
  {
    var ds := [d1, d2];
    assert ValidDate(last);
    ChartPeriod(ds, first, last, d1, first);
    ChartPeriod(ds, first, last, d2, second);
    var lo, hi := Compact(first), Compact(last);
    DateBoundIsLiteral(lo);
    DateBoundIsLiteral(hi);
    KeepFirstOfTwo(d1, d2, BoundText(lo), BoundText(hi));
  }

  lemma KeepFirstOfTwo(d1: Dish, d2: Dish, lo: string, hi: string)
    requires d1 in SelectPeriod([d1, d2], lo, hi) && d2 !in SelectPeriod([d1, d2], lo, hi)
    ensures SelectPeriod([d1, d2], lo, hi) == [d1]
  {
    var ds := [d1, d2];
    assert ds[1..] == [d2] && ds[1..][1..] == [];
    SelectPeriodMembers(ds, lo, hi, d1);
    SelectPeriodMembers(ds, lo, hi, d2);
  }
}
