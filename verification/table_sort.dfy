/** The column sorter of the deployment-status dashboard: `sortTable(colIndex,
    type)` reorders the data rows of the page's table by one column and flips
    the table's `data-sort-desc` attribute. The document is replaced by a
    value: the table's rows (the first one is the header) and the attribute's
    text. */
module TableSort {
  import opened Text

  datatype Option<T> = None | Some(value: T)

  /** A row is the text of its cells, in column order. */
  type Row = seq<string>

  /** The three column types. `Date` carries the date parser (`new Date(text)`
      read as a millisecond timestamp); `None` stands for an invalid date. */
  datatype SortType = Str | Date(parse: string -> Option<int>) | Status

  /** All rows of the table, header first, and the `data-sort-desc` attribute
      (`None` when the attribute is absent). */
  datatype Table = Table(rows: seq<Row>, sortDesc: Option<string>)

  /** A call either rewrites the table, or throws because a comparison read a
      cell the row does not have; a throw leaves the table untouched. */
  datatype Outcome = Done(table: Table) | MissingCell

  // ---------------------------------------------------------------------
  // Rows and the direction flag
  // ---------------------------------------------------------------------

  /** Every row but the first: the header and the data rows make up the table. */
  function DataRows(t: Table): (data: seq<Row>)
    ensures t.rows == HeaderRows(t) + data
    ensures |data| == if |t.rows| == 0 then 0 else |t.rows| - 1
  {
    if |t.rows| == 0 then [] else t.rows[1..]
  }

  /** The header row, if the table has any row at all. */
  function HeaderRows(t: Table): (header: seq<Row>)
    ensures |header| <= 1
    ensures |t.rows| > 0 ==> header == [t.rows[0]]
  {
    if |t.rows| == 0 then [] else t.rows[..1]
  }

  /** The stored flag says descending only when the attribute is exactly
      `true`; an absent attribute or any other text reads as ascending. */
  function IsDescending(attr: Option<string>): (descending: bool)
    ensures attr.None? ==> !descending
    ensures attr.Some? && attr.value != "true" ==> !descending
    ensures attr.Some? && attr.value == "true" ==> descending
  {
    attr == Some("true")
  }

  /** How `setAttribute` renders a boolean; reading it back gives the same
      flag. */
  function FlagText(descending: bool): (text: string)
    ensures text == "true" || text == "false"
    ensures IsDescending(Some(text)) == descending
  {
    if descending then "true" else "false"
  }

  // ---------------------------------------------------------------------
  // The comparators
  // ---------------------------------------------------------------------

  /** The text of cell `col`. A row without that cell reads as empty text
      here; `SortTable` throws before any comparison could read it. */
  function Cell(r: Row, col: nat): string {
    if col < |r| then r[col] else ""
  }

  /** The fixed status ranking `{success: 1, fail: 0}` on lower-cased text;
      any other text has no rank. */
  function StatusRank(text: string): (rank: Option<int>)
    ensures rank.Some? <==> Lower(text) == "success" || Lower(text) == "fail"
    ensures rank.Some? ==> 0 <= rank.value <= 1
    ensures rank == Some(1) <==> Lower(text) == "success"
  {
    if Lower(text) == "success" then Some(1)
    else if Lower(text) == "fail" then Some(0)
    else None
  }

  /** The comparator picked by `kind`: its sign says whether `a` goes before
      (negative) or after (positive) `b`. `None` is a NaN result. */
  function Compare(kind: SortType, col: nat, a: Row, b: Row): (c: Option<int>)
    ensures kind.Str? ==> c.Some? && -1 <= c.value <= 1
    ensures kind.Str? ==> (c == Some(0) <==> Lower(Cell(a, col)) == Lower(Cell(b, col)))
    ensures kind.Date? ==> (c.None? <==> kind.parse(Cell(a, col)).None? || kind.parse(Cell(b, col)).None?)
    ensures kind.Status? ==> (c.None? <==> StatusRank(Cell(a, col)).None? || StatusRank(Cell(b, col)).None?)
    ensures kind.Status? && c.Some? ==> -1 <= c.value <= 1
  {
    match kind
    case Str => Some(LocaleCompare(Lower(Cell(a, col)), Lower(Cell(b, col))))
    case Date(parse) =>
      var pa := parse(Cell(a, col));
      var pb := parse(Cell(b, col));
      if pa.Some? && pb.Some? then Some(pa.value - pb.value) else None
    case Status =>
      var ra := StatusRank(Cell(a, col));
      var rb := StatusRank(Cell(b, col));
      if ra.Some? && rb.Some? then Some(rb.value - ra.value) else None
  }

  /** `a` may be placed before `b`: the comparator is not positive. A NaN
      result is not positive either, so it reads as a tie. */
  predicate Before(kind: SortType, col: nat, a: Row, b: Row) {
    match Compare(kind, col, a, b)
    case None => true
    case Some(c) => c <= 0
  }

  /** Swapping the rows negates the comparator, and a NaN stays NaN. */
  lemma CompareFlip(kind: SortType, col: nat, a: Row, b: Row)
    ensures Compare(kind, col, a, b).None? <==> Compare(kind, col, b, a).None?
    ensures Compare(kind, col, a, b).Some? ==> Compare(kind, col, b, a).value == -Compare(kind, col, a, b).value
  {
    if kind.Str? {
      LocaleCompareFlip(Lower(Cell(a, col)), Lower(Cell(b, col)));
    }
  }

  /** A NaN comparison lets either row go first. */
  lemma NaNIsTie(kind: SortType, col: nat, a: Row, b: Row)
    requires Compare(kind, col, a, b).None?
    ensures Before(kind, col, a, b) && Before(kind, col, b, a)
  {
    CompareFlip(kind, col, a, b);
  }

  /** `a` and `b` have the same sort key. */
  predicate SameKey(kind: SortType, col: nat, a: Row, b: Row) {
    Before(kind, col, a, b) && Before(kind, col, b, a)
  }

  /** The row has cell `col` and that cell converts under `kind`. */
  predicate WellFormedRow(kind: SortType, col: nat, r: Row) {
    col < |r| &&
    match kind
    case Str => true
    case Date(parse) => parse(r[col]).Some?
    case Status => StatusRank(r[col]).Some?
  }

  predicate WellFormed(kind: SortType, col: nat, rows: seq<Row>) {
    forall r | r in rows :: WellFormedRow(kind, col, r)
  }

  /** Rows that share a key are the same row. */
  predicate DistinctKeys(kind: SortType, col: nat, rows: seq<Row>) {
    forall a, b | a in rows && b in rows :: SameKey(kind, col, a, b) ==> a == b
  }

  /** Adjacent rows are in comparator order. */
  predicate Ordered(kind: SortType, col: nat, rows: seq<Row>) {
    forall i | 0 < i < |rows| :: Before(kind, col, rows[i - 1], rows[i])
  }

  lemma BeforeReflexive(kind: SortType, col: nat, a: Row)
    ensures Before(kind, col, a, a)
  {
  }

  /** Any two rows can be compared one way or the other. */
  lemma BeforeTotal(kind: SortType, col: nat, a: Row, b: Row)
    ensures Before(kind, col, a, b) || Before(kind, col, b, a)
  {
    if kind.Str? {
      LocaleCompareFlip(Lower(Cell(a, col)), Lower(Cell(b, col)));
    }
  }

  /** On well-formed rows the comparator order is transitive. */
  lemma BeforeTransitive(kind: SortType, col: nat, a: Row, b: Row, c: Row)
    requires WellFormedRow(kind, col, a) && WellFormedRow(kind, col, b) && WellFormedRow(kind, col, c)
    requires Before(kind, col, a, b) && Before(kind, col, b, c)
    ensures Before(kind, col, a, c)
  {
    if kind.Str? {
      LocaleCompareTransitive(Lower(a[col]), Lower(b[col]), Lower(c[col]));
    }
  }

  /** Cells that differ only in the case of their letters compare alike in
      the `string` order. */
  lemma StringIgnoresCase(col: nat, a: Row, a': Row, b: Row)
    requires col < |a| && col < |a'|
    requires SameUpToCase(a[col], a'[col])
    ensures Before(Str, col, a, b) == Before(Str, col, a', b)
    ensures Before(Str, col, b, a) == Before(Str, col, b, a')
  {
    LowerIgnoresCase(a[col], a'[col]);
  }

  // ---------------------------------------------------------------------
  // Sorting and reversing
  // ---------------------------------------------------------------------

  /** Places `x` into an ordered sequence, ahead of the first row it may
      precede. */
  function Insert(kind: SortType, col: nat, x: Row, s: seq<Row>): (r: seq<Row>)
    requires Ordered(kind, col, s)
    ensures multiset(r) == multiset(s) + multiset{x}
    ensures Ordered(kind, col, r)
    ensures r[0] == x || (|s| > 0 && r[0] == s[0])
  {
    if |s| == 0 then [x]
    else if Before(kind, col, x, s[0]) then [x] + s
    else
      BeforeTotal(kind, col, x, s[0]);
      assert s == [s[0]] + s[1..];
      [s[0]] + Insert(kind, col, x, s[1..])
  }

  /** The comparator-sorted data rows (what `rows.sort(...)` returns). */
  function SortRows(kind: SortType, col: nat, s: seq<Row>): (r: seq<Row>)
    ensures multiset(r) == multiset(s)
    ensures Ordered(kind, col, r)
  {
    if |s| == 0 then []
    else
      assert s == [s[0]] + s[1..];
      Insert(kind, col, s[0], SortRows(kind, col, s[1..]))
  }

  /** `Array.prototype.reverse`. */
  function Reverse<T>(s: seq<T>): (r: seq<T>)
    ensures |r| == |s|
    ensures forall i | 0 <= i < |s| :: r[i] == s[|s| - 1 - i]
    ensures multiset(r) == multiset(s)
  {
    if |s| == 0 then []
    else
      assert s == [s[0]] + s[1..];
      Reverse(s[1..]) + [s[0]]
  }

  lemma ReverseReverse<T>(s: seq<T>)
    ensures Reverse(Reverse(s)) == s
  {
  }

  // ---------------------------------------------------------------------
  // sortTable
  // ---------------------------------------------------------------------

  /** A comparison reads a missing cell: with two or more data rows every row
      is compared at least once, and one of them lacks cell `col`. */
  predicate ReadsMissingCell(col: nat, data: seq<Row>) {
    |data| >= 2 && exists r | r in data :: |r| <= col
  }

  /** One call of `sortTable(colIndex, type)`. */
  function SortTable(t: Table, col: nat, kind: SortType): (r: Outcome)
    ensures r.MissingCell? <==> ReadsMissingCell(col, DataRows(t))
    ensures r.Done? ==> HeaderRows(r.table) == HeaderRows(t) && |r.table.rows| == |t.rows|
    ensures r.Done? ==> multiset(DataRows(r.table)) == multiset(DataRows(t))
    ensures r.Done? ==> IsDescending(r.table.sortDesc) == !IsDescending(t.sortDesc)
    ensures r.Done? && WellFormed(kind, col, DataRows(t)) ==>
      Ordered(kind, col, if IsDescending(t.sortDesc) then Reverse(DataRows(r.table)) else DataRows(r.table))
  {
    var data := DataRows(t);
    if ReadsMissingCell(col, data) then MissingCell
    else
      var sorted := SortRows(kind, col, data);
      var descending := IsDescending(t.sortDesc);
      var body := if descending then Reverse(sorted) else sorted;
      ReverseReverse(sorted);
      var t' := Table(HeaderRows(t) + body, Some(FlagText(!descending)));
      assert DataRows(t') == body;
      Done(t')
  }
}
