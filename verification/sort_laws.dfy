/** What repeated and per-type calls of `sortTable` promise. */
module SortLaws {
  import opened Text
  import opened TableSort

  /** On well-formed rows, adjacent order extends to every pair. */
  lemma {:induction false} OrderedAllPairs(kind: SortType, col: nat, s: seq<Row>)
    requires WellFormed(kind, col, s) && Ordered(kind, col, s)
    ensures forall i, j | 0 <= i < j < |s| :: Before(kind, col, s[i], s[j])
  {
    if |s| > 1 {
      var tail := s[1..];
      assert WellFormed(kind, col, tail) by {
        forall r | r in tail ensures WellFormedRow(kind, col, r) {
          assert r in s;
        }
      }
      OrderedAllPairs(kind, col, tail);
      forall i, j | 0 <= i < j < |s| ensures Before(kind, col, s[i], s[j]) {
        if i == 0 && j > 1 {
          assert Before(kind, col, s[1], s[j]) by { assert tail[0] == s[1] && tail[j - 1] == s[j]; }
          BeforeTransitive(kind, col, s[0], s[1], s[j]);
        } else if i > 0 {
          assert tail[i - 1] == s[i] && tail[j - 1] == s[j];
        }
      }
    }
  }

  /** Rearranging rows keeps the same rows. */
  lemma SameRows(a: seq<Row>, b: seq<Row>)
    requires multiset(a) == multiset(b)
    ensures forall r :: r in a <==> r in b
  {
    forall r ensures r in a <==> r in b {
      assert r in a <==> r in multiset(a);
      assert r in b <==> r in multiset(b);
    }
  }

  /** Well-formedness and distinct keys are properties of the collection of
      rows, not of their order. */
  lemma SameRowsWellFormed(kind: SortType, col: nat, a: seq<Row>, b: seq<Row>)
    requires multiset(a) == multiset(b)
    requires WellFormed(kind, col, a)
    ensures WellFormed(kind, col, b)
  {
    SameRows(a, b);
  }

  lemma SameRowsDistinct(kind: SortType, col: nat, a: seq<Row>, b: seq<Row>)
    requires multiset(a) == multiset(b)
    requires DistinctKeys(kind, col, a)
    ensures DistinctKeys(kind, col, b)
  {
    SameRows(a, b);
  }

  /** Dropping the first row keeps a sequence well-formed, distinct-keyed and
      ordered. */
  lemma TailFacts(kind: SortType, col: nat, s: seq<Row>)
    requires |s| > 0
    ensures WellFormed(kind, col, s) ==> WellFormed(kind, col, s[1..])
    ensures DistinctKeys(kind, col, s) ==> DistinctKeys(kind, col, s[1..])
    ensures Ordered(kind, col, s) ==> Ordered(kind, col, s[1..])
  {
  }

  /** The first row of an ordered, well-formed sequence may precede each of
      its rows. */
  lemma FirstIsLeast(kind: SortType, col: nat, s: seq<Row>, x: Row)
    requires WellFormed(kind, col, s) && Ordered(kind, col, s)
    requires x in s
    ensures Before(kind, col, s[0], x)
  {
    OrderedAllPairs(kind, col, s);
    var k :| 0 <= k < |s| && s[k] == x;
    if k == 0 {
      BeforeReflexive(kind, col, x);
    }
  }

  /** Two ordered arrangements of the same distinct-keyed rows start with
      the same row. */
  lemma SameFirstRow(kind: SortType, col: nat, a: seq<Row>, b: seq<Row>)
    requires multiset(a) == multiset(b) && |a| > 0 && |b| > 0
    requires WellFormed(kind, col, a) && DistinctKeys(kind, col, a)
    requires Ordered(kind, col, a) && Ordered(kind, col, b)
    ensures a[0] == b[0]
  {
    SameRowsWellFormed(kind, col, a, b);
    assert a[0] in multiset(b) && b[0] in multiset(a);
    FirstIsLeast(kind, col, a, b[0]);
    FirstIsLeast(kind, col, b, a[0]);
    assert SameKey(kind, col, a[0], b[0]) && a[0] in a && b[0] in a;
  }

  /** Two arrangements of the same rows that start alike hold the same rows
      after the first. */
  lemma SameTails(a: seq<Row>, b: seq<Row>)
    requires multiset(a) == multiset(b) && |a| > 0 && |b| > 0 && a[0] == b[0]
    ensures multiset(a[1..]) == multiset(b[1..])
  {
    assert a == [a[0]] + a[1..] && b == [b[0]] + b[1..];
    assert multiset(a[1..]) == multiset(a) - multiset{a[0]};
    assert multiset(b[1..]) == multiset(b) - multiset{b[0]};
  }

  /** With distinct keys there is exactly one ordered arrangement of a
      collection of well-formed rows. */
  lemma {:induction false} OrderedUnique(kind: SortType, col: nat, a: seq<Row>, b: seq<Row>)
    requires multiset(a) == multiset(b)
    requires WellFormed(kind, col, a) && DistinctKeys(kind, col, a)
    requires Ordered(kind, col, a) && Ordered(kind, col, b)
    ensures a == b
  {
    assert |a| == |multiset(a)| == |multiset(b)| == |b|;
    if |a| > 0 {
      SameFirstRow(kind, col, a, b);
      SameTails(a, b);
      TailFacts(kind, col, a);
      TailFacts(kind, col, b);
      OrderedUnique(kind, col, a[1..], b[1..]);
    }
  }

  /** A descending flag gives exactly the reverse of what an ascending flag
      gives on the same rows; an absent or other attribute value is ascending. */
  lemma DescendingReverses(rows: seq<Row>, col: nat, kind: SortType, desc: Option<string>, asc: Option<string>)
    requires desc == Some("true") && asc != Some("true")
    ensures SortTable(Table(rows, desc), col, kind).Done? == SortTable(Table(rows, asc), col, kind).Done?
    ensures SortTable(Table(rows, desc), col, kind).Done? ==>
      DataRows(SortTable(Table(rows, desc), col, kind).table) == Reverse(DataRows(SortTable(Table(rows, asc), col, kind).table))
  {
  }

  /** The rows a successful call writes back make a later call throw
      exactly when the original rows would, whatever column it reads. */
  lemma NextCallThrowsAlike(t: Table, col: nat, kind: SortType, col': nat)
    requires SortTable(t, col, kind).Done?
    ensures ReadsMissingCell(col', DataRows(SortTable(t, col, kind).table)) == ReadsMissingCell(col', DataRows(t))
  {
    var data, data' := DataRows(t), DataRows(SortTable(t, col, kind).table);
    assert |data'| == |multiset(data')| == |multiset(data)| == |data|;
    SameRows(data, data');
  }

  /** Every call flips the flag whatever the column or type, so two calls
      that both find their cells restore the flag the table started with. */
  lemma TwoCallsRestoreFlag(t: Table, col: nat, kind: SortType, col': nat, kind': SortType)
    requires !ReadsMissingCell(col, DataRows(t)) && !ReadsMissingCell(col', DataRows(t))
    ensures SortTable(t, col, kind).Done?
    ensures SortTable(SortTable(t, col, kind).table, col', kind').Done?
    ensures IsDescending(SortTable(SortTable(t, col, kind).table, col', kind').table.sortDesc)
            == IsDescending(t.sortDesc)
  {
    NextCallThrowsAlike(t, col, kind, col');
  }

  /** A call that finds its cells writes the sorted rows, reversed when the
      flag read descending. */
  lemma CallWrites(t: Table, col: nat, kind: SortType)
    requires !ReadsMissingCell(col, DataRows(t))
    ensures SortTable(t, col, kind).Done?
    ensures DataRows(SortTable(t, col, kind).table) ==
      if IsDescending(t.sortDesc) then Reverse(SortRows(kind, col, DataRows(t)))
      else SortRows(kind, col, DataRows(t))
  {
  }

  /** With distinct keys and an ascending start, the first call sorts and the
      second call with the same arguments gives exactly the reverse. */
  lemma SecondCallReverses(t: Table, col: nat, kind: SortType)
    requires !IsDescending(t.sortDesc)
    requires WellFormed(kind, col, DataRows(t)) && DistinctKeys(kind, col, DataRows(t))
    ensures SortTable(t, col, kind).Done?
    ensures var t1 := SortTable(t, col, kind).table;
            && Ordered(kind, col, DataRows(t1))
            && SortTable(t1, col, kind).Done?
            && DataRows(SortTable(t1, col, kind).table) == Reverse(DataRows(t1))
  {
    var data := DataRows(t);
    forall r | r in data ensures col < |r| {
      assert WellFormedRow(kind, col, r);
    }
    CallWrites(t, col, kind);
    var t1 := SortTable(t, col, kind).table;
    var body1 := DataRows(t1);
    NextCallThrowsAlike(t, col, kind, col);
    CallWrites(t1, col, kind);
    SameRowsWellFormed(kind, col, data, body1);
    SameRowsDistinct(kind, col, data, body1);
    OrderedUnique(kind, col, body1, SortRows(kind, col, body1));
  }

  /** Each row's lower-cased cell text is not after the previous row's. */
  predicate TextNonDecreasing(col: nat, rows: seq<Row>) {
    && (forall r | r in rows :: col < |r|)
    && (forall i | 0 < i < |rows| :: LocaleCompare(Lower(rows[i - 1][col]), Lower(rows[i][col])) <= 0)
  }

  /** `string` columns, ascending flag: adjacent rows are non-decreasing by
      the lower-cased text of the cell. */
  lemma StringAscending(t: Table, col: nat)
    requires !IsDescending(t.sortDesc)
    requires forall r | r in DataRows(t) :: col < |r|
    ensures SortTable(t, col, Str).Done?
    ensures TextNonDecreasing(col, DataRows(SortTable(t, col, Str).table))
  {
    var data := DataRows(t);
    assert WellFormed(Str, col, data);
    var body := DataRows(SortTable(t, col, Str).table);
    assert Ordered(Str, col, body);
    SameRows(body, data);
    forall i | 0 < i < |body| ensures LocaleCompare(Lower(body[i - 1][col]), Lower(body[i][col])) <= 0 {
      assert body[i - 1] in body && body[i] in body;
      assert Before(Str, col, body[i - 1], body[i]);
    }
  }

  /** Each row's cell parses as a date no earlier than the previous row's. */
  predicate DatesNonDecreasing(parse: string -> Option<int>, col: nat, rows: seq<Row>) {
    && (forall r | r in rows :: col < |r| && parse(r[col]).Some?)
    && (forall i | 0 < i < |rows| :: parse(rows[i - 1][col]).value <= parse(rows[i][col]).value)
  }

  /** Comparator order on a `date` column is order by parsed date. */
  lemma OrderedDates(parse: string -> Option<int>, col: nat, s: seq<Row>)
    requires WellFormed(Date(parse), col, s)
    ensures Ordered(Date(parse), col, s) <==> DatesNonDecreasing(parse, col, s)
  {
    forall r | r in s ensures col < |r| && parse(r[col]).Some? {
      assert WellFormedRow(Date(parse), col, r);
    }
    if Ordered(Date(parse), col, s) {
      forall i | 0 < i < |s| ensures parse(s[i - 1][col]).value <= parse(s[i][col]).value {
        assert s[i - 1] in s && s[i] in s;
        assert Before(Date(parse), col, s[i - 1], s[i]);
      }
    }
    if DatesNonDecreasing(parse, col, s) {
      forall i | 0 < i < |s| ensures Before(Date(parse), col, s[i - 1], s[i]) {
        assert s[i - 1] in s && s[i] in s;
      }
    }
  }

  /** `date` columns, ascending flag: adjacent rows are non-decreasing by the
      parsed date of the cell. */
  lemma DateAscending(t: Table, col: nat, parse: string -> Option<int>)
    requires !IsDescending(t.sortDesc)
    requires WellFormed(Date(parse), col, DataRows(t))
    ensures SortTable(t, col, Date(parse)).Done?
    ensures DatesNonDecreasing(parse, col, DataRows(SortTable(t, col, Date(parse)).table))
  {
    var data := DataRows(t);
    forall r | r in data ensures col < |r| {
      assert WellFormedRow(Date(parse), col, r);
    }
    CallWrites(t, col, Date(parse));
    var body := SortRows(Date(parse), col, data);
    SameRowsWellFormed(Date(parse), col, data, body);
    OrderedDates(parse, col, body);
  }

  /** No row whose cell lower-cases to `second` comes before a row whose
      cell lower-cases to `first`. */
  predicate AllAhead(col: nat, rows: seq<Row>, first: string, second: string) {
    forall i, j | 0 <= i < j < |rows| && col < |rows[i]| && col < |rows[j]| ::
      !(Lower(rows[i][col]) == second && Lower(rows[j][col]) == first)
  }

  /** In comparator order of a `status` column, `success` rows lead. */
  lemma StatusOrderPutsSuccessFirst(col: nat, s: seq<Row>)
    requires WellFormed(Status, col, s) && Ordered(Status, col, s)
    ensures AllAhead(col, s, "success", "fail")
  {
    OrderedAllPairs(Status, col, s);
    forall i, j | 0 <= i < j < |s| && col < |s[i]| && col < |s[j]|
      ensures !(Lower(s[i][col]) == "fail" && Lower(s[j][col]) == "success")
    {
      assert Before(Status, col, s[i], s[j]);
    }
  }

  /** Reversing swaps which label leads. */
  lemma ReverseSwapsLead(col: nat, s: seq<Row>, first: string, second: string)
    requires AllAhead(col, s, first, second)
    ensures AllAhead(col, Reverse(s), second, first)
  {
  }

  /** `status` columns: in the comparator order every `success` row comes
      before every `fail` row, so with a descending flag every `fail` row
      comes first. */
  lemma SuccessBeforeFail(t: Table, col: nat)
    requires WellFormed(Status, col, DataRows(t))
    ensures SortTable(t, col, Status).Done?
    ensures var body := DataRows(SortTable(t, col, Status).table);
            if IsDescending(t.sortDesc) then AllAhead(col, body, "fail", "success")
            else AllAhead(col, body, "success", "fail")
  {
    var data := DataRows(t);
    forall r | r in data ensures col < |r| {
      assert WellFormedRow(Status, col, r);
    }
    var body := DataRows(SortTable(t, col, Status).table);
    if IsDescending(t.sortDesc) {
      var base := Reverse(body);
      assert Ordered(Status, col, base);
      SameRowsWellFormed(Status, col, data, base);
      StatusOrderPutsSuccessFirst(col, base);
      ReverseSwapsLead(col, base, "success", "fail");
      ReverseReverse(body);
    } else {
      SameRowsWellFormed(Status, col, data, body);
      StatusOrderPutsSuccessFirst(col, body);
    }
  }
}
