/** The datagrid's selected and checked rows, kept by id across pages, and the highlights of the rows
    that are shown. */
module Selections {
  import opened Wrappers

  /** A row object and the value of its id field. */
  datatype Row = Row(id: int, obj: nat)

  function Ids(a: seq<Row>): set<int> {
    set r | r in a :: r.id
  }

  predicate Distinct(a: seq<Row>) {
    forall i, j :: 0 <= i < j < |a| ==> a[i].id != a[j].id
  }

  /** The list without its first entry of the given id. */
  function Without(a: seq<Row>, id: int): seq<Row> {
    if a == [] then [] else if a[0].id == id then a[1..] else [a[0]] + Without(a[1..], id)
  }

  /** The list with `r` at the end, unless its id is there already. */
  function With(a: seq<Row>, r: Row): seq<Row> {
    if r.id in Ids(a) then a else a + [r]
  }

  /** The rows whose ids are not among `ids`, in their order. */
  function Missing(ids: set<int>, rows: seq<Row>): seq<Row> {
    if rows == [] then []
    else
      var n := |rows| - 1;
      if rows[n].id in ids then Missing(ids, rows[..n]) else Missing(ids, rows[..n]) + [rows[n]]
  }

  /** The list with the entry of `r`'s id replaced by `r`. */
  function Renewed(a: seq<Row>, r: Row): (b: seq<Row>)
    ensures |b| == |a|
  {
    seq(|a|, k requires 0 <= k < |a| => if a[k].id == r.id then r else a[k])
  }

  lemma IdsConcat(a: seq<Row>, b: seq<Row>)
    ensures Ids(a + b) == Ids(a) + Ids(b)
  {
    assert forall r :: r in a + b <==> r in a || r in b;
  }

  lemma {:induction false} WithoutIds(a: seq<Row>, id: int)
    requires Distinct(a)
    ensures Distinct(Without(a, id)) && Ids(Without(a, id)) == Ids(a) - {id}
  {
    if a != [] {
      var rest := a[1..];
      assert a == [a[0]] + rest;
      IdsConcat([a[0]], rest);
      assert Ids([a[0]]) == {a[0].id};
      assert a[0].id !in Ids(rest) by {
        forall r | r in rest ensures r.id != a[0].id {
          var j :| 0 <= j < |rest| && rest[j] == r;
          assert a[j + 1] == r;
        }
      }
      if a[0].id != id {
        WithoutIds(rest, id);
        var tail := Without(rest, id);
        IdsConcat([a[0]], tail);
        HeadDistinct(a[0], tail);
      }
    }
  }

  lemma HeadDistinct(r: Row, a: seq<Row>)
    requires Distinct(a) && r.id !in Ids(a)
    ensures Distinct([r] + a)
  {
    assert forall i :: 0 <= i < |a| ==> a[i] in a && a[i].id in Ids(a);
  }

  lemma WithIds(a: seq<Row>, r: Row)
    requires Distinct(a)
    ensures Distinct(With(a, r)) && Ids(With(a, r)) == Ids(a) + {r.id}
  {
    if r.id !in Ids(a) {
      IdsConcat(a, [r]);
      assert Ids([r]) == {r.id};
      assert forall i :: 0 <= i < |a| ==> a[i] in a && a[i].id in Ids(a);
    }
  }

  /** Of the first `n` shown rows, exactly those are highlighted whose ids are in the list; the others are
      still as they were rendered. */
  predicate Agree(rows: seq<Row>, marks: seq<bool>, ids: set<int>, n: nat) {
    && |marks| == |rows| && n <= |rows|
    && forall i :: 0 <= i < |rows| ==> (marks[i] <==> i < n && rows[i].id in ids)
  }

  lemma Highlighted(rows: seq<Row>, marks: seq<bool>, ids: set<int>, n: nat, index: nat)
    requires Distinct(rows) && Agree(rows, marks, ids, n) && index <= n && index < |rows|
    ensures Agree(rows, marks[index := true], ids + {rows[index].id}, Max(n, index + 1))
  {
  }

  lemma Unhighlighted(rows: seq<Row>, marks: seq<bool>, ids: set<int>, n: nat, index: nat)
    requires Distinct(rows) && Agree(rows, marks, ids, n) && index < |rows|
    ensures Agree(rows, marks[index := false], ids - {rows[index].id}, n)
  {
  }

  /** A row whose id is not in the list counts as restored without being touched. */
  lemma NotYetShown(rows: seq<Row>, marks: seq<bool>, ids: set<int>, n: nat)
    requires Agree(rows, marks, ids, n) && n < |rows|
    ensures rows[n].id !in ids ==> Agree(rows, marks, ids, n + 1)
  {
  }

  lemma NoneHighlighted(rows: seq<Row>, n: nat)
    requires n <= |rows|
    ensures Agree(rows, seq(|rows|, _ => false), {}, n)
  {
  }

  lemma NoneShown(rows: seq<Row>, ids: set<int>)
    ensures Agree(rows, seq(|rows|, _ => false), ids, 0)
  {
  }

  /** A row leaves the page, and its id the list. */
  lemma RowGone(rows: seq<Row>, marks: seq<bool>, ids: set<int>, index: nat)
    requires Distinct(rows) && Agree(rows, marks, ids, |rows|) && index < |rows|
    ensures var left := rows[..index] + rows[index + 1..];
            && |marks| == |rows| && Distinct(left)
            && Agree(left, marks[..index] + marks[index + 1..], ids - {rows[index].id}, |left|)
  {
  }

  /** A new row comes onto the page without a highlight: that is right iff its id is not in the list. */
  lemma RowNew(rows: seq<Row>, marks: seq<bool>, ids: set<int>, at: nat, row: Row)
    requires Distinct(rows) && Agree(rows, marks, ids, |rows|) && at <= |rows| && row.id !in Ids(rows)
    ensures var all := rows[..at] + [row] + rows[at..];
            && |marks| == |rows| && Distinct(all)
            && (Agree(all, marks[..at] + [false] + marks[at..], ids, |all|) <==> row.id !in ids)
  {
    ShownIds(rows);
    var all, shown := rows[..at] + [row] + rows[at..], marks[..at] + [false] + marks[at..];
    assert all[at] == row && !shown[at];
    forall i | 0 <= i < |all| && i != at
      ensures all[i] == rows[if i < at then i else i - 1] && shown[i] == marks[if i < at then i else i - 1]
    {
    }
  }

  lemma IdsEmpty(a: seq<Row>)
    ensures Ids(a) == {} <==> a == []
  {
    if a != [] {
      assert a[0] in a && a[0].id in Ids(a);
    }
  }

  lemma MarksLength(rows: seq<Row>, marks: seq<bool>, ids: set<int>, n: nat)
    requires Agree(rows, marks, ids, n)
    ensures |marks| == |rows| && n <= |rows|
  {
  }

  lemma EmptyIds()
    ensures Distinct([]) && Ids([]) == {}
  {
  }

  /** The function `_7`: pushes the row unless an entry has its id. */
  method Add(a: seq<Row>, r: Row) returns (out: seq<Row>)
    ensures out == With(a, r) == if r.id in Ids(a) then a else a + [r]
    ensures Distinct(a) ==> Distinct(out) && Ids(out) == Ids(a) + {r.id}
  {
    if Distinct(a) {
      WithIds(a, r);
    }
    for i := 0 to |a|
      invariant forall j :: 0 <= j < i ==> a[j].id != r.id
    {
      if a[i].id == r.id {
        assert a[i] in a;
        return a;
      }
    }
    out := a + [r];
  }

  /** The function `_4`: splices out the first entry with the id. */
  method Remove(a: seq<Row>, id: int) returns (out: seq<Row>)
    ensures out == Without(a, id)
    ensures id !in Ids(a) ==> out == a
    ensures forall i :: 0 <= i < |a| && a[i].id == id && id !in Ids(a[..i]) ==> out == a[..i] + a[i + 1..]
    ensures Distinct(a) ==> Distinct(out) && Ids(out) == Ids(a) - {id}
  {
    hide Distinct, Ids, Without;
    if Distinct(a) {
      WithoutIds(a, id);
    }
    for i := 0 to |a|
      invariant forall j :: 0 <= j < i ==> a[j].id != id
    {
      if a[i].id == id {
        FirstOne(a, i);
        WithoutFirst(a, i);
        return a[..i] + a[i + 1..];
      }
    }
    NotListed(a, id);
    WithoutNone(a, id);
    out := a;
  }

  lemma NotListed(a: seq<Row>, id: int)
    requires forall j :: 0 <= j < |a| ==> a[j].id != id
    ensures id !in Ids(a)
  {
  }

  lemma {:induction false} WithoutFirst(a: seq<Row>, i: nat)
    requires i < |a| && forall j :: 0 <= j < i ==> a[j].id != a[i].id
    ensures Without(a, a[i].id) == a[..i] + a[i + 1..] && a[i].id in Ids(a)
  {
    assert a[i] in a;
    if i > 0 {
      assert a[1..][i - 1] == a[i];
      WithoutFirst(a[1..], i - 1);
      assert [a[0]] + (a[1..][..i - 1] + a[1..][i..]) == a[..i] + a[i + 1..];
    }
  }

  lemma FirstOne(a: seq<Row>, i: nat)
    requires i < |a| && forall j :: 0 <= j < i ==> a[j].id != a[i].id
    ensures forall k :: 0 <= k < |a| && a[k].id == a[i].id && a[k].id !in Ids(a[..k]) ==> k == i
  {
    forall k | i < k < |a| ensures a[i].id in Ids(a[..k]) {
      assert a[..k][i] == a[i] && a[i] in a[..k];
    }
  }

  method AddAll(a: seq<Row>, rows: seq<Row>) returns (out: seq<Row>)
    requires Distinct(a)
    ensures Distinct(out) && Ids(out) == Ids(a) + Ids(rows)
    ensures Distinct(rows) ==> out == a + Missing(Ids(a), rows)
  {
    hide Distinct, Ids, With, Missing;
    out := a;
    NothingMissing(Ids(a));
    EmptyIds();
    for i := 0 to |rows|
      invariant Distinct(out) && Ids(out) == Ids(a) + Ids(rows[..i])
      invariant Distinct(rows) ==> out == a + Missing(Ids(a), rows[..i])
    {
      IdsTake(rows, i);
      NotBefore(rows, i);
      MissingTake(Ids(a), rows, i);
      out := Add(out, rows[i]);
    }
    assert rows[..|rows|] == rows;
  }

  lemma NothingMissing(ids: set<int>)
    ensures Missing(ids, []) == []
  {
  }

  lemma MissingTake(ids: set<int>, rows: seq<Row>, i: nat)
    requires i < |rows|
    ensures Missing(ids, rows[..i + 1])
            == if rows[i].id in ids then Missing(ids, rows[..i]) else Missing(ids, rows[..i]) + [rows[i]]
  {
    assert rows[..i + 1][..i] == rows[..i];
  }

  lemma NotBefore(rows: seq<Row>, i: nat)
    requires i < |rows|
    ensures Distinct(rows) ==> rows[i].id !in Ids(rows[..i])
  {
  }

  method RemoveAll(a: seq<Row>, rows: seq<Row>) returns (out: seq<Row>)
    requires Distinct(a)
    ensures Distinct(out) && Ids(out) == Ids(a) - Ids(rows)
    ensures out == Missing(Ids(rows), a)
  {
    hide Distinct, Ids, Missing;
    out := a;
    NoneMissing(a);
    EmptyIds();
    assert rows[..0] == [];
    for i := 0 to |rows|
      invariant Distinct(out) && Ids(out) == Ids(a) - Ids(rows[..i])
      invariant out == Missing(Ids(rows[..i]), a)
    {
      WithoutIds(out, rows[i].id);
      IdsTake(rows, i);
      OneMissing(a, Ids(rows[..i]), rows[i].id);
      out := Remove(out, rows[i].id);
    }
    assert rows[..|rows|] == rows;
  }

  lemma {:induction false} NoneMissing(a: seq<Row>)
    ensures Missing({}, a) == a
  {
    if a != [] {
      NoneMissing(a[..|a| - 1]);
    }
  }

  lemma {:induction false} OneMissing(a: seq<Row>, ids: set<int>, id: int)
    requires Distinct(a)
    ensures Without(Missing(ids, a), id) == Missing(ids + {id}, a)
  {
    if a != [] {
      var n := |a| - 1;
      var front, last := a[..n], a[n];
      OneMissing(front, ids, id);
      MissingMembers(ids, front);
      if last.id !in ids {
        WithoutLast(Missing(ids, front), last, id);
        NotBefore(a, n);
        assert Ids(Missing(ids, front)) <= Ids(front);
        if id !in Ids(Missing(ids, front)) {
          WithoutNone(Missing(ids, front), id);
        }
      }
    }
  }

  lemma {:induction false} MissingMembers(ids: set<int>, a: seq<Row>)
    ensures forall r :: r in Missing(ids, a) <==> r in a && r.id !in ids
  {
    if a != [] {
      MissingMembers(ids, a[..|a| - 1]);
      assert a == a[..|a| - 1] + [a[|a| - 1]];
    }
  }

  lemma {:induction false} WithoutNone(a: seq<Row>, id: int)
    requires id !in Ids(a)
    ensures Without(a, id) == a
  {
    if a != [] {
      assert a[0] in a && forall r :: r in a[1..] ==> r in a;
      WithoutNone(a[1..], id);
    }
  }

  lemma {:induction false} WithoutLast(a: seq<Row>, r: Row, id: int)
    ensures Without(a + [r], id)
            == if id in Ids(a) then Without(a, id) + [r] else if r.id == id then a else a + [r]
  {
    hide Ids;
    EmptyIds();
    if a == [] {
      assert [] + [r] == [r];
    } else {
      assert (a + [r])[1..] == a[1..] + [r];
      IdsFirst(a);
      WithoutLast(a[1..], r, id);
    }
  }

  lemma IdsFirst(a: seq<Row>)
    requires a != []
    ensures Ids(a) == {a[0].id} + Ids(a[1..])
  {
    assert a == [a[0]] + a[1..];
    IdsConcat([a[0]], a[1..]);
    OneId(a[0]);
  }

  lemma IdsTake(rows: seq<Row>, i: nat)
    requires i < |rows|
    ensures Ids(rows[..i + 1]) == Ids(rows[..i]) + {rows[i].id}
  {
    assert rows[..i + 1] == rows[..i] + [rows[i]];
    IdsConcat(rows[..i], [rows[i]]);
    assert Ids([rows[i]]) == {rows[i].id};
  }

  class Selection {
    const singleSelect: bool
    const checkOnSelect: bool
    const selectOnCheck: bool
    /** The rows on the page, and their two highlights. */
    var rows: seq<Row>
    var selectedMarks: seq<bool>
    var checkedMarks: seq<bool>
    var selectedRows: seq<Row>
    var checkedRows: seq<Row>
    /** While a page is being restored: how many rows have their highlights back. */
    ghost var selectedUpTo: nat
    ghost var checkedUpTo: nat

    ghost predicate Lists()
      reads this
    {
      && Distinct(rows) && Distinct(selectedRows) && Distinct(checkedRows)
      && selectedUpTo <= |rows| && checkedUpTo <= |rows|
    }

    ghost predicate SelectedShown()
      reads this
    {
      Agree(rows, selectedMarks, Ids(selectedRows), selectedUpTo)
    }

    ghost predicate CheckedShown()
      reads this
    {
      Agree(rows, checkedMarks, Ids(checkedRows), checkedUpTo)
    }

    ghost predicate Partial()
      reads this
    {
      Lists() && SelectedShown() && CheckedShown()
    }

    /** No id occurs twice in a list, and a shown row is highlighted iff its id is in the list. */
    ghost predicate Valid()
      reads this
    {
      Partial() && selectedUpTo == checkedUpTo == |rows|
    }

    /** The same rows are selected and checked. */
    ghost predicate InSync()
      reads this
    {
      Ids(selectedRows) == Ids(checkedRows)
    }

    constructor (singleSelect: bool, checkOnSelect: bool, selectOnCheck: bool)
      ensures Valid() && selectedRows == [] && checkedRows == [] && rows == []
      ensures this.singleSelect == singleSelect
      ensures this.checkOnSelect == checkOnSelect && this.selectOnCheck == selectOnCheck
    {
      this.singleSelect, this.checkOnSelect, this.selectOnCheck := singleSelect, checkOnSelect, selectOnCheck;
      rows, selectedMarks, checkedMarks, selectedRows, checkedRows := [], [], [], [], [];
      selectedUpTo, checkedUpTo := 0, 0;
    }

    /** unselectAll; `silent` keeps it from unchecking as well. */
    method UnselectAll(silent: bool)
      requires Lists()
      modifies `selectedRows, `selectedMarks, `checkedRows, `checkedMarks
      ensures Lists() && SelectedShown() && selectedMarks == seq(|rows|, _ => false)
      ensures Ids(selectedRows) == Ids(old(selectedRows)) - Ids(rows)
      ensures selectedRows == Missing(Ids(rows), old(selectedRows))
      ensures !silent && checkOnSelect ==> checkedRows == Missing(Ids(rows), old(checkedRows))
      ensures if !silent && checkOnSelect then
                && Ids(checkedRows) == Ids(old(checkedRows)) - Ids(rows)
                && CheckedShown() && checkedMarks == seq(|rows|, _ => false)
              else checkedRows == old(checkedRows) && checkedMarks == old(checkedMarks)
      decreases if silent then 0 else 1
    {
      if !silent && checkOnSelect {
        UncheckAll(true);
      }
      selectedMarks := seq(|rows|, _ => false);
      selectedRows := RemoveAll(selectedRows, rows);
      ShownIds(rows);
    }

    /** uncheckAll; `silent` keeps it from unselecting as well. */
    method UncheckAll(silent: bool)
      requires Lists()
      modifies `selectedRows, `selectedMarks, `checkedRows, `checkedMarks
      ensures Lists() && CheckedShown() && checkedMarks == seq(|rows|, _ => false)
      ensures Ids(checkedRows) == Ids(old(checkedRows)) - Ids(rows)
      ensures checkedRows == Missing(Ids(rows), old(checkedRows))
      ensures !silent && selectOnCheck ==> selectedRows == Missing(Ids(rows), old(selectedRows))
      ensures if !silent && selectOnCheck then
                && Ids(selectedRows) == Ids(old(selectedRows)) - Ids(rows)
                && SelectedShown() && selectedMarks == seq(|rows|, _ => false)
              else selectedRows == old(selectedRows) && selectedMarks == old(selectedMarks)
      decreases if silent then 0 else 1
    {
      if !silent && selectOnCheck {
        UnselectAll(true);
      }
      checkedMarks := seq(|rows|, _ => false);
      checkedRows := RemoveAll(checkedRows, rows);
      ShownIds(rows);
    }

    /** selectRow; `silent` keeps it from checking the row as well. */
    method SelectRow(index: nat, silent: bool)
      requires Partial() && index < |rows| && index <= selectedUpTo
      requires !silent && checkOnSelect ==> index <= checkedUpTo
      modifies `selectedRows, `selectedMarks, `checkedRows, `checkedMarks, `selectedUpTo, `checkedUpTo
      ensures Partial()
      ensures selectedUpTo == Max(old(selectedUpTo), index + 1)
      ensures Ids(selectedRows) == (if singleSelect then {} else Ids(old(selectedRows))) + {rows[index].id}
      ensures selectedRows == With(if singleSelect then [] else old(selectedRows), rows[index])
      ensures !silent && checkOnSelect ==>
                checkedRows == With(if singleSelect && selectOnCheck then [] else old(checkedRows), rows[index])
      ensures if !silent && checkOnSelect then
                && checkedUpTo == Max(old(checkedUpTo), index + 1)
                && Ids(checkedRows) == (if singleSelect && selectOnCheck then {} else Ids(old(checkedRows)))
                                       + {rows[index].id}
              else
                checkedRows == old(checkedRows) && checkedMarks == old(checkedMarks) && checkedUpTo == old(checkedUpTo)
      decreases if silent then 0 else 1
    {
      hide Agree, Distinct, With, Ids;
      if singleSelect {
        UnselectAll(true);
        MarksLength(rows, selectedMarks, Ids(selectedRows), selectedUpTo);
        selectedRows := [];
        EmptyIds();
        NoneHighlighted(rows, selectedUpTo);
      }
      if !silent && checkOnSelect {
        CheckRow(index, true);
      }
      WithIds(selectedRows, rows[index]);
      MarksLength(rows, selectedMarks, Ids(selectedRows), selectedUpTo);
      Highlighted(rows, selectedMarks, Ids(selectedRows), selectedUpTo, index);
      selectedRows := Add(selectedRows, rows[index]);
      selectedMarks := selectedMarks[index := true];
      selectedUpTo := Max(selectedUpTo, index + 1);
    }

    /** checkRow; `silent` keeps it from selecting the row as well. */
    method CheckRow(index: nat, silent: bool)
      requires Partial() && index < |rows| && index <= checkedUpTo
      requires !silent && selectOnCheck ==> index <= selectedUpTo
      modifies `selectedRows, `selectedMarks, `checkedRows, `checkedMarks, `selectedUpTo, `checkedUpTo
      ensures Partial()
      ensures checkedUpTo == Max(old(checkedUpTo), index + 1)
      ensures Ids(checkedRows) == (if singleSelect && selectOnCheck then {} else Ids(old(checkedRows)))
                                  + {rows[index].id}
      ensures checkedRows == With(if singleSelect && selectOnCheck then [] else old(checkedRows), rows[index])
      ensures !silent && selectOnCheck ==>
                selectedRows == With(if singleSelect then [] else old(selectedRows), rows[index])
      ensures if !silent && selectOnCheck then
                && selectedUpTo == Max(old(selectedUpTo), index + 1)
                && Ids(selectedRows) == (if singleSelect then {} else Ids(old(selectedRows))) + {rows[index].id}
              else
                && selectedRows == old(selectedRows) && selectedMarks == old(selectedMarks)
                && selectedUpTo == old(selectedUpTo)
      decreases if silent then 0 else 1
    {
      hide Agree, Distinct, With, Ids;
      if singleSelect && selectOnCheck {
        UncheckAll(true);
        MarksLength(rows, checkedMarks, Ids(checkedRows), checkedUpTo);
        checkedRows := [];
        EmptyIds();
        NoneHighlighted(rows, checkedUpTo);
      }
      if !silent && selectOnCheck {
        SelectRow(index, true);
      }
      MarksLength(rows, checkedMarks, Ids(checkedRows), checkedUpTo);
      Highlighted(rows, checkedMarks, Ids(checkedRows), checkedUpTo, index);
      checkedMarks := checkedMarks[index := true];
      WithIds(checkedRows, rows[index]);
      checkedRows := Add(checkedRows, rows[index]);
      checkedUpTo := Max(checkedUpTo, index + 1);
    }

    /** unselectRow; `silent` keeps it from unchecking the row as well. */
    method UnselectRow(index: nat, silent: bool)
      requires Partial() && index < |rows|
      modifies `selectedRows, `selectedMarks, `checkedRows, `checkedMarks
      ensures Partial()
      ensures Ids(selectedRows) == Ids(old(selectedRows)) - {rows[index].id}
      ensures selectedRows == Without(old(selectedRows), rows[index].id)
      ensures !silent && checkOnSelect ==> checkedRows == Without(old(checkedRows), rows[index].id)
      ensures if !silent && checkOnSelect then Ids(checkedRows) == Ids(old(checkedRows)) - {rows[index].id}
              else checkedRows == old(checkedRows) && checkedMarks == old(checkedMarks)
      decreases if silent then 0 else 1
    {
      hide Agree, Distinct, Without, Ids;
      if !silent && checkOnSelect {
        UncheckRow(index, true);
      }
      MarksLength(rows, selectedMarks, Ids(selectedRows), selectedUpTo);
      Unhighlighted(rows, selectedMarks, Ids(selectedRows), selectedUpTo, index);
      selectedMarks := selectedMarks[index := false];
      WithoutIds(selectedRows, rows[index].id);
      selectedRows := Remove(selectedRows, rows[index].id);
    }

    /** uncheckRow; `silent` keeps it from unselecting the row as well. */
    method UncheckRow(index: nat, silent: bool)
      requires Partial() && index < |rows|
      modifies `selectedRows, `selectedMarks, `checkedRows, `checkedMarks
      ensures Partial()
      ensures Ids(checkedRows) == Ids(old(checkedRows)) - {rows[index].id}
      ensures checkedRows == Without(old(checkedRows), rows[index].id)
      ensures !silent && selectOnCheck ==> selectedRows == Without(old(selectedRows), rows[index].id)
      ensures if !silent && selectOnCheck then Ids(selectedRows) == Ids(old(selectedRows)) - {rows[index].id}
              else selectedRows == old(selectedRows) && selectedMarks == old(selectedMarks)
      decreases if silent then 0 else 1
    {
      hide Agree, Distinct, Without, Ids;
      if !silent && selectOnCheck {
        UnselectRow(index, true);
      }
      MarksLength(rows, checkedMarks, Ids(checkedRows), checkedUpTo);
      Unhighlighted(rows, checkedMarks, Ids(checkedRows), checkedUpTo, index);
      checkedMarks := checkedMarks[index := false];
      WithoutIds(checkedRows, rows[index].id);
      checkedRows := Remove(checkedRows, rows[index].id);
    }

    /** selectAll: note that it adds all shown rows even in single-select mode. */
    method SelectAll(silent: bool)
      requires Valid()
      modifies `selectedRows, `selectedMarks, `checkedRows, `checkedMarks
      ensures Valid()
      ensures Ids(selectedRows) == Ids(old(selectedRows)) + Ids(rows)
      ensures AtMostOne(Ids(old(selectedRows))) ==>
                (AtMostOne(Ids(selectedRows)) <==> NothingToAdd(Ids(old(selectedRows)), rows))
      ensures selectedRows == old(selectedRows) + Missing(Ids(old(selectedRows)), rows)
      ensures !silent && checkOnSelect ==> checkedRows == old(checkedRows) + Missing(Ids(old(checkedRows)), rows)
      ensures if !silent && checkOnSelect then Ids(checkedRows) == Ids(old(checkedRows)) + Ids(rows)
              else checkedRows == old(checkedRows) && checkedMarks == old(checkedMarks)
      decreases if silent then 0 else 1
    {
      if !silent && checkOnSelect {
        CheckAll(true);
      }
      if AtMostOne(Ids(selectedRows)) {
        SelectAllSingle(Ids(selectedRows), rows);
      }
      selectedMarks := seq(|rows|, _ => true);
      selectedRows := AddAll(selectedRows, rows);
      ShownIds(rows);
    }

    /** checkAll. */
    method CheckAll(silent: bool)
      requires Valid()
      modifies `selectedRows, `selectedMarks, `checkedRows, `checkedMarks
      ensures Valid()
      ensures Ids(checkedRows) == Ids(old(checkedRows)) + Ids(rows)
      ensures AtMostOne(Ids(old(checkedRows))) ==>
                (AtMostOne(Ids(checkedRows)) <==> NothingToAdd(Ids(old(checkedRows)), rows))
      ensures !silent && selectOnCheck && AtMostOne(Ids(old(selectedRows))) ==>
                (AtMostOne(Ids(selectedRows)) <==> NothingToAdd(Ids(old(selectedRows)), rows))
      ensures checkedRows == old(checkedRows) + Missing(Ids(old(checkedRows)), rows)
      ensures !silent && selectOnCheck ==> selectedRows == old(selectedRows) + Missing(Ids(old(selectedRows)), rows)
      ensures if !silent && selectOnCheck then Ids(selectedRows) == Ids(old(selectedRows)) + Ids(rows)
              else selectedRows == old(selectedRows) && selectedMarks == old(selectedMarks)
      decreases if silent then 0 else 1
    {
      if !silent && selectOnCheck {
        SelectAll(true);
      }
      if AtMostOne(Ids(checkedRows)) {
        SelectAllSingle(Ids(checkedRows), rows);
      }
      checkedMarks := seq(|rows|, _ => true);
      checkedRows := AddAll(checkedRows, rows);
      ShownIds(rows);
    }

    /** clearSelections: also forgets rows of other pages. */
    method ClearSelections()
      requires Valid()
      modifies `selectedRows, `selectedMarks, `checkedRows, `checkedMarks
      ensures Valid() && selectedRows == []
      ensures if checkOnSelect then checkedRows == [] else checkedRows == old(checkedRows)
    {
      selectedRows := [];
      UnselectAll(false);
      IdsEmpty(selectedRows);
      if checkOnSelect {
        checkedRows := [];
      }
    }

    /** clearChecked: also forgets rows of other pages. */
    method ClearChecked()
      requires Valid()
      modifies `selectedRows, `selectedMarks, `checkedRows, `checkedMarks
      ensures Valid() && checkedRows == []
      ensures if selectOnCheck then selectedRows == [] else selectedRows == old(selectedRows)
    {
      checkedRows := [];
      UncheckAll(false);
      IdsEmpty(checkedRows);
      if selectOnCheck {
        selectedRows := [];
      }
    }

    /** deleteRow, as far as the two lists and the highlights are concerned. */
    method DeleteRow(index: nat)
      requires Valid() && index < |rows|
      modifies this
      ensures Valid() && rows == old(rows)[..index] + old(rows)[index + 1..]
      ensures selectedRows == Without(old(selectedRows), old(rows)[index].id)
      ensures checkedRows == Without(old(checkedRows), old(rows)[index].id)
      ensures Ids(selectedRows) == Ids(old(selectedRows)) - {old(rows)[index].id}
      ensures Ids(checkedRows) == Ids(old(checkedRows)) - {old(rows)[index].id}
    {
      hide Agree, Distinct, Without, Ids;
      var id := rows[index].id;
      WithoutIds(selectedRows, id);
      WithoutIds(checkedRows, id);
      RowGone(rows, selectedMarks, Ids(selectedRows), index);
      RowGone(rows, checkedMarks, Ids(checkedRows), index);
      selectedRows := Remove(selectedRows, id);
      checkedRows := Remove(checkedRows, id);
      selectedMarks := selectedMarks[..index] + selectedMarks[index + 1..];
      checkedMarks := checkedMarks[..index] + checkedMarks[index + 1..];
      rows := rows[..index] + rows[index + 1..];
      selectedUpTo, checkedUpTo := |rows|, |rows|;
    }

    /** insertRow, as far as the two lists and the highlights are concerned: the new line has none. */
    method InsertRow(index: Option<nat>, row: Row)
      requires Valid() && row.id !in Ids(rows)
      modifies `rows, `selectedMarks, `checkedMarks, `selectedUpTo, `checkedUpTo
      ensures var at := if index.Some? && index.value <= |old(rows)| then index.value else |old(rows)|;
              rows == old(rows)[..at] + [row] + old(rows)[at..]
      ensures Valid() <==> row.id !in Ids(selectedRows) && row.id !in Ids(checkedRows)
    {
      hide Agree, Distinct, Ids;
      var at := if index.Some? && index.value <= |rows| then index.value else |rows|;
      RowNew(rows, selectedMarks, Ids(selectedRows), at, row);
      RowNew(rows, checkedMarks, Ids(checkedRows), at, row);
      rows := rows[..at] + [row] + rows[at..];
      selectedMarks := selectedMarks[..at] + [false] + selectedMarks[at..];
      checkedMarks := checkedMarks[..at] + [false] + checkedMarks[at..];
      selectedUpTo, checkedUpTo := |rows|, |rows|;
    }

    /** A page load: the new rows come without highlights, and setSelectionState brings back those whose
        ids are in the lists, putting the new row objects into the lists. */
    method LoadPage(newRows: seq<Row>)
      requires Valid() && Distinct(newRows)
      modifies this
      ensures Valid() && rows == newRows
      ensures Ids(selectedRows) == Restored(singleSelect, Ids(old(selectedRows)), newRows)
      ensures Ids(checkedRows) == Restored(singleSelect && selectOnCheck, Ids(old(checkedRows)), newRows)
      ensures forall r :: r in newRows && r.id in Ids(selectedRows) ==> r in selectedRows
      ensures forall r :: r in newRows && r.id in Ids(checkedRows) ==> r in checkedRows
      ensures forall r :: r in selectedRows && r.id !in Ids(newRows) ==> r in old(selectedRows)
      ensures forall r :: r in checkedRows && r.id !in Ids(newRows) ==> r in old(checkedRows)
      ensures !singleSelect ==>
                && |selectedRows| == |old(selectedRows)|
                && forall k :: 0 <= k < |selectedRows| ==> selectedRows[k].id == old(selectedRows)[k].id
      ensures !(singleSelect && selectOnCheck) ==>
                && |checkedRows| == |old(checkedRows)|
                && forall k :: 0 <= k < |checkedRows| ==> checkedRows[k].id == old(checkedRows)[k].id
    {
      hide Agree, Distinct, Ids, Refreshed;
      RefreshedNone(singleSelect, selectedRows);
      RefreshedNone(singleSelect && selectOnCheck, checkedRows);
      NoneShown(newRows, Ids(selectedRows));
      NoneShown(newRows, Ids(checkedRows));
      rows := newRows;
      selectedMarks, checkedMarks := seq(|rows|, _ => false), seq(|rows|, _ => false);
      selectedUpTo, checkedUpTo := 0, 0;
      for i := 0 to |rows|
        invariant rows == newRows && selectedUpTo == checkedUpTo == i && Partial()
        invariant Ids(selectedRows) == Restored(singleSelect, Ids(old(selectedRows)), newRows[..i])
        invariant Ids(checkedRows) == Restored(singleSelect && selectOnCheck, Ids(old(checkedRows)), newRows[..i])
        invariant Refreshed(singleSelect, old(selectedRows), selectedRows, newRows[..i])
        invariant Refreshed(singleSelect && selectOnCheck, old(checkedRows), checkedRows, newRows[..i])
      {
        RestoredTake(singleSelect, Ids(old(selectedRows)), newRows, i);
        RestoredTake(singleSelect && selectOnCheck, Ids(old(checkedRows)), newRows, i);
        ghost var selected, checked := selectedRows, checkedRows;
        RestoreRow(i);
        RefreshedTake(singleSelect, old(selectedRows), selected, selectedRows, newRows, i);
        RefreshedTake(singleSelect && selectOnCheck, old(checkedRows), checked, checkedRows, newRows, i);
      }
      assert newRows[..|newRows|] == newRows;
      RefreshedMeans(singleSelect, old(selectedRows), selectedRows, newRows);
      RefreshedMeans(singleSelect && selectOnCheck, old(checkedRows), checkedRows, newRows);
    }

    /** One turn of the loop of setSelectionState. */
    method RestoreRow(i: nat)
      requires Partial() && i < |rows| && selectedUpTo == checkedUpTo == i
      modifies `selectedRows, `selectedMarks, `checkedRows, `checkedMarks, `selectedUpTo, `checkedUpTo
      ensures Partial() && selectedUpTo == checkedUpTo == i + 1
      ensures Ids(selectedRows) == if singleSelect && rows[i].id in Ids(old(selectedRows)) then {rows[i].id}
                                   else Ids(old(selectedRows))
      ensures Ids(checkedRows) == if singleSelect && selectOnCheck && rows[i].id in Ids(old(checkedRows))
                                  then {rows[i].id} else Ids(old(checkedRows))
      ensures selectedRows == if rows[i].id !in Ids(old(selectedRows)) then old(selectedRows)
                              else if singleSelect then [rows[i]] else Renewed(old(selectedRows), rows[i])
      ensures checkedRows == if rows[i].id !in Ids(old(checkedRows)) then old(checkedRows)
                             else if singleSelect && selectOnCheck then [rows[i]]
                             else Renewed(old(checkedRows), rows[i])
    {
      hide Agree, Distinct, Ids, Renewed;
      var found;
      EmptyIds();
      NotYetShown(rows, selectedMarks, Ids(selectedRows), i);
      NotYetShown(rows, checkedMarks, Ids(checkedRows), i);
      found, selectedRows := Replace(selectedRows, rows[i]);
      if found {
        SelectRow(i, true);
      } else {
        selectedUpTo := i + 1;
      }
      found, checkedRows := Replace(checkedRows, rows[i]);
      if found {
        CheckRow(i, true);
      } else {
        checkedUpTo := i + 1;
      }
    }
  }

  /** The function `_104`: puts the row object `r` in place of the first entry with its id. */
  method Replace(a: seq<Row>, r: Row) returns (found: bool, out: seq<Row>)
    ensures found == (r.id in Ids(a)) && Ids(out) == Ids(a)
    ensures !found ==> out == a
    ensures forall i :: 0 <= i < |a| && a[i].id == r.id && r.id !in Ids(a[..i]) ==> out == a[i := r]
    ensures Distinct(a) ==> Distinct(out) && (found ==> out == Renewed(a, r))
  {
    for i := 0 to |a|
      invariant forall j :: 0 <= j < i ==> a[j].id != r.id
    {
      if a[i].id == r.id {
        assert a[i] in a;
        SameIds(a, i, r);
        FirstOne(a, i);
        return true, a[i := r];
      }
    }
    return false, a;
  }

  lemma SameIds(a: seq<Row>, i: nat, r: Row)
    requires i < |a| && a[i].id == r.id
    ensures Ids(a[i := r]) == Ids(a)
  {
    var b := a[i := r];
    forall id | id in Ids(a) ensures id in Ids(b) {
      var x :| x in a && x.id == id;
      var j :| 0 <= j < |a| && a[j] == x;
      assert b[j] in b && b[j].id == id;
    }
    forall id | id in Ids(b) ensures id in Ids(a) {
      var x :| x in b && x.id == id;
      var j :| 0 <= j < |b| && b[j] == x;
      assert a[j] in a && a[j].id == id;
    }
  }

  /** The objects of a list after a page load: those of the page where there are any, else the old ones; in
      multiple mode each in its place. */
  predicate Refreshed(single: bool, was: seq<Row>, now: seq<Row>, rows: seq<Row>) {
    && (forall r :: r in rows && r.id in Ids(now) ==> r in now)
    && (forall r :: r in now && r.id !in Ids(rows) ==> r in was)
    && (!single ==> |now| == |was| && forall k :: 0 <= k < |now| ==> now[k].id == was[k].id)
  }

  lemma RefreshedNone(single: bool, a: seq<Row>)
    ensures Refreshed(single, a, a, [])
  {
  }

  lemma RefreshedMeans(single: bool, was: seq<Row>, now: seq<Row>, rows: seq<Row>)
    requires Refreshed(single, was, now, rows)
    ensures forall r :: r in rows && r.id in Ids(now) ==> r in now
    ensures forall r :: r in now && r.id !in Ids(rows) ==> r in was
    ensures !single ==> |now| == |was| && forall k :: 0 <= k < |now| ==> now[k].id == was[k].id
  {
  }

  lemma RenewedMembers(a: seq<Row>, r: Row)
    ensures forall x :: x in Renewed(a, r) <==> (x in a && x.id != r.id) || (x == r && r.id in Ids(a))
  {
    var b := Renewed(a, r);
    forall x | x in a && x.id != r.id ensures x in b {
      var k :| 0 <= k < |a| && a[k] == x;
      assert b[k] == x;
    }
    if r.id in Ids(a) {
      var y :| y in a && y.id == r.id;
      var k :| 0 <= k < |a| && a[k] == y;
      assert b[k] == r;
    }
  }

  lemma RefreshedTake(single: bool, was: seq<Row>, before: seq<Row>, now: seq<Row>, rows: seq<Row>, i: nat)
    requires Distinct(rows) && i < |rows| && Refreshed(single, was, before, rows[..i])
    requires now == if rows[i].id !in Ids(before) then before else if single then [rows[i]] else Renewed(before, rows[i])
    ensures Refreshed(single, was, now, rows[..i + 1])
  {
    hide Distinct, Refreshed;
    var r := rows[i];
    assert rows[..i + 1] == rows[..i] + [r];
    IdsTake(rows, i);
    NotBefore(rows, i);
    RefreshedOne(single, was, before, now, rows[..i], r);
  }

  lemma RefreshedOne(single: bool, was: seq<Row>, before: seq<Row>, now: seq<Row>, rows: seq<Row>, r: Row)
    requires Refreshed(single, was, before, rows) && r.id !in Ids(rows)
    requires now == if r.id !in Ids(before) then before else if single then [r] else Renewed(before, r)
    ensures Refreshed(single, was, now, rows + [r])
  {
    hide Renewed, Ids;
    IdsConcat(rows, [r]);
    OneId(r);
    RenewedMembers(before, r);
    RenewedIds(before, r);
    MemberIds(rows);
    MemberIds(before);
    if r.id !in Ids(before) {
      assert now == before;
    } else if single {
      assert now == [r];
    } else {
      assert now == Renewed(before, r);
    }
  }

  lemma OneId(r: Row)
    ensures Ids([r]) == {r.id}
  {
  }

  lemma MemberIds(a: seq<Row>)
    ensures forall r :: r in a ==> r.id in Ids(a)
  {
  }

  lemma RenewedIds(a: seq<Row>, r: Row)
    ensures forall k :: 0 <= k < |a| ==> Renewed(a, r)[k].id == a[k].id
    ensures Ids(Renewed(a, r)) == Ids(a)
  {
    RenewedMembers(a, r);
    forall id | id in Ids(a) ensures id in Ids(Renewed(a, r)) {
      var x :| x in a && x.id == id;
      assert (if id == r.id then r else x) in Renewed(a, r);
    }
  }

  /** The ids in a list after a page load: unchanged, but in single mode the first shown row that is in
      the list becomes the only one. */
  function Restored(single: bool, ids: set<int>, rows: seq<Row>): set<int> {
    if !single || rows == [] then ids
    else if rows[0].id in ids then {rows[0].id}
    else Restored(single, ids, rows[1..])
  }

  lemma {:induction false} RestoredTake(single: bool, ids: set<int>, rows: seq<Row>, i: nat)
    requires Distinct(rows) && i < |rows|
    ensures var before := Restored(single, ids, rows[..i]);
            Restored(single, ids, rows[..i + 1]) == if single && rows[i].id in before then {rows[i].id} else before
  {
    if single && i > 0 {
      assert rows[..i + 1][1..] == rows[1..][..i] && rows[..i][1..] == rows[1..][..i - 1];
      if rows[0].id !in ids {
        RestoredTake(single, ids, rows[1..], i - 1);
      }
    }
  }

  // ----- whole runs -----

  /** The calls that change a selection, or the page. */
  datatype Call = Select(index: nat) | Unselect(index: nat) | SelectEvery | UnselectEvery | ClearSelected
                | Check(index: nat) | Uncheck(index: nat) | CheckEvery | UncheckEvery | ClearCheckedRows
                | Delete(index: nat) | Insert(at: Option<nat>, row: Row) | Page(rows: seq<Row>)

  /** Any sequence of calls keeps the lists free of duplicate ids and the highlights right, up to the first
      insertion of a row whose id is in a list; with both couplings on it keeps the lists alike; and in
      single-select mode, without a call of selectAll or checkAll, it keeps at most one row selected. Calls
      for a row that is not there, and insertions of an id that is on the page, are passed over. */
  method Play(s: Selection, calls: seq<Call>) returns (played: nat)
    requires s.Valid() && forall c :: c in calls && c.Page? ==> Distinct(c.rows)
    modifies s
    ensures played <= |calls|
    ensures played == |calls| ==> s.Valid()
    ensures played < |calls| ==>
              && !s.Valid() && calls[played].Insert?
              && calls[played].row.id in Ids(s.selectedRows) + Ids(s.checkedRows)
    ensures s.checkOnSelect && s.selectOnCheck && old(s.InSync()) ==> s.InSync()
    ensures s.singleSelect && AtMostOne(Ids(old(s.selectedRows))) && NoneOfAll(calls) ==> AtMostOne(Ids(s.selectedRows))
  {
    for k := 0 to |calls|
      invariant s.Valid()
      invariant s.checkOnSelect && s.selectOnCheck && old(s.InSync()) ==> s.InSync()
      invariant s.singleSelect && AtMostOne(Ids(old(s.selectedRows))) && NoneOfAll(calls) ==>
                  AtMostOne(Ids(s.selectedRows))
    {
      var c := calls[k];
      assert c in calls;
      if c.Insert? && c.row.id in Ids(s.selectedRows) + Ids(s.checkedRows) && c.row.id !in Ids(s.rows) {
        PlayOne(s, c);
        return k;
      }
      PlayOne(s, c);
    }
    played := |calls|;
  }

  /** An insertion is right iff the id is in neither list; every other call is. */
  predicate CallRight(c: Call, ids: set<int>, shown: set<int>) {
    c.Insert? && c.row.id !in shown ==> c.row.id !in ids
  }

  predicate NoneOfAll(calls: seq<Call>) {
    forall c :: c in calls ==> !c.SelectEvery? && !c.CheckEvery?
  }

  predicate AtMostOne(ids: set<int>) {
    forall x, y :: x in ids && y in ids ==> x == y
  }

  method PlayOne(s: Selection, c: Call)
    requires s.Valid() && (c.Page? ==> Distinct(c.rows))
    modifies s
    ensures s.Valid() <==> CallRight(c, Ids(old(s.selectedRows)) + Ids(old(s.checkedRows)), Ids(old(s.rows)))
    ensures c.Insert? ==> s.selectedRows == old(s.selectedRows) && s.checkedRows == old(s.checkedRows)
    ensures s.checkOnSelect && s.selectOnCheck && old(s.InSync()) ==> s.InSync()
    ensures s.singleSelect && AtMostOne(Ids(old(s.selectedRows))) && !c.SelectEvery? && !c.CheckEvery? ==>
              AtMostOne(Ids(s.selectedRows))
  {
    match c {
      case Select(i) => if i < |s.rows| { s.SelectRow(i, false); }
      case Unselect(i) => if i < |s.rows| { s.UnselectRow(i, false); }
      case SelectEvery => s.SelectAll(false);
      case UnselectEvery => s.UnselectAll(false);
      case ClearSelected => s.ClearSelections();
      case Check(i) => if i < |s.rows| { s.CheckRow(i, false); }
      case Uncheck(i) => if i < |s.rows| { s.UncheckRow(i, false); }
      case CheckEvery => s.CheckAll(false);
      case UncheckEvery => s.UncheckAll(false);
      case ClearCheckedRows => s.ClearChecked();
      case Delete(i) => if i < |s.rows| { s.DeleteRow(i); }
      case Insert(at, row) => if row.id !in Ids(s.rows) { s.InsertRow(at, row); }
      case Page(rows) =>
        s.LoadPage(rows);
        RestoredSubset(s.singleSelect, Ids(old(s.selectedRows)), rows);
    }
  }

  lemma {:induction false} RestoredSubset(single: bool, ids: set<int>, rows: seq<Row>)
    ensures Restored(single, ids, rows) <= ids
  {
    if single && rows != [] && rows[0].id !in ids {
      RestoredSubset(single, ids, rows[1..]);
    }
  }

  /** Nothing is shown, or one row is and no other was selected. */
  predicate NothingToAdd(ids: set<int>, rows: seq<Row>) {
    rows == [] || (|rows| == 1 && ids <= {rows[0].id})
  }

  /** A page of two rows, nothing selected, single-select mode: selectAll leaves both rows selected. */
  method SelectAllBreaks() returns (s: Selection)
    ensures fresh(s) && s.Valid() && s.singleSelect && Ids(s.selectedRows) == {1, 2}
    ensures !AtMostOne(Ids(s.selectedRows))
  {
    s := new Selection(true, true, true);
    EmptyIds();
    var page := [Row(1, 10), Row(2, 20)];
    RestoredSubset(true, {}, page);
    s.LoadPage(page);
    TwoIds(page);
    s.SelectAll(false);
    assert 1 in Ids(s.selectedRows) && 2 in Ids(s.selectedRows);
  }

  lemma TwoIds(page: seq<Row>)
    requires |page| == 2
    ensures Ids(page) == {page[0].id, page[1].id}
  {
    assert page == [page[0]] + [page[1]];
    IdsConcat([page[0]], [page[1]]);
    assert Ids([page[0]]) == {page[0].id} && Ids([page[1]]) == {page[1].id};
  }

  /** A row is selected, its page goes, and the row is inserted into the next page: it is shown without its
      highlight. */
  method InsertSelectedBreaks() returns (s: Selection)
    ensures fresh(s) && !s.Valid() && s.rows == [Row(1, 10)] && 1 in Ids(s.selectedRows)
  {
    s := new Selection(false, false, false);
    s.LoadPage([Row(1, 10)]);
    s.SelectRow(0, false);
    s.LoadPage([]);
    s.InsertRow(None, Row(1, 10));
  }

  /** selectAll ignores single-select mode: what it leaves (see `Selection.SelectAll`) holds at most one id
      exactly when nothing is shown, or one row is and no other was selected. */
  lemma SelectAllSingle(ids: set<int>, rows: seq<Row>)
    requires Distinct(rows) && AtMostOne(ids)
    ensures AtMostOne(ids + Ids(rows)) <==> NothingToAdd(ids, rows)
  {
    ShownIds(rows);
    var all := ids + Ids(rows);
    if |rows| >= 2 {
      assert rows[0].id in all && rows[1].id in all && rows[0].id != rows[1].id;
    } else if |rows| == 1 {
      assert Ids(rows) == {rows[0].id};
      OneMore(ids, rows[0].id);
    } else {
      IdsEmpty(rows);
      assert all == ids;
    }
  }

  lemma OneMore(ids: set<int>, x: int)
    ensures AtMostOne(ids + {x}) <==> ids <= {x}
  {
    if AtMostOne(ids + {x}) {
      forall y | y in ids ensures y == x {
        assert y in ids + {x} && x in ids + {x};
      }
    }
  }

  function Max(a: nat, b: nat): nat {
    if a < b then b else a
  }

  lemma ShownIds(rows: seq<Row>)
    ensures forall i :: 0 <= i < |rows| ==> rows[i].id in Ids(rows)
  {
    assert forall i :: 0 <= i < |rows| ==> rows[i] in rows;
  }
}
