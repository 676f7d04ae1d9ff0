/** The datagrid's change tracking: inserted, updated and deleted rows since the last reset, and the
    rollback to the rows as they were then. */
module Changes {

  type Cells = map<string, int>

  /** A row object; the grid edits its cells in place. */
  class Record {
    var cells: Cells

    constructor (cells: Cells)
      ensures this.cells == cells
    {
      this.cells := cells;
    }
  }

  /** The list without the first occurrence of `r`. */
  function Dropped(s: seq<Record>, r: Record): seq<Record> {
    if s == [] then [] else if s[0] == r then s[1..] else [s[0]] + Dropped(s[1..], r)
  }

  lemma {:induction false} DroppedMultiset(s: seq<Record>, r: Record)
    requires r in s
    ensures multiset(s) == multiset(Dropped(s, r)) + multiset{r}
    ensures |Dropped(s, r)| == |s| - 1
    ensures forall x :: x in Dropped(s, r) ==> x in s
  {
    assert s == [s[0]] + s[1..];
    if s[0] != r {
      DroppedMultiset(s[1..], r);
    }
  }

  /** The others keep their order. */
  lemma {:induction false} DroppedAt(s: seq<Record>, r: Record, i: nat)
    requires i < |s| && s[i] == r && r !in s[..i]
    ensures Dropped(s, r) == s[..i] + s[i + 1..]
  {
    if i > 0 {
      assert s[0] == s[..i][0] != r;
      assert s[1..][..i - 1] == s[..i][1..];
      DroppedAt(s[1..], r, i - 1);
    }
  }

  type Edits = seq<(string, int)>

  predicate Differs(cells: Cells, edit: (string, int)) {
    edit.0 !in cells || cells[edit.0] != edit.1
  }

  /** The cells after the editors' values have been written back, in order. */
  function Written(cells: Cells, edits: Edits): Cells {
    if edits == [] then cells
    else
      var before, last := Written(cells, edits[..|edits| - 1]), edits[|edits| - 1];
      if Differs(before, last) then before[last.0 := last.1] else before
  }

  /** Whether some editor held another value than the cell. */
  function AnyDiffers(cells: Cells, edits: Edits): bool {
    edits != [] &&
    (AnyDiffers(cells, edits[..|edits| - 1])
     || Differs(Written(cells, edits[..|edits| - 1]), edits[|edits| - 1]))
  }

  /** The last editor for a field decides what is in the cell. */
  lemma {:induction false} WrittenLast(cells: Cells, edits: Edits, i: nat)
    requires i < |edits| && forall j :: i < j < |edits| ==> edits[j].0 != edits[i].0
    ensures edits[i].0 in Written(cells, edits) && Written(cells, edits)[edits[i].0] == edits[i].1
  {
    hide Differs;
    var n := |edits| - 1;
    OneWritten(Written(cells, edits[..n]), edits[n], edits[i].0);
    if i < n {
      WrittenLast(cells, edits[..n], i);
    }
  }

  /** A cell without an editor stays. */
  lemma {:induction false} WrittenElse(cells: Cells, edits: Edits, f: string)
    requires forall i :: 0 <= i < |edits| ==> edits[i].0 != f
    ensures f in Written(cells, edits) <==> f in cells
    ensures f in cells ==> Written(cells, edits)[f] == cells[f]
  {
    hide Differs;
    if edits != [] {
      var n := |edits| - 1;
      OneWritten(Written(cells, edits[..n]), edits[n], f);
      WrittenElse(cells, edits[..n], f);
    }
  }

  lemma OneWritten(before: Cells, last: (string, int), f: string)
    ensures var now := if Differs(before, last) then before[last.0 := last.1] else before;
            if last.0 == f then f in now && now[f] == last.1
            else (f in now <==> f in before) && (f in now ==> now[f] == before[f])
  {
  }

  /** Some value is changed iff some editor holds another one than its cell had to begin with. */
  lemma {:induction false} ChangedIff(cells: Cells, edits: Edits)
    ensures AnyDiffers(cells, edits)
            <==> exists i :: 0 <= i < |edits| && (edits[i].0 in cells ==> cells[edits[i].0] != edits[i].1)
    ensures !AnyDiffers(cells, edits) ==> Written(cells, edits) == cells
  {
    if edits != [] {
      var n := |edits| - 1;
      ChangedIff(cells, edits[..n]);
      assert forall i :: 0 <= i < n ==> edits[..n][i] == edits[i];
      if !AnyDiffers(cells, edits[..n]) {
        assert Differs(cells, edits[n]) <==> (edits[n].0 in cells ==> cells[edits[n].0] != edits[n].1);
      }
    }
  }

  lemma InsertedMultiset(s: seq<Record>, at: nat, r: Record)
    requires at <= |s|
    ensures multiset(s[..at] + [r] + s[at..]) == multiset(s) + multiset{r}
  {
    assert s == s[..at] + s[at..];
  }

  lemma DeletedMultiset(s: seq<Record>, at: nat)
    requires at < |s|
    ensures multiset(s) == multiset(s[..at] + s[at + 1..]) + multiset{s[at]}
  {
    assert s == s[..at] + [s[at]] + s[at + 1..];
  }

  /** Rows on the page and deleted rows together are the base rows and the inserted rows. */
  predicate Balanced(rows: seq<Record>, deleted: seq<Record>, base: seq<Record>, inserted: seq<Record>) {
    multiset(rows) + multiset(deleted) == multiset(base) + multiset(inserted)
  }

  lemma BothSides<T>(a: multiset<T>, b: multiset<T>, c: multiset<T>, d: multiset<T>, x: multiset<T>)
    requires a + b == c + d
    ensures (a + x) + b == c + (d + x)
  {
    assert (a + x) + b == (a + b) + x;
    assert (c + d) + x == c + (d + x);
  }

  lemma Cancel<T>(a: multiset<T>, b: multiset<T>, c: multiset<T>, d: multiset<T>, x: multiset<T>)
    requires (a + x) + b == c + (d + x)
    ensures a + b == c + d
  {
    assert ((a + x) + b) - x == a + b;
    assert (c + (d + x)) - x == c + d;
  }

  lemma BalanceInsert(rows: seq<Record>, deleted: seq<Record>, base: seq<Record>, inserted: seq<Record>, at: nat, r: Record)
    requires Balanced(rows, deleted, base, inserted) && at <= |rows|
    ensures Balanced(rows[..at] + [r] + rows[at..], deleted, base, inserted + [r])
  {
    InsertedMultiset(rows, at, r);
    assert multiset(inserted + [r]) == multiset(inserted) + multiset{r};
    BothSides(multiset(rows), multiset(deleted), multiset(base), multiset(inserted), multiset{r});
  }

  lemma BalanceDelete(rows: seq<Record>, deleted: seq<Record>, base: seq<Record>, inserted: seq<Record>, at: nat)
    requires Balanced(rows, deleted, base, inserted) && at < |rows|
    ensures rows[at] in inserted ==>
              Balanced(rows[..at] + rows[at + 1..], deleted, base, Dropped(inserted, rows[at]))
    ensures Balanced(rows[..at] + rows[at + 1..], deleted + [rows[at]], base, inserted)
  {
    var r, left := rows[at], multiset(rows[..at] + rows[at + 1..]);
    DeletedMultiset(rows, at);
    assert multiset(deleted + [r]) == multiset(deleted) + multiset{r};
    assert left + (multiset(deleted) + multiset{r}) == (left + multiset{r}) + multiset(deleted);
    if r in inserted {
      DroppedMultiset(inserted, r);
      var others := multiset(Dropped(inserted, r));
      assert (left + multiset{r}) + multiset(deleted) == multiset(base) + (others + multiset{r});
      Cancel(left, multiset(deleted), multiset(base), others, multiset{r});
    }
  }

  /** A row on the page that was not inserted belongs to the base. */
  lemma OldRow(rows: seq<Record>, deleted: seq<Record>, base: seq<Record>, inserted: seq<Record>, r: Record)
    requires Balanced(rows, deleted, base, inserted)
    requires r in rows && r !in inserted
    ensures r in base
  {
    assert (multiset(rows) + multiset(deleted))[r] > 0;
    assert multiset(inserted)[r] == 0;
  }

  /** One change a user makes. */
  datatype Change = Insert(index: nat, row: Record) | Delete(index: nat) | Edit(index: nat, edits: Edits)

  function NewRows(changes: seq<Change>): set<Record> {
    set c | c in changes && c.Insert? :: c.row
  }

  class Tracker {
    var rows: seq<Record>
    var total: int
    var originalRows: seq<Record>
    var insertedRows: seq<Record>
    var deletedRows: seq<Record>
    var updatedRows: seq<Record>
    /** The row objects, their cells and the total at the last reset. */
    ghost var base: seq<Record>
    ghost var baseCells: seq<Cells>
    ghost var baseTotal: int

    ghost predicate Valid()
      reads this, originalRows
    {
      && |originalRows| == |baseCells| == |base|
      && (forall i :: 0 <= i < |originalRows| ==> originalRows[i].cells == baseCells[i])
      && (forall r :: r in originalRows ==> r !in rows)
      && Balanced(rows, deletedRows, base, insertedRows)
      && total == baseTotal + |insertedRows| - |deletedRows|
    }

    /** Only new objects have been inserted, so what is deleted is part of the base. */
    ghost predicate FreshInserts()
      reads this
    {
      && (forall r :: r in insertedRows ==> r !in base)
      && (forall r :: r in deletedRows ==> r in base)
    }

    constructor ()
      ensures Valid() && FreshInserts() && rows == [] && total == 0
    {
      rows, total, originalRows, insertedRows, deletedRows, updatedRows := [], 0, [], [], [], [];
      base, baseCells, baseTotal := [], [], 0;
    }

    /** Takes a snapshot of copies of all rows and clears the three lists. */
    method Reset()
      modifies this
      ensures Valid() && FreshInserts()
      ensures rows == old(rows) && total == old(total)
      ensures base == rows && baseTotal == total
      ensures |baseCells| == |rows| && forall i :: 0 <= i < |rows| ==> baseCells[i] == rows[i].cells
      ensures fresh(set r | r in originalRows)
      ensures insertedRows == [] && deletedRows == [] && updatedRows == []
    {
      var copies: seq<Record> := [];
      for i := 0 to |rows|
        invariant |copies| == i
        invariant forall j :: 0 <= j < i ==> fresh(copies[j]) && copies[j].cells == rows[j].cells
        invariant forall j :: 0 <= j < |rows| ==> rows[j].cells == old(rows[j].cells)
        invariant forall r :: r in copies ==> r !in rows
        modifies {}
      {
        var copy := new Record(rows[i].cells);
        copies := copies + [copy];
      }
      originalRows := copies;
      updatedRows, insertedRows, deletedRows := [], [], [];
      base, baseTotal := rows, total;
      baseCells := seq(|rows|, i requires 0 <= i < |rows| reads this, rows => rows[i].cells);
    }

    /** A page load: new rows and a reset. */
    method LoadData(rows: seq<Record>, total: int)
      modifies this
      ensures Valid() && FreshInserts() && this.rows == base == rows && this.total == baseTotal == total
      ensures insertedRows == [] && deletedRows == [] && updatedRows == []
    {
      this.rows, this.total := rows, total;
      Reset();
    }

    /** The insertRow and appendRow methods; an index past the end stands for the end. */
    method InsertRow(index: nat, row: Record)
      requires Valid() && row !in originalRows
      modifies `rows, `total, `insertedRows
      ensures Valid()
      ensures var at := if index > |old(rows)| then |old(rows)| else index;
              rows == old(rows)[..at] + [row] + old(rows)[at..]
      ensures total == old(total) + 1 && insertedRows == old(insertedRows) + [row]
      ensures old(FreshInserts()) && row !in base ==> FreshInserts()
    {
      var at := if index > |rows| then |rows| else index;
      hide Balanced;
      BalanceInsert(rows, deletedRows, base, insertedRows, at, row);
      total := total + 1;
      rows := rows[..at] + [row] + rows[at..];
      insertedRows := insertedRows + [row];
    }

    /** The deleteRow method: a row inserted since the reset is forgotten, any other is recorded. */
    method DeleteRow(index: nat)
      requires Valid() && index < |rows|
      modifies `rows, `total, `insertedRows, `deletedRows
      ensures Valid()
      ensures rows == old(rows)[..index] + old(rows)[index + 1..] && total == old(total) - 1
      ensures var row := old(rows)[index];
              if row in old(insertedRows)
              then insertedRows == Dropped(old(insertedRows), row) && deletedRows == old(deletedRows)
              else insertedRows == old(insertedRows) && deletedRows == old(deletedRows) + [row]
      ensures old(FreshInserts()) ==> FreshInserts()
    {
      hide Balanced, Dropped;
      var row := rows[index];
      BalanceDelete(rows, deletedRows, base, insertedRows, index);
      if row in insertedRows {
        DroppedMultiset(insertedRows, row);
        insertedRows := Dropped(insertedRows, row);
      } else {
        OldRow(rows, deletedRows, base, insertedRows, row);
        deletedRows := deletedRows + [row];
      }
      total := total - 1;
      rows := rows[..index] + rows[index + 1..];
    }

    /** endEdit: writes the edited cells into the row object and notes the row as updated, unless it is
        itself new or already noted. */
    method EndEdit(index: nat, edits: Edits)
      requires Valid() && index < |rows|
      modifies `updatedRows, rows[index]
      ensures Valid()
      ensures rows[index].cells == Written(old(rows[index].cells), edits)
      ensures var row := rows[index];
              updatedRows ==
                if AnyDiffers(old(row.cells), edits) && row !in insertedRows && row !in old(updatedRows)
                then old(updatedRows) + [row] else old(updatedRows)
    {
      var row, changed := rows[index], false;
      ghost var was := row.cells;
      assert row !in originalRows;
      for i := 0 to |edits|
        invariant row.cells == Written(was, edits[..i])
        invariant changed == AnyDiffers(was, edits[..i])
        modifies row
      {
        var (field, value) := edits[i];
        assert edits[..i + 1][..i] == edits[..i];
        if field !in row.cells || row.cells[field] != value {
          row.cells := row.cells[field := value];
          changed := true;
        }
      }
      assert edits[..|edits|] == edits;
      if changed && row !in insertedRows && row !in updatedRows {
        updatedRows := updatedRows + [row];
      }
    }

    /** The rollback: the rows have the cells and the total of the last reset again, whatever was
        inserted, deleted or edited in between. */
    method RejectChanges()
      requires Valid()
      modifies this
      ensures Valid() && FreshInserts()
      ensures |rows| == |old(baseCells)| && forall i :: 0 <= i < |rows| ==> rows[i].cells == old(baseCells)[i]
      ensures total == old(baseTotal)
      ensures insertedRows == [] && deletedRows == [] && updatedRows == []
      ensures baseCells == old(baseCells) && baseTotal == old(baseTotal)
    {
      total := total + (|deletedRows| - |insertedRows|);
      rows := originalRows;
      Reset();
    }

    /** Any sequence of changes followed by a rollback: the grid shows the rows of the last reset again. */
    method ChangeAndReject(changes: seq<Change>)
      requires Valid() && forall r :: r in NewRows(changes) ==> r !in originalRows
      modifies this, rows, NewRows(changes)
      ensures Valid() && FreshInserts()
      ensures |rows| == |old(baseCells)| && forall i :: 0 <= i < |rows| ==> rows[i].cells == old(baseCells)[i]
      ensures total == old(baseTotal)
      ensures insertedRows == [] && deletedRows == [] && updatedRows == []
    {
      for k := 0 to |changes|
        invariant Valid()
        invariant originalRows == old(originalRows)
        invariant baseCells == old(baseCells) && baseTotal == old(baseTotal)
        invariant forall r :: r in rows ==> r in old(rows) || r in NewRows(changes)
      {
        match changes[k] {
          case Insert(index, row) =>
            assert changes[k] in changes && row in NewRows(changes);
            InsertRow(index, row);
          case Delete(index) =>
            if index < |rows| {
              DeleteRow(index);
            }
          case Edit(index, edits) =>
            if index < |rows| {
              assert rows[index] in rows;
              EndEdit(index, edits);
            }
        }
      }
      RejectChanges();
    }
  }
}
