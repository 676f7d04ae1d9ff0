/** The datagrid's column headers: which field stands in which slot of the header grid. */
module Columns {
  import opened Wrappers

  /** A header cell; a span of zero stands for one that is not given. */
  datatype Cell = Cell(field: string, colspan: nat, rowspan: nat)

  type Header = seq<seq<Cell>>

  /** For each header cell the grid column of its left edge. */
  type Layout = seq<seq<nat>>

  function Span(n: nat): (s: nat)
    ensures s >= 1 && (n >= 1 ==> s == n) && (n == 0 ==> s == 1)
  {
    if n == 0 then 1 else n
  }

  predicate IsCell(h: Header, i: int, k: int) {
    0 <= i < |h| && 0 <= k < |h[i]|
  }

  predicate SameShape(h: Header, at: Layout) {
    |at| == |h| && forall i :: 0 <= i < |h| ==> |at[i]| == |h[i]|
  }

  /** Cell `(i, k)` lies over slot `(r, c)`. */
  predicate Covers(h: Header, at: Layout, i: int, k: int, r: int, c: int)
    requires SameShape(h, at)
  {
    && IsCell(h, i, k)
    && i <= r < i + Span(h[i][k].rowspan)
    && at[i][k] <= c < at[i][k] + Span(h[i][k].colspan)
  }

  /** Reading order of the header cells. */
  predicate Before(i: int, k: int, i': int, k': int) {
    i < i' || (i == i' && k < k')
  }

  ghost predicate Inside(h: Header, at: Layout, w: nat)
    requires SameShape(h, at)
  {
    forall i, k :: IsCell(h, i, k) ==>
      i + Span(h[i][k].rowspan) <= |h| && at[i][k] + Span(h[i][k].colspan) <= w
  }

  ghost predicate LeftToRight(h: Header, at: Layout)
    requires SameShape(h, at)
  {
    forall i, k, k' :: IsCell(h, i, k) && IsCell(h, i, k') && k < k' ==> at[i][k] < at[i][k']
  }

  ghost predicate NoOverlap(h: Header, at: Layout)
    requires SameShape(h, at)
  {
    forall i, k, i', k', r, c :: Covers(h, at, i, k, r, c) && Covers(h, at, i', k', r, c) ==> i == i' && k == k'
  }

  ghost predicate NoHole(h: Header, at: Layout, w: nat)
    requires SameShape(h, at)
  {
    forall r, c :: 0 <= r < |h| && 0 <= c < w ==> Owned(h, at, r, c)
  }

  ghost predicate Owned(h: Header, at: Layout, r: int, c: int)
    requires SameShape(h, at)
  {
    exists i, k :: Covers(h, at, i, k, r, c)
  }

  /** The cells, placed as `at` says, tile the grid of `|h|` rows and `w` columns, each header row listing
      its own cells from left to right. */
  ghost predicate Tiles(h: Header, at: Layout, w: nat) {
    SameShape(h, at) && Inside(h, at, w) && LeftToRight(h, at) && NoOverlap(h, at) && NoHole(h, at, w)
  }

  // ----- where the first free slot is -----

  /** Whatever lies left of a cell in its first row belongs to a cell that comes earlier. */
  lemma LeftIsEarlier(h: Header, at: Layout, w: nat, i: nat, k: nat, c: nat)
    requires Tiles(h, at, w) && IsCell(h, i, k) && c < at[i][k]
    ensures exists i', k' :: Before(i', k', i, k) && Covers(h, at, i', k', i, c)
  {
    assert Owned(h, at, i, c);
    var i', k' :| Covers(h, at, i', k', i, c);
    assert Before(i', k', i, k);
  }

  /** A header has at most one tiling: the reading order leaves no choice. */
  lemma {:induction false} OneTiling(h: Header, at: Layout, at': Layout, w: nat, i: nat, k: nat)
    requires Tiles(h, at, w) && Tiles(h, at', w) && IsCell(h, i, k)
    ensures at[i][k] == at'[i][k]
    decreases i, k
  {
    if at[i][k] < at'[i][k] {
      Clash(h, at, at', w, i, k);
    } else if at'[i][k] < at[i][k] {
      Clash(h, at', at, w, i, k);
    }
  }

  lemma {:induction false} Clash(h: Header, at: Layout, at': Layout, w: nat, i: nat, k: nat)
    requires Tiles(h, at, w) && Tiles(h, at', w) && IsCell(h, i, k)
    ensures at[i][k] >= at'[i][k]
    decreases i, k, 0
  {
    if at[i][k] < at'[i][k] {
      LeftIsEarlier(h, at', w, i, k, at[i][k]);
      var i', k' :| Before(i', k', i, k) && Covers(h, at', i', k', i, at[i][k]);
      OneTiling(h, at, at', w, i', k');
      assert Covers(h, at, i', k', i, at[i][k]) && Covers(h, at, i, k, i, at[i][k]);
    }
  }

  /** Two rows: a cell over two columns beside one over two rows, and the two columns below. */
  function TwoRows(): Header {
    [[Cell("ab", 2, 0), Cell("c", 0, 2)], [Cell("a", 0, 1), Cell("b", 1, 0)]]
  }

  lemma TwoRowsTile()
    ensures Tiles(TwoRows(), [[0, 2], [0, 1]], 3)
  {
    hide Covers, TwoRows;
    var h, at: Layout := TwoRows(), [[0, 2], [0, 1]];
    TwoRowsShape();
    forall i, k, r, c ensures Covers(h, at, i, k, r, c) <==> InTwoRows(i, k, r, c) {
      TwoRowsCover(i, k, r, c);
    }
    forall r, c | 0 <= r < 2 && 0 <= c < 3 ensures Owned(h, at, r, c) {
      if c == 2 {
        assert Covers(h, at, 0, 1, r, c);
      } else if r == 0 {
        assert Covers(h, at, 0, 0, r, c);
      } else {
        assert Covers(h, at, 1, c, r, c);
      }
    }
  }

  predicate InTwoRows(i: int, k: int, r: int, c: int) {
    || (i == 0 && k == 0 && r == 0 && 0 <= c < 2) || (i == 0 && k == 1 && 0 <= r < 2 && c == 2)
    || (i == 1 && k == 0 && r == 1 && c == 0) || (i == 1 && k == 1 && r == 1 && c == 1)
  }

  lemma TwoRowsShape()
    ensures SameShape(TwoRows(), [[0, 2], [0, 1]]) && |TwoRows()| == |TwoRows()[0]| == |TwoRows()[1]| == 2
    ensures Inside(TwoRows(), [[0, 2], [0, 1]], 3) && LeftToRight(TwoRows(), [[0, 2], [0, 1]])
  {
    var at: Layout := [[0, 2], [0, 1]];
    assert at[0] == [0, 2] && at[1] == [0, 1];
  }

  lemma TwoRowsCover(i: int, k: int, r: int, c: int)
    ensures SameShape(TwoRows(), [[0, 2], [0, 1]])
    ensures Covers(TwoRows(), [[0, 2], [0, 1]], i, k, r, c) <==> InTwoRows(i, k, r, c)
  {
    var at: Layout := [[0, 2], [0, 1]];
    assert at[0] == [0, 2] && at[1] == [0, 1];
  }

  // ----- the width of the grid -----

  function RowWidth(row: seq<Cell>): nat {
    if row == [] then 0 else RowWidth(row[..|row| - 1]) + Span(row[|row| - 1].colspan)
  }

  lemma RowWidthTake(row: seq<Cell>, k: nat)
    requires k < |row|
    ensures RowWidth(row[..k + 1]) == RowWidth(row[..k]) + Span(row[k].colspan)
  {
    assert row[..k + 1][..k] == row[..k];
  }

  /** The cells of the first row stand side by side. */
  lemma {:induction false} FirstRowAt(h: Header, at: Layout, w: nat, k: nat)
    requires Tiles(h, at, w) && |h| > 0 && k < |h[0]|
    ensures at[0][k] == RowWidth(h[0][..k])
  {
    if k > 0 {
      FirstRowAt(h, at, w, k - 1);
      RowWidthTake(h[0], k - 1);
      var edge := at[0][k - 1] + Span(h[0][k - 1].colspan);
      if at[0][k] < edge {
        assert Covers(h, at, 0, k - 1, 0, at[0][k]) && Covers(h, at, 0, k, 0, at[0][k]);
      } else if at[0][k] > edge {
        LeftIsEarlier(h, at, w, 0, k, edge);
        var i', k' :| Before(i', k', 0, k) && Covers(h, at, i', k', 0, edge);
        Adjacent(h, at, w, k', k - 1);
      }
    } else if at[0][0] > 0 {
      LeftIsEarlier(h, at, w, 0, 0, 0);
    }
  }

  /** No first-row cell up to the `last` one reaches the right edge of the `last` one. */
  lemma Adjacent(h: Header, at: Layout, w: nat, k: nat, last: nat)
    requires Tiles(h, at, w) && |h| > 0 && k <= last < |h[0]|
    ensures !Covers(h, at, 0, k, 0, at[0][last] + Span(h[0][last].colspan))
  {
    assert Covers(h, at, 0, last, 0, at[0][last]);
    assert k < last ==> !Covers(h, at, 0, k, 0, at[0][last]);
  }

  /** The spans of the first row add up to the width of the grid. */
  lemma FirstRowWidth(h: Header, at: Layout, w: nat)
    requires Tiles(h, at, w) && |h| > 0
    ensures RowWidth(h[0]) == w
  {
    var n := |h[0]|;
    if n == 0 {
      assert w > 0 ==> Owned(h, at, 0, 0);
    } else {
      FirstRowAt(h, at, w, n - 1);
      RowWidthTake(h[0], n - 1);
      assert h[0][..n] == h[0];
      assert IsCell(h, 0, n - 1);
      var edge := at[0][n - 1] + Span(h[0][n - 1].colspan);
      if edge < w {
        assert Owned(h, at, 0, edge);
        var i, k :| Covers(h, at, i, k, 0, edge);
        Adjacent(h, at, w, k, n - 1);
      }
    }
  }

  // ----- the greedy fill -----

  /** The slots under the cells before `(i, k)` show those cells' fields, and the other slots are free. */
  ghost predicate Filled(h: Header, at: Layout, aa: array2<Option<string>>, i: nat, k: nat)
    requires SameShape(h, at)
    reads aa
  {
    forall r, c :: 0 <= r < aa.Length0 && 0 <= c < aa.Length1 ==> SlotOk(h, at, aa[r, c], i, k, r, c)
  }

  ghost predicate SlotOk(h: Header, at: Layout, slot: Option<string>, i: int, k: int, r: int, c: int)
    requires SameShape(h, at)
  {
    && (forall i', k' :: Before(i', k', i, k) && Covers(h, at, i', k', r, c) ==> slot == Some(h[i'][k'].field))
    && (slot.Some? ==> exists i', k' :: Before(i', k', i, k) && Covers(h, at, i', k', r, c))
  }

  /** The helper `_f1`: the first free slot of row `r`, or -1. */
  method FirstFree(aa: array2<Option<string>>, r: nat) returns (c: int)
    requires r < aa.Length0
    ensures -1 <= c < aa.Length1
    ensures c >= 0 ==> aa[r, c] == None && forall d :: 0 <= d < c ==> aa[r, d] != None
    ensures c < 0 ==> forall d :: 0 <= d < aa.Length1 ==> aa[r, d] != None
  {
    for i := 0 to aa.Length1
      invariant forall d :: 0 <= d < i ==> aa[r, d] != None
    {
      if aa[r, i] == None {
        return i;
      }
    }
    return -1;
  }

  /** Writes a field into a block of slots, all of them free before. */
  method Stamp(aa: array2<Option<string>>, field: string, r0: nat, c0: nat, rs: nat, cs: nat)
    requires r0 + rs <= aa.Length0 && c0 + cs <= aa.Length1
    requires forall r, c :: r0 <= r < r0 + rs && c0 <= c < c0 + cs ==> aa[r, c] == None
    modifies aa
    ensures forall r, c :: 0 <= r < aa.Length0 && 0 <= c < aa.Length1 ==>
              aa[r, c] == if r0 <= r < r0 + rs && c0 <= c < c0 + cs then Some(field) else old(aa[r, c])
  {
    for c := 0 to cs
      invariant forall y, x :: 0 <= y < aa.Length0 && 0 <= x < aa.Length1 ==>
                  aa[y, x] == if r0 <= y < r0 + rs && c0 <= x < c0 + c then Some(field) else old(aa[y, x])
    {
      for r := 0 to rs
        invariant forall y, x :: 0 <= y < aa.Length0 && 0 <= x < aa.Length1 ==>
                    aa[y, x] == if (r0 <= y < r0 + rs && c0 <= x < c0 + c) || (r0 <= y < r0 + r && x == c0 + c)
                                then Some(field) else old(aa[y, x])
      {
        assert aa[r0 + r, c0 + c] == None;
        aa[r0 + r, c0 + c] := Some(field);
      }
    }
  }

  /** Places cell `(i, k)` at the first free slot of its row: that is where the tiling has it. */
  method PlaceCell(h: Header, ghost at: Layout, aa: array2<Option<string>>, i: nat, k: nat) returns (c: int)
    requires Tiles(h, at, aa.Length1) && aa.Length0 == |h| && IsCell(h, i, k) && Filled(h, at, aa, i, k)
    modifies aa
    ensures c == at[i][k]
    ensures forall r, d :: 0 <= r < aa.Length0 && 0 <= d < aa.Length1 ==>
              if Covers(h, at, i, k, r, d) then old(aa[r, d]) == None && aa[r, d] == Some(h[i][k].field)
              else aa[r, d] == old(aa[r, d])
    ensures Filled(h, at, aa, i, k + 1)
  {
    c := FirstFree(aa, i);
    FreeSlot(h, at, aa, i, k);
    assert c == at[i][k];
    if c >= 0 {
      var cell := h[i][k];
      BlockFree(h, at, aa, i, k);
      ghost var was := Slots(aa);
      Stamp(aa, cell.field, i, c, Span(cell.rowspan), Span(cell.colspan));
      NowFilled(h, at, was, aa, i, k);
    }
  }

  ghost function Slots(aa: array2<Option<string>>): (s: seq<seq<Option<string>>>)
    reads aa
    ensures |s| == aa.Length0
    ensures forall r :: 0 <= r < aa.Length0 ==> |s[r]| == aa.Length1
    ensures forall r, c :: 0 <= r < aa.Length0 && 0 <= c < aa.Length1 ==> s[r][c] == aa[r, c]
  {
    seq(aa.Length0, r requires 0 <= r < aa.Length0 reads aa =>
      seq(aa.Length1, c requires 0 <= c < aa.Length1 reads aa => aa[r, c]))
  }

  lemma FreeSlot(h: Header, at: Layout, aa: array2<Option<string>>, i: nat, k: nat)
    requires Tiles(h, at, aa.Length1) && aa.Length0 == |h| && IsCell(h, i, k) && Filled(h, at, aa, i, k)
    ensures at[i][k] < aa.Length1 && aa[i, at[i][k]] == None
    ensures forall c :: 0 <= c < at[i][k] ==> aa[i, c] != None
  {
    assert Covers(h, at, i, k, i, at[i][k]);
    assert SlotOk(h, at, aa[i, at[i][k]], i, k, i, at[i][k]);
    forall c | 0 <= c < at[i][k] ensures aa[i, c] != None {
      LeftIsEarlier(h, at, aa.Length1, i, k, c);
      assert SlotOk(h, at, aa[i, c], i, k, i, c);
    }
  }

  lemma BlockFree(h: Header, at: Layout, aa: array2<Option<string>>, i: nat, k: nat)
    requires Tiles(h, at, aa.Length1) && aa.Length0 == |h| && IsCell(h, i, k) && Filled(h, at, aa, i, k)
    ensures i + Span(h[i][k].rowspan) <= |h| && at[i][k] + Span(h[i][k].colspan) <= aa.Length1
    ensures forall r, c :: i <= r < i + Span(h[i][k].rowspan) && at[i][k] <= c < at[i][k] + Span(h[i][k].colspan)
              ==> aa[r, c] == None
  {
    forall r, c | Covers(h, at, i, k, r, c) ensures r < |h| && c < aa.Length1 && aa[r, c] == None {
      assert SlotOk(h, at, aa[r, c], i, k, r, c);
    }
    forall r, c | i <= r < i + Span(h[i][k].rowspan) && at[i][k] <= c < at[i][k] + Span(h[i][k].colspan)
      ensures aa[r, c] == None
    {
      assert Covers(h, at, i, k, r, c);
    }
  }

  lemma NowFilled(h: Header, at: Layout, was: seq<seq<Option<string>>>, aa: array2<Option<string>>, i: nat, k: nat)
    requires Tiles(h, at, aa.Length1) && aa.Length0 == |h| == |was| && IsCell(h, i, k)
    requires forall r :: 0 <= r < |was| ==> |was[r]| == aa.Length1
    requires forall r, c :: 0 <= r < |h| && 0 <= c < aa.Length1 ==> SlotOk(h, at, was[r][c], i, k, r, c)
    requires forall r, c :: 0 <= r < |h| && 0 <= c < aa.Length1 ==>
               aa[r, c] == if Covers(h, at, i, k, r, c) then Some(h[i][k].field) else was[r][c]
    ensures Filled(h, at, aa, i, k + 1)
  {
    forall r, c | 0 <= r < aa.Length0 && 0 <= c < aa.Length1 ensures SlotOk(h, at, aa[r, c], i, k + 1, r, c) {
      assert SlotOk(h, at, was[r][c], i, k, r, c);
    }
  }

  /** getColumnFields on a header that tiles a grid: every slot is written once, with the field of the
      cell over it, and the result is the last row of the grid. */
  method ColumnFields(h: Header, ghost at: Layout, ghost w: nat) returns (fields: seq<string>)
    requires |h| > 0 ==> Tiles(h, at, w)
    ensures h == [] ==> fields == []
    ensures |h| > 0 ==> |fields| == w
    ensures |h| > 0 ==> forall i, k, c :: Covers(h, at, i, k, |h| - 1, c) ==> c < w && fields[c] == h[i][k].field
  {
    if |h| == 0 {
      return [];
    }
    var width := Width(h[0]);
    FirstRowWidth(h, at, w);
    var aa := new Option<string>[|h|, width]((_, _) => None);
    for i := 0 to |h|
      invariant Filled(h, at, aa, i, 0)
    {
      for k := 0 to |h[i]|
        invariant Filled(h, at, aa, i, k)
      {
        var _ := PlaceCell(h, at, aa, i, k);
      }
      NextRow(h, at, aa, i);
    }
    fields := LastRow(h, at, aa);
  }

  /** The fields of that header, from left to right. */
  method TwoRowsFields() returns (fields: seq<string>)
    ensures fields == ["a", "b", "c"]
  {
    ghost var at: Layout := [[0, 2], [0, 1]];
    TwoRowsTile();
    fields := ColumnFields(TwoRows(), at, 3);
    assert at[0] == [0, 2] && at[1] == [0, 1];
    assert Covers(TwoRows(), at, 1, 0, 1, 0) && Covers(TwoRows(), at, 1, 1, 1, 1) && Covers(TwoRows(), at, 0, 1, 1, 2);
  }

  lemma NextRow(h: Header, at: Layout, aa: array2<Option<string>>, i: nat)
    requires SameShape(h, at) && i < |h| && Filled(h, at, aa, i, |h[i]|)
    ensures Filled(h, at, aa, i + 1, 0)
  {
    forall r, c | 0 <= r < aa.Length0 && 0 <= c < aa.Length1 ensures SlotOk(h, at, aa[r, c], i + 1, 0, r, c) {
      assert SlotOk(h, at, aa[r, c], i, |h[i]|, r, c);
      assert forall i', k' :: IsCell(h, i', k') ==> (Before(i', k', i + 1, 0) <==> Before(i', k', i, |h[i]|));
    }
  }

  /** The helper `_ee`. */
  method Width(row: seq<Cell>) returns (w: nat)
    ensures w == RowWidth(row)
  {
    w := 0;
    for k := 0 to |row|
      invariant w == RowWidth(row[..k])
    {
      RowWidthTake(row, k);
      w := w + Span(row[k].colspan);
    }
    assert row[..|row|] == row;
  }

  method LastRow(h: Header, ghost at: Layout, aa: array2<Option<string>>) returns (fields: seq<string>)
    requires |h| > 0 && aa.Length0 == |h| && Tiles(h, at, aa.Length1) && Filled(h, at, aa, |h|, 0)
    ensures |fields| == aa.Length1
    ensures forall i, k, c :: Covers(h, at, i, k, |h| - 1, c) ==> c < aa.Length1 && fields[c] == h[i][k].field
  {
    fields := [];
    var last := |h| - 1;
    for c := 0 to aa.Length1
      invariant |fields| == c
      invariant forall d :: 0 <= d < c ==> aa[last, d] == Some(fields[d])
    {
      assert Owned(h, at, last, c);
      ghost var i, k :| Covers(h, at, i, k, last, c);
      assert SlotOk(h, at, aa[last, c], |h|, 0, last, c);
      fields := fields + [aa[last, c].value];
    }
    forall i, k, c | Covers(h, at, i, k, last, c) ensures c < aa.Length1 && fields[c] == h[i][k].field {
      assert SlotOk(h, at, aa[last, c], |h|, 0, last, c);
    }
  }
}
