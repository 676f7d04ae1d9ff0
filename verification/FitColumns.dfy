/** Sharing the free width of a datagrid among its columns, with a remainder carried to the next call. */
module FitColumns {

  /** The two widths of a column: the outer one that the shares follow, and that of its box. */
  datatype Column = Column(width: int, boxWidth: int)

  /** The columns that take part, and the remainder of the last call. */
  datatype State = State(columns: seq<Column>, left: int)

  function Sum(s: seq<int>): int {
    if s == [] then 0 else Sum(s[..|s| - 1]) + s[|s| - 1]
  }

  function Widths(cs: seq<Column>): seq<int> {
    seq(|cs|, i requires 0 <= i < |cs| => cs[i].width)
  }

  function Boxes(cs: seq<Column>): seq<int> {
    seq(|cs|, i requires 0 <= i < |cs| => cs[i].boxWidth)
  }

  function Abs(x: int): nat {
    if x < 0 then -x else x
  }

  /** `parseInt` on a quotient: the fraction is cut off, towards zero. */
  function TruncDiv(a: int, b: int): int
    requires b > 0
  {
    if a < 0 then -(-a / b) else a / b
  }

  function Part(width: int, be: int, total: int): int
    requires total > 0
  {
    TruncDiv(width * be, total)
  }

  /** What each column gets of `be` pixels, in proportion to its width. */
  function Shares(cs: seq<Column>, be: int, total: int): (s: seq<int>)
    requires total > 0
    ensures |s| == |cs|
  {
    seq(|cs|, i requires 0 <= i < |cs| => Part(cs[i].width, be, total))
  }

  /** The shares, where the last column also pays back the old remainder and takes the new one. */
  function Adding(cs: seq<Column>, left: int, space: int): (a: seq<int>)
    requires Sum(Widths(cs)) > 0
    ensures |a| == |cs|
  {
    var s := Shares(cs, space + left, Sum(Widths(cs)));
    if s == [] then s
    else s[|s| - 1 := -left + s[|s| - 1] + (space + left - Sum(s))]
  }

  function Widened(cs: seq<Column>, a: seq<int>): (r: seq<Column>)
    requires |a| == |cs|
    ensures |r| == |cs|
  {
    seq(|cs|, i requires 0 <= i < |cs| =>
      if cs[i].boxWidth + a[i] > 0 then Column(cs[i].width + a[i], cs[i].boxWidth + a[i]) else cs[i])
  }

  predicate NoneSkipped(cs: seq<Column>, a: seq<int>) {
    |a| == |cs| && forall i :: 0 <= i < |cs| ==> cs[i].boxWidth + a[i] > 0
  }

  /** The space that the boxes leave of `room`. */
  function Space(cs: seq<Column>, room: int): int {
    room - Sum(Boxes(cs))
  }

  function Fitted(s: State, room: int): State {
    var total := Sum(Widths(s.columns));
    if total <= 0 then s
    else
      var space := Space(s.columns, room);
      State(Widened(s.columns, Adding(s.columns, s.left, space)),
            space + s.left - Sum(Shares(s.columns, space + s.left, total)))
  }

  // ----- sums -----

  lemma SumTake(s: seq<int>, i: nat)
    requires i < |s|
    ensures Sum(s[..i + 1]) == Sum(s[..i]) + s[i]
  {
    assert s[..i + 1][..i] == s[..i];
  }

  lemma {:induction false} SumUpdate(s: seq<int>, i: nat, x: int)
    requires i < |s|
    ensures Sum(s[i := x]) == Sum(s) - s[i] + x
  {
    var n := |s| - 1;
    if i < n {
      assert s[i := x][..n] == s[..n][i := x];
      SumUpdate(s[..n], i, x);
    } else {
      assert s[i := x][..n] == s[..n];
    }
  }

  lemma {:induction false} SumPlus(a: seq<int>, b: seq<int>, c: seq<int>)
    requires |a| == |b| == |c| && forall i :: 0 <= i < |a| ==> c[i] == a[i] + b[i]
    ensures Sum(c) == Sum(a) + Sum(b)
  {
    if a != [] {
      var n := |a| - 1;
      SumPlus(a[..n], b[..n], c[..n]);
    }
  }

  lemma {:induction false} SumNegated(a: seq<int>, b: seq<int>)
    requires |a| == |b| && forall i :: 0 <= i < |a| ==> b[i] == -a[i]
    ensures Sum(b) == -Sum(a)
  {
    if a != [] {
      var n := |a| - 1;
      SumNegated(a[..n], b[..n]);
    }
  }

  /** Terms that are not negative add up to at least each of them. */
  lemma {:induction false} SumAtLeast(s: seq<int>, i: nat)
    requires i < |s| && forall k :: 0 <= k < |s| ==> s[k] >= 0
    ensures 0 <= s[i] <= Sum(s)
  {
    var n := |s| - 1;
    if i < n {
      SumAtLeast(s[..n], i);
    } else {
      SumNonNegative(s[..n]);
    }
  }

  lemma {:induction false} SumNonNegative(s: seq<int>)
    requires forall k :: 0 <= k < |s| ==> s[k] >= 0
    ensures Sum(s) >= 0
  {
    if s != [] {
      SumNonNegative(s[..|s| - 1]);
    }
  }

  lemma TotalNonNegative(cs: seq<Column>)
    requires forall i :: 0 <= i < |cs| ==> cs[i].width >= 0
    ensures Sum(Widths(cs)) >= 0
  {
    SumNonNegative(Widths(cs));
  }

  // ----- one call -----

  /** The added widths sum to exactly the free space, whatever remainder was carried in. */
  lemma AddedSum(cs: seq<Column>, left: int, space: int)
    requires Sum(Widths(cs)) > 0
    ensures Sum(Adding(cs, left, space)) == space
  {
    assert cs != [];
    var s := Shares(cs, space + left, Sum(Widths(cs)));
    SumUpdate(s, |s| - 1, -left + s[|s| - 1] + (space + left - Sum(s)));
  }

  lemma FloorBounds(w: int, be: int, total: int)
    requires w >= 0 && be >= 0 && total > 0
    ensures var q := Part(w, be, total); 0 <= q && total * q <= w * be <= total * q + total - 1
  {
    NotNegative(w, be);
    Division(w * be, total);
  }

  lemma NotNegative(a: int, b: int)
    requires a >= 0 && b >= 0
    ensures a * b >= 0
  {
  }

  lemma Division(a: int, b: int)
    requires a >= 0 && b > 0
    ensures 0 <= a / b && b * (a / b) <= a <= b * (a / b) + b - 1
  {
  }

  lemma PartNegated(w: int, be: int, total: int)
    requires w >= 0 && total > 0
    ensures Part(w, -be, total) == -Part(w, be, total)
  {
    NegatedProduct(w, be);
    TruncNegated(w * be, total);
  }

  lemma NegatedProduct(w: int, be: int)
    ensures w * -be == -(w * be)
  {
  }

  lemma TruncNegated(a: int, b: int)
    requires b > 0
    ensures TruncDiv(-a, b) == -TruncDiv(a, b)
  {
    if a == 0 {
      Division(0, b);
    }
  }

  lemma Added(total: int, s: int, q: int, w: int, x: int, be: int, n: int)
    ensures total * (s + q) == total * s + total * q
    ensures (w + x) * be == w * be + x * be
    ensures (n + 1) * (total - 1) == n * (total - 1) + (total - 1)
  {
  }

  lemma {:induction false} ShareSum(cs: seq<Column>, be: int, total: int)
    requires be >= 0 && total > 0 && forall i :: 0 <= i < |cs| ==> cs[i].width >= 0
    ensures var s := Sum(Shares(cs, be, total)); var w := Sum(Widths(cs));
            0 <= s && total * s <= w * be <= total * s + |cs| * (total - 1)
  {
    hide Part;
    if cs != [] {
      var n := |cs| - 1;
      var front := cs[..n];
      ShareSum(front, be, total);
      assert Shares(cs, be, total)[..n] == Shares(front, be, total);
      assert Widths(cs)[..n] == Widths(front);
      FloorBounds(cs[n].width, be, total);
      var s, w, q, x := Sum(Shares(front, be, total)), Sum(Widths(front)), Part(cs[n].width, be, total), cs[n].width;
      Added(total, s, q, w, x, be, n);
    }
  }

  lemma Squeeze(total: int, s: int, be: int, n: nat)
    requires total > 0 && n > 0
    requires total * s <= total * be <= total * s + n * (total - 1)
    ensures 0 <= be - s < n
  {
    assert total * (be - s) >= 0;
    assert total * (be - s) < total * n;
  }

  lemma SharesNegated(cs: seq<Column>, be: int, total: int)
    requires total > 0 && forall i :: 0 <= i < |cs| ==> cs[i].width >= 0
    ensures Sum(Shares(cs, -be, total)) == -Sum(Shares(cs, be, total))
  {
    hide Part;
    var a, b := Shares(cs, be, total), Shares(cs, -be, total);
    forall i | 0 <= i < |cs| ensures b[i] == -a[i] {
      PartNegated(cs[i].width, be, total);
    }
    SumNegated(a, b);
  }

  predicate Usable(cs: seq<Column>) {
    Sum(Widths(cs)) > 0 && forall i :: 0 <= i < |cs| ==> cs[i].width >= 0
  }

  /** What is left of `be` is smaller than the number of columns and has the sign of `be`. */
  lemma Remainder(cs: seq<Column>, be: int)
    requires Usable(cs)
    ensures var rest := be - Sum(Shares(cs, be, Sum(Widths(cs))));
            if be >= 0 then 0 <= rest <= be && rest < |cs| else be <= rest <= 0 && -|cs| < rest
  {
    var total := Sum(Widths(cs));
    assert cs != [];
    ShareSum(cs, Abs(be), total);
    Squeeze(total, Sum(Shares(cs, Abs(be), total)), Abs(be), |cs|);
    if be < 0 {
      SharesNegated(cs, Abs(be), total);
    }
  }

  /** If no column is skipped, the boxes fill the room exactly after a call. */
  lemma Fills(s: State, room: int)
    requires Usable(s.columns)
    requires NoneSkipped(s.columns, Adding(s.columns, s.left, Space(s.columns, room)))
    ensures Space(Fitted(s, room).columns, room) == 0
    ensures Abs(Fitted(s, room).left) < |s.columns|
  {
    hide Part, Sum, Shares, Adding;
    var space := Space(s.columns, room);
    AddedSum(s.columns, s.left, space);
    var t := Fitted(s, room).columns;
    assert forall i :: 0 <= i < |t| ==> t[i].boxWidth == s.columns[i].boxWidth + Adding(s.columns, s.left, space)[i];
    SumPlus(Boxes(s.columns), Adding(s.columns, s.left, space), Boxes(t));
    Remainder(s.columns, space + s.left);
  }

  /** What a call achieves: a remainder smaller than the number of columns, with the sign of what was shared;
      if no column is skipped, boxes that fill the room; both widths of a column grow alike, and those of every
      column but the last in proportion to its width, unless it is skipped because its box would be empty. */
  predicate FitDone(s: State, t: State, room: int) {
    && Usable(s.columns)
    && |t.columns| == |s.columns|
    && Abs(t.left) < |s.columns|
    && (if Space(s.columns, room) + s.left >= 0 then t.left >= 0 else t.left <= 0)
    && (NoneSkipped(s.columns, Adding(s.columns, s.left, Space(s.columns, room))) ==> Space(t.columns, room) == 0)
    && (forall i :: 0 <= i < |s.columns| ==> WidenedAlike(s.columns[i], t.columns[i]))
    && (forall i :: 0 <= i < |s.columns| - 1 && t.columns[i] != s.columns[i] ==>
          Proportional(t.columns[i].width - s.columns[i].width, s.columns[i].width,
                       Space(s.columns, room) + s.left, Sum(Widths(s.columns))))
  }

  /** Both widths of a column grow alike; no box is made empty. */
  predicate WidenedAlike(c: Column, d: Column) {
    && d.width - c.width == d.boxWidth - c.boxWidth
    && (d == c || d.boxWidth > 0)
  }

  /** `q` is `width / total` of `be`, without its fraction. */
  predicate Proportional(q: int, width: int, be: int, total: int) {
    if be >= 0 then 0 <= total * q <= width * be < total * q + total
    else total * q - total < width * be <= total * q <= 0
  }

  lemma PartProportional(w: int, be: int, total: int)
    requires w >= 0 && total > 0
    ensures Proportional(Part(w, be, total), w, be, total)
  {
    hide Part;
    FloorBounds(w, Abs(be), total);
    if be < 0 {
      PartNegated(w, Abs(be), total);
      var q := Part(w, Abs(be), total);
      NegatedProduct(total, q);
      NegatedProduct(w, Abs(be));
      NotNegative(total, q);
    } else {
      NotNegative(total, Part(w, be, total));
    }
  }

  lemma SharedOut(s: State, room: int)
    requires Usable(s.columns)
    ensures var t := Fitted(s, room);
            && |t.columns| == |s.columns|
            && (forall i :: 0 <= i < |s.columns| ==> WidenedAlike(s.columns[i], t.columns[i]))
            && (forall i :: 0 <= i < |s.columns| - 1 && t.columns[i] != s.columns[i] ==>
                  Proportional(t.columns[i].width - s.columns[i].width, s.columns[i].width,
                               Space(s.columns, room) + s.left, Sum(Widths(s.columns))))
  {
    hide Part, Sum, Proportional;
    var cs, be, total := s.columns, Space(s.columns, room) + s.left, Sum(Widths(s.columns));
    var t := Fitted(s, room).columns;
    forall i | 0 <= i < |cs| - 1 && t[i] != cs[i] ensures Proportional(t[i].width - cs[i].width, cs[i].width, be, total) {
      assert t[i].width - cs[i].width == Part(cs[i].width, be, total);
      PartProportional(cs[i].width, be, total);
    }
  }

  lemma FitResult(s: State, room: int)
    requires Usable(s.columns)
    ensures FitDone(s, Fitted(s, room), room)
  {
    hide Part, Sum, Widths, Boxes, Adding, Shares, Widened, WidenedAlike, Proportional;
    Remainder(s.columns, Space(s.columns, room) + s.left);
    SharedOut(s, room);
    if NoneSkipped(s.columns, Adding(s.columns, s.left, Space(s.columns, room))) {
      Fills(s, room);
    }
  }

  // ----- repeated calls -----

  /** The room is filled, and every column is wider than the remainder. */
  predicate Roomy(s: State, room: int) {
    && s.columns != []
    && Space(s.columns, room) == 0
    && forall i :: 0 <= i < |s.columns| ==> s.columns[i].boxWidth > Abs(s.left) && s.columns[i].width > Abs(s.left)
  }

  lemma RoomyUsable(s: State, room: int)
    requires Roomy(s, room)
    ensures Usable(s.columns)
  {
    var w := Widths(s.columns);
    SumAtLeast(w, 0);
    assert w[0] == s.columns[0].width;
  }

  /** No share is larger than what the shares take together. */
  lemma ShareBound(cs: seq<Column>, be: int, total: int, i: nat)
    requires total > 0 && i < |cs| && forall k :: 0 <= k < |cs| ==> cs[k].width >= 0
    ensures var s := Shares(cs, be, total);
            Abs(s[i]) <= Abs(Sum(s)) && Abs(Sum(s) - s[i]) <= Abs(Sum(s)) && (Sum(s) == 0 ==> forall k :: 0 <= k < |s| ==> s[k] == 0)
  {
    hide Part;
    var a := Shares(cs, Abs(be), total);
    forall k | 0 <= k < |cs| ensures a[k] >= 0 {
      FloorBounds(cs[k].width, Abs(be), total);
    }
    forall k | 0 <= k < |cs| ensures 0 <= a[k] <= Sum(a) {
      SumAtLeast(a, k);
    }
    if be < 0 {
      SharesNegated(cs, Abs(be), total);
      forall k | 0 <= k < |cs| ensures Shares(cs, be, total)[k] == -a[k] {
        PartNegated(cs[k].width, Abs(be), total);
      }
    }
  }

  /** One more call on a filled room moves at most the remainder: the remainder shrinks, or nothing changes. */
  lemma Shrinks(s: State, room: int)
    requires Roomy(s, room)
    ensures Roomy(Fitted(s, room), room) && |Fitted(s, room).columns| == |s.columns|
    ensures Abs(Fitted(s, room).left) < Abs(s.left) || Fitted(s, room) == s
  {
    hide Part;
    RoomyUsable(s, room);
    var cs, left, total := s.columns, s.left, Sum(Widths(s.columns));
    var sh, a, t := Shares(cs, left, total), Adding(cs, left, 0), Fitted(s, room);
    Remainder(cs, left);
    var last := |cs| - 1;
    SumUpdate(sh, last, sh[last] - Sum(sh));
    assert t.left == left - Sum(sh) && Abs(Sum(sh)) == Abs(left) - Abs(t.left);
    forall i | 0 <= i < |cs| ensures Abs(a[i]) <= Abs(left) - Abs(t.left) {
      ShareBound(cs, left, total, i);
      assert a[i] == if i == last then sh[i] - Sum(sh) else sh[i];
    }
    assert NoneSkipped(cs, a);
    Fills(s, room);
    if Sum(sh) == 0 {
      ShareBound(cs, left, total, 0);
      assert forall i :: 0 <= i < |cs| ==> t.columns[i] == cs[i];
    }
  }

  function Repeated(s: State, room: int, k: nat): State
    decreases k
  {
    if k == 0 then s else Repeated(Fitted(s, room), room, k - 1)
  }

  /** Calls repeated without a resize settle: after as many calls as the remainder is large, further calls
      change neither a width nor the remainder. */
  lemma {:induction false} Settles(s: State, room: int, k: nat)
    requires Roomy(s, room) && k >= Abs(s.left)
    ensures Fitted(Repeated(s, room, k), room) == Repeated(s, room, k)
    decreases k
  {
    Shrinks(s, room);
    if Fitted(s, room) == s {
      Still(s, room, k);
    } else {
      Settles(Fitted(s, room), room, k - 1);
    }
  }

  /** So a first call that skips no column and leaves each at least as many pixels as there are columns needs
      at most that many calls after it. */
  lemma FitSettles(s: State, room: int)
    requires Usable(s.columns)
    requires NoneSkipped(s.columns, Adding(s.columns, s.left, Space(s.columns, room)))
    requires forall c :: c in Fitted(s, room).columns ==> c.boxWidth >= |s.columns| && c.width >= |s.columns|
    ensures |s.columns| > 0
    ensures var t := Repeated(Fitted(s, room), room, |s.columns| - 1); Fitted(t, room) == t
  {
    hide Part, Sum, Shares, Adding, Repeated;
    Fills(s, room);
    var t := Fitted(s, room);
    assert |t.columns| == |s.columns|;
    Settles(t, room, |s.columns| - 1);
  }

  lemma {:induction false} Still(s: State, room: int, k: nat)
    requires Fitted(s, room) == s
    ensures Repeated(s, room, k) == s
  {
    if k > 0 {
      Still(s, room, k - 1);
    }
  }

  // ----- the program -----

  class View {
    var columns: seq<Column>
    var leftWidth: int

    constructor (columns: seq<Column>)
      ensures this.columns == columns && leftWidth == 0
    {
      this.columns, leftWidth := columns, 0;
    }

    /** The helper `_b9`. `others` is the part of the table that is not the boxes of the fit columns. */
    method Fit(header: int, others: int, scrollbar: int)
      requires forall i :: 0 <= i < |columns| ==> columns[i].width >= 0
      modifies this
      ensures State(columns, leftWidth) == Fitted(State(old(columns), old(leftWidth)), header - others - scrollbar)
      ensures if Sum(Widths(old(columns))) == 0 then columns == old(columns) && leftWidth == old(leftWidth)
              else FitDone(State(old(columns), old(leftWidth)), State(columns, leftWidth), header - others - scrollbar)
    {
      hide Part, Sum, Widths, Boxes, Adding, Shares, FitDone, Widened;
      var total := TotalWidth();
      TotalNonNegative(columns);
      if total == 0 {
        return;
      }
      var table := TableWidth(others);
      var be := header - table - scrollbar + leftWidth;
      var adding, rest := Distribute(total, be);
      FitResult(State(columns, leftWidth), header - others - scrollbar);
      Widen(adding);
      leftWidth := rest;
    }

    /** The shares of the columns, and what is left of `be`. */
    method Distribute(total: int, be: int) returns (adding: array<int>, rest: int)
      requires Usable(columns) && total == Sum(Widths(columns))
      ensures fresh(adding) && adding[..] == Adding(columns, leftWidth, be - leftWidth)
      ensures rest == be - Sum(Shares(columns, be, total))
    {
      hide Part;
      var n := |columns|;
      assert n > 0;
      adding := new int[n](_ => 0);
      adding[n - 1] := adding[n - 1] - leftWidth;
      ghost var all := Shares(columns, be, total);
      rest := be;
      for i := 0 to n
        modifies adding
        invariant rest == be - Sum(all[..i])
        invariant forall k :: 0 <= k < n ==>
                    adding[k] == (if k < i then all[k] else 0) - (if k == n - 1 then leftWidth else 0)
      {
        var share := Part(columns[i].width, be, total);
        SumTake(all, i);
        adding[i] := adding[i] + share;
        rest := rest - share;
      }
      assert all[..n] == all;
      adding[n - 1] := adding[n - 1] + rest;
      var a := Adding(columns, leftWidth, be - leftWidth);
      forall k | 0 <= k < n ensures adding[k] == a[k] {
      }
      assert adding[..] == a;
    }

    method TotalWidth() returns (total: int)
      ensures total == Sum(Widths(columns))
    {
      total := 0;
      for i := 0 to |columns|
        invariant total == Sum(Widths(columns)[..i])
      {
        SumTake(Widths(columns), i);
        total := total + columns[i].width;
      }
      assert Widths(columns)[..|columns|] == Widths(columns);
    }

    method TableWidth(others: int) returns (w: int)
      ensures w == others + Sum(Boxes(columns))
    {
      w := others;
      for i := 0 to |columns|
        invariant w == others + Sum(Boxes(columns)[..i])
      {
        SumTake(Boxes(columns), i);
        w := w + columns[i].boxWidth;
      }
      assert Boxes(columns)[..|columns|] == Boxes(columns);
    }

    method Widen(adding: array<int>)
      requires adding.Length == |columns|
      modifies this`columns
      ensures columns == Widened(old(columns), adding[..])
    {
      ghost var was := columns;
      for i := 0 to |columns|
        invariant |columns| == |was|
        invariant forall k :: 0 <= k < |was| ==> columns[k] == if k < i then Widened(was, adding[..])[k] else was[k]
      {
        var c := columns[i];
        if c.boxWidth + adding[i] > 0 {
          columns := columns[i := Column(c.width + adding[i], c.boxWidth + adding[i])];
        }
      }
    }
  }
}
