/** Grouping of rows by a field: datalist's groupRows, and propertygrid's group view. */
module Groups {
  import opened Wrappers

  /** A row object and the value of its group field. */
  datatype Row = Row(value: int, obj: nat)

  datatype Group = Group(value: int, rows: seq<Row>, start: int)

  // ----- what a grouping is -----

  /** The rows of one value, in their order. */
  function Filter(rows: seq<Row>, v: int): seq<Row> {
    if rows == [] then []
    else
      var n := |rows| - 1;
      Filter(rows[..n], v) + if rows[n].value == v then [rows[n]] else []
  }

  /** The values that occur, in the order of their first occurrence. */
  function Values(rows: seq<Row>): seq<int> {
    if rows == [] then []
    else
      var vs, v := Values(rows[..|rows| - 1]), rows[|rows| - 1].value;
      if v in vs then vs else vs + [v]
  }

  function Flat(gs: seq<Group>): seq<Row> {
    if gs == [] then [] else Flat(gs[..|gs| - 1]) + gs[|gs| - 1].rows
  }

  /** How many rows come before group `k`. */
  function Offset(gs: seq<Group>, k: nat): nat
    requires k <= |gs|
  {
    if k == 0 then 0 else Offset(gs, k - 1) + |gs[k - 1].rows|
  }

  /** Each start index is the number of rows before. */
  predicate Starts(gs: seq<Group>) {
    forall k :: 0 <= k < |gs| ==> gs[k].start == Offset(gs, k)
  }

  predicate DistinctValues(gs: seq<Group>) {
    forall j, k :: 0 <= j < k < |gs| ==> gs[j].value != gs[k].value
  }

  predicate Uniform(g: Group) {
    g.rows != [] && forall i :: 0 <= i < |g.rows| ==> g.rows[i].value == g.value
  }

  /** Non-empty groups of one value each, no value twice. */
  predicate Grouped(gs: seq<Group>) {
    DistinctValues(gs) && forall k :: 0 <= k < |gs| ==> Uniform(gs[k])
  }

  /** The groups of a list of rows: one for each value, in order of first occurrence, holding the rows of
      that value in their order. */
  predicate IsGrouping(gs: seq<Group>, rows: seq<Row>) {
    && |gs| == |Values(rows)|
    && forall k :: 0 <= k < |gs| ==> gs[k].value == Values(rows)[k] && gs[k].rows == Filter(rows, gs[k].value)
  }

  // ----- values and filters -----

  lemma {:induction false} ValuesDistinct(rows: seq<Row>)
    ensures forall j, k :: 0 <= j < k < |Values(rows)| ==> Values(rows)[j] != Values(rows)[k]
  {
    if rows != [] {
      ValuesDistinct(rows[..|rows| - 1]);
    }
  }

  /** Values come in the order of their first occurrence: more rows only add values at the end. */
  lemma {:induction false} FirstOccurrenceOrder(rows: seq<Row>, i: nat)
    requires i <= |rows|
    ensures Values(rows[..i]) <= Values(rows)
  {
    if i < |rows| {
      var front := rows[..|rows| - 1];
      assert front[..i] == rows[..i];
      FirstOccurrenceOrder(front, i);
    } else {
      assert rows[..i] == rows;
    }
  }

  lemma {:induction false} FilterValue(rows: seq<Row>, v: int)
    ensures forall i :: 0 <= i < |Filter(rows, v)| ==> Filter(rows, v)[i].value == v
  {
    if rows != [] {
      FilterValue(rows[..|rows| - 1], v);
    }
  }

  lemma {:induction false} ValueOccurs(rows: seq<Row>, v: int)
    ensures v in Values(rows) <==> Filter(rows, v) != []
  {
    if rows != [] {
      ValueOccurs(rows[..|rows| - 1], v);
    }
  }

  lemma {:induction false} FilterConcat(a: seq<Row>, b: seq<Row>, v: int)
    ensures Filter(a + b, v) == Filter(a, v) + Filter(b, v)
  {
    if b == [] {
      assert a + b == a;
    } else {
      var n := |b| - 1;
      assert (a + b)[..|a + b| - 1] == a + b[..n];
      FilterConcat(a, b[..n], v);
    }
  }

  lemma {:induction false} FilterUniform(rows: seq<Row>, v: int, w: int)
    requires forall i :: 0 <= i < |rows| ==> rows[i].value == w
    ensures Filter(rows, v) == if v == w then rows else []
  {
    if rows != [] {
      FilterUniform(rows[..|rows| - 1], v, w);
    }
  }

  lemma {:induction false} ValuesOfMore(a: seq<Row>, b: seq<Row>, w: int)
    requires b != [] && w !in Values(a) && forall i :: 0 <= i < |b| ==> b[i].value == w
    ensures Values(a + b) == Values(a) + [w]
  {
    var n := |b| - 1;
    assert (a + b)[..|a + b| - 1] == a + b[..n];
    if n == 0 {
      assert a + b[..n] == a;
    } else {
      ValuesOfMore(a, b[..n], w);
    }
  }

  // ----- from groups to rows and back -----

  /** The flat list of some groups has just their values, in their order. */
  lemma {:induction false} FlatValues(gs: seq<Group>)
    requires Grouped(gs)
    ensures |Values(Flat(gs))| == |gs|
    ensures forall k :: 0 <= k < |gs| ==> Values(Flat(gs))[k] == gs[k].value
  {
    if gs != [] {
      var n := |gs| - 1;
      FlatValues(gs[..n]);
      ValuesOfMore(Flat(gs[..n]), gs[n].rows, gs[n].value);
    }
  }

  /** The rows of one value in the flat list are those of its group. */
  lemma {:induction false} FlatFilter(gs: seq<Group>, v: int)
    requires Grouped(gs)
    ensures forall k :: 0 <= k < |gs| && gs[k].value == v ==> Filter(Flat(gs), v) == gs[k].rows
    ensures (forall k :: 0 <= k < |gs| ==> gs[k].value != v) ==> Filter(Flat(gs), v) == []
  {
    hide Filter, Flat, Uniform;
    if gs == [] {
      NothingFlat(v);
    } else {
      var n := |gs| - 1;
      FlatFilter(gs[..n], v);
      FlatLast(gs);
      FilterConcat(Flat(gs[..n]), gs[n].rows, v);
      GroupFilter(gs[n], v);
    }
  }

  lemma NothingFlat(v: int)
    ensures Filter(Flat([]), v) == []
  {
  }

  lemma FlatLast(gs: seq<Group>)
    requires gs != []
    ensures Flat(gs) == Flat(gs[..|gs| - 1]) + gs[|gs| - 1].rows
  {
  }

  lemma GroupFilter(g: Group, v: int)
    requires Uniform(g)
    ensures Filter(g.rows, v) == if v == g.value then g.rows else []
  {
    FilterUniform(g.rows, v, g.value);
  }

  /** Grouping the flat list of some groups gives those groups again. */
  lemma Regroup(gs: seq<Group>)
    requires Grouped(gs)
    ensures IsGrouping(gs, Flat(gs))
  {
    FlatValues(gs);
    forall k | 0 <= k < |gs| ensures gs[k].rows == Filter(Flat(gs), gs[k].value) {
      FlatFilter(gs, gs[k].value);
    }
  }

  lemma GroupingGrouped(gs: seq<Group>, rows: seq<Row>)
    requires IsGrouping(gs, rows)
    ensures Grouped(gs)
  {
    ValuesDistinct(rows);
    forall k | 0 <= k < |gs| ensures Uniform(gs[k]) {
      FilterValue(rows, gs[k].value);
      ValueOccurs(rows, gs[k].value);
    }
  }

  /** The flat list of a grouping keeps, for every value, the rows of that value in their order. */
  lemma Stable(gs: seq<Group>, rows: seq<Row>, v: int)
    requires IsGrouping(gs, rows)
    ensures Filter(Flat(gs), v) == Filter(rows, v)
  {
    GroupingGrouped(gs, rows);
    FlatFilter(gs, v);
    ValueOccurs(rows, v);
    if v in Values(rows) {
      var k :| 0 <= k < |gs| && Values(rows)[k] == v;
      assert gs[k].value == v;
    }
  }

  lemma {:induction false} FilterCount(rows: seq<Row>, r: Row)
    ensures multiset(Filter(rows, r.value))[r] == multiset(rows)[r]
  {
    if rows != [] {
      var n := |rows| - 1;
      FilterCount(rows[..n], r);
      assert rows == rows[..n] + [rows[n]];
    }
  }

  /** It is a permutation of the rows. */
  lemma Permutation(gs: seq<Group>, rows: seq<Row>)
    requires IsGrouping(gs, rows)
    ensures multiset(Flat(gs)) == multiset(rows)
  {
    forall r: Row ensures multiset(Flat(gs))[r] == multiset(rows)[r] {
      Stable(gs, rows, r.value);
      FilterCount(Flat(gs), r);
      FilterCount(rows, r);
    }
  }

  /** Where a group's rows lie in the flat list. */
  lemma {:induction false} FlatSlice(gs: seq<Group>, k: nat)
    requires k < |gs|
    ensures Offset(gs, k) + |gs[k].rows| == Offset(gs, k + 1) <= |Flat(gs)| == Offset(gs, |gs|)
    ensures Flat(gs)[Offset(gs, k)..Offset(gs, k + 1)] == gs[k].rows
  {
    var n := |gs| - 1;
    OffsetOfFront(gs, n, n);
    FlatLength(gs[..n]);
    if k < n {
      FlatSlice(gs[..n], k);
      OffsetOfFront(gs, n, k);
      OffsetOfFront(gs, n, k + 1);
      assert Flat(gs)[..|Flat(gs[..n])|] == Flat(gs[..n]);
      assert Flat(gs)[Offset(gs, k)..Offset(gs, k + 1)] == Flat(gs[..n])[Offset(gs, k)..Offset(gs, k + 1)];
    }
  }

  lemma {:induction false} FlatLength(gs: seq<Group>)
    ensures |Flat(gs)| == Offset(gs, |gs|)
  {
    if gs != [] {
      var n := |gs| - 1;
      FlatLength(gs[..n]);
      OffsetOfFront(gs, n, n);
    }
  }

  lemma {:induction false} OffsetOfFront(gs: seq<Group>, n: nat, k: nat)
    requires k <= n <= |gs|
    ensures Offset(gs[..n], k) == Offset(gs, k)
  {
    if k > 0 {
      OffsetOfFront(gs, n, k - 1);
    }
  }

  /** Two lists of groups that come from the same rows and have the right start indexes are the same. */
  lemma SameGrouping(a: seq<Group>, b: seq<Group>, rows: seq<Row>, rows': seq<Row>)
    requires IsGrouping(a, rows) && IsGrouping(b, rows') && Starts(a) && Starts(b)
    requires Values(rows) == Values(rows') && forall v :: Filter(rows, v) == Filter(rows', v)
    ensures a == b
  {
    forall k | 0 <= k <= |a| ensures Offset(a, k) == Offset(b, k) {
      SameOffsets(a, b, k);
    }
  }

  lemma {:induction false} SameOffsets(a: seq<Group>, b: seq<Group>, k: nat)
    requires |a| == |b| && k <= |a| && forall j :: 0 <= j < k ==> |a[j].rows| == |b[j].rows|
    ensures Offset(a, k) == Offset(b, k)
  {
    if k > 0 {
      SameOffsets(a, b, k - 1);
    }
  }

  // ----- groupRows -----

  /** The helper `_1c`: the group of a value. */
  method FindGroup(gs: seq<Group>, v: int) returns (k: int)
    ensures -1 <= k < |gs|
    ensures k >= 0 ==> gs[k].value == v && forall j :: 0 <= j < k ==> gs[j].value != v
    ensures k < 0 ==> forall j :: 0 <= j < |gs| ==> gs[j].value != v
  {
    for i := 0 to |gs|
      invariant forall j :: 0 <= j < i ==> gs[j].value != v
    {
      if gs[i].value == v {
        return i;
      }
    }
    return -1;
  }

  /** The first loop of groupRows. */
  method Collect(rows: seq<Row>) returns (gs: seq<Group>)
    ensures IsGrouping(gs, rows)
  {
    gs := [];
    for i := 0 to |rows|
      invariant IsGrouping(gs, rows[..i])
    {
      var k := FindGroup(gs, rows[i].value);
      OneMoreRow(gs, rows[..i], rows[i]);
      assert rows[..i + 1] == rows[..i] + [rows[i]];
      if k < 0 {
        gs := gs + [Group(rows[i].value, [rows[i]], 0)];
      } else {
        gs := gs[k := gs[k].(rows := gs[k].rows + [rows[i]])];
      }
    }
    assert rows[..|rows|] == rows;
  }

  lemma OneMoreRow(gs: seq<Group>, rows: seq<Row>, r: Row)
    requires IsGrouping(gs, rows)
    ensures forall k :: 0 <= k < |gs| && gs[k].value == r.value ==>
              IsGrouping(gs[k := gs[k].(rows := gs[k].rows + [r])], rows + [r])
    ensures (forall k :: 0 <= k < |gs| ==> gs[k].value != r.value) ==>
              IsGrouping(gs + [Group(r.value, [r], 0)], rows + [r])
  {
    hide Filter, Values;
    ValuesDistinct(rows);
    ValueOccurs(rows, r.value);
    RowAppended(rows, r);
    forall v ensures Filter(rows + [r], v) == Filter(rows, v) + if r.value == v then [r] else [] {
      RowFiltered(rows, r, v);
    }
  }

  lemma RowAppended(rows: seq<Row>, r: Row)
    ensures Values(rows + [r]) == if r.value in Values(rows) then Values(rows) else Values(rows) + [r.value]
  {
    assert (rows + [r])[..|rows|] == rows;
  }

  lemma RowFiltered(rows: seq<Row>, r: Row, v: int)
    ensures Filter(rows + [r], v) == Filter(rows, v) + if r.value == v then [r] else []
  {
    assert (rows + [r])[..|rows|] == rows;
  }

  /** The second loop of groupRows: sets the start indexes and puts the groups' rows together. */
  method Number(gs: seq<Group>) returns (out: seq<Group>, rows: seq<Row>)
    ensures |out| == |gs| && Starts(out) && rows == Flat(out) && rows == Flat(gs)
    ensures forall k :: 0 <= k < |gs| ==> out[k].value == gs[k].value && out[k].rows == gs[k].rows
  {
    hide Flat, Offset, Starts;
    out, rows := gs, [];
    var start := 0;
    NoGroups(gs);
    for i := 0 to |gs|
      invariant |out| == |gs| && rows == Flat(gs[..i]) && start == Offset(gs, i)
      invariant forall k :: 0 <= k < |gs| ==> out[k] == if k < i then gs[k].(start := Offset(gs, k)) else gs[k]
    {
      OneMoreGroup(gs, i);
      out := out[i := out[i].(start := start)];
      start := start + |out[i].rows|;
      rows := rows + out[i].rows;
    }
    assert gs[..|gs|] == gs;
    Numbered(gs, out);
    SameFlat(out, gs);
  }

  lemma NoGroups(gs: seq<Group>)
    ensures Flat(gs[..0]) == [] && Offset(gs, 0) == 0
  {
  }

  lemma OneMoreGroup(gs: seq<Group>, i: nat)
    requires i < |gs|
    ensures Flat(gs[..i + 1]) == Flat(gs[..i]) + gs[i].rows && Offset(gs, i + 1) == Offset(gs, i) + |gs[i].rows|
  {
    assert gs[..i + 1][..i] == gs[..i];
  }

  lemma Numbered(gs: seq<Group>, out: seq<Group>)
    requires |out| == |gs| && forall k :: 0 <= k < |gs| ==> out[k] == gs[k].(start := Offset(gs, k))
    ensures Starts(out)
  {
    forall k | 0 <= k < |gs| ensures out[k].start == Offset(out, k) {
      SameOffsets(out, gs, k);
    }
  }

  lemma {:induction false} SameFlat(a: seq<Group>, b: seq<Group>)
    requires |a| == |b| && forall k :: 0 <= k < |a| ==> a[k].rows == b[k].rows
    ensures Flat(a) == Flat(b)
  {
    if a != [] {
      SameFlat(a[..|a| - 1], b[..|b| - 1]);
    }
  }

  /** groupRows: also what propertygrid's onBeforeRender does. */
  method GroupRows(rows: seq<Row>) returns (gs: seq<Group>, flat: seq<Row>)
    ensures IsGrouping(gs, rows) && Starts(gs) && flat == Flat(gs)
    ensures IsGrouping(gs, flat) && multiset(flat) == multiset(rows)
  {
    gs := Collect(rows);
    gs, flat := Number(gs);
    GroupingGrouped(gs, rows);
    Regroup(gs);
    Permutation(gs, rows);
  }

  /** A list of rows has only one grouping with the right start indexes, so grouping the flat list again
      changes nothing. */
  lemma OneGrouping(a: seq<Group>, b: seq<Group>, rows: seq<Row>)
    requires IsGrouping(a, rows) && IsGrouping(b, rows) && Starts(a) && Starts(b)
    ensures a == b && Flat(a) == Flat(b)
  {
    SameGrouping(a, b, rows, rows);
  }

  /** datalist's render runs once for each of the two bodies of a grid: after one run another one changes
      nothing, so both show the same rows and groups. */
  class DataList {
    var rows: seq<Row>
    var groups: seq<Group>

    constructor (rows: seq<Row>)
      ensures this.rows == rows && groups == []
    {
      this.rows, groups := rows, [];
    }

    method Render()
      modifies this
      ensures IsGrouping(groups, old(rows)) && IsGrouping(groups, rows)
      ensures Starts(groups) && rows == Flat(groups) && multiset(rows) == multiset(old(rows))
      ensures old(IsGrouping(groups, rows) && Starts(groups) && rows == Flat(groups)) ==>
                groups == old(groups) && rows == old(rows)
    {
      ghost var was := groups;
      groups, rows := GroupRows(rows);
      if old(IsGrouping(groups, rows) && Starts(groups)) {
        OneGrouping(was, groups, old(rows));
      }
    }
  }

  // ----- inserting and deleting a row of a grouped view -----

  function InsertAt<T>(s: seq<T>, p: nat, x: T): (r: seq<T>)
    requires p <= |s|
    ensures |r| == |s| + 1
  {
    s[..p] + [x] + s[p..]
  }

  function RemoveAt<T>(s: seq<T>, p: nat): (r: seq<T>)
    requires p < |s|
    ensures |r| == |s| - 1
  {
    s[..p] + s[p + 1..]
  }

  function WithRows(gs: seq<Group>, k: nat, rows: seq<Row>): (r: seq<Group>)
    requires k < |gs|
    ensures |r| == |gs|
  {
    gs[k := gs[k].(rows := rows)]
  }

  /** Changing the rows of one group shifts the offsets of the later groups. */
  lemma {:induction false} OffsetWithRows(gs: seq<Group>, k: nat, rows: seq<Row>, j: nat)
    requires k < |gs| && j <= |gs|
    ensures Offset(WithRows(gs, k, rows), j) == Offset(gs, j) + if j > k then |rows| - |gs[k].rows| else 0
  {
    if j > 0 {
      OffsetWithRows(gs, k, rows, j - 1);
    }
  }

  lemma {:induction false} OffsetsRise(gs: seq<Group>, j: nat, k: nat)
    requires j <= k <= |gs|
    ensures Offset(gs, j) <= Offset(gs, k)
    decreases k
  {
    if j < k {
      OffsetsRise(gs, j, k - 1);
    }
  }

  /** A list around the rows of one of its groups. */
  lemma {:induction false} FlatAround(gs: seq<Group>, k: nat, rows: seq<Row>)
    requires k < |gs|
    ensures Offset(gs, k + 1) <= |Flat(gs)|
    ensures Flat(WithRows(gs, k, rows)) == Flat(gs)[..Offset(gs, k)] + rows + Flat(gs)[Offset(gs, k + 1)..]
  {
    hide Starts, IsGrouping, Filter, Values;
    var n := |gs| - 1;
    FlatSlice(gs, k);
    OffsetOfFront(gs, n, k);
    FlatLength(gs[..n]);
    if k == n {
      assert WithRows(gs, k, rows)[..n] == gs[..n];
      OffsetOfFront(gs, n, n);
    } else {
      FlatAround(gs[..n], k, rows);
      OffsetOfFront(gs, n, k + 1);
      assert WithRows(gs, k, rows)[..n] == WithRows(gs[..n], k, rows);
      Spliced(Flat(gs[..n]), gs[n].rows, Offset(gs, k), Offset(gs, k + 1), rows);
    }
  }

  lemma Spliced(a: seq<Row>, b: seq<Row>, i: nat, j: nat, mid: seq<Row>)
    requires i <= j <= |a|
    ensures a[..i] + mid + a[j..] + b == (a + b)[..i] + mid + (a + b)[j..]
  {
    assert (a + b)[..i] == a[..i] && (a + b)[j..] == a[j..] + b;
  }

  lemma FlatInsert(gs: seq<Group>, k: nat, p: nat, row: Row)
    requires k < |gs| && p <= |gs[k].rows|
    ensures Offset(gs, k) + p <= |Flat(gs)|
    ensures Flat(WithRows(gs, k, InsertAt(gs[k].rows, p, row))) == InsertAt(Flat(gs), Offset(gs, k) + p, row)
  {
    hide Flat, Offset, InsertAt, WithRows;
    FlatAround(gs, k, InsertAt(gs[k].rows, p, row));
    FlatSlice(gs, k);
    InsertInside(Flat(gs), Offset(gs, k), Offset(gs, k + 1), p, row);
  }

  lemma InsertInside(s: seq<Row>, i: nat, j: nat, p: nat, row: Row)
    requires i + p <= j <= |s|
    ensures s[..i] + InsertAt(s[i..j], p, row) + s[j..] == InsertAt(s, i + p, row)
  {
    assert s[..i] + s[i..j][..p] == s[..i + p];
    assert s[i..j][p..] + s[j..] == s[i + p..];
  }

  lemma FlatRemove(gs: seq<Group>, k: nat, p: nat)
    requires k < |gs| && p < |gs[k].rows|
    ensures Offset(gs, k) + p < |Flat(gs)|
    ensures Flat(WithRows(gs, k, RemoveAt(gs[k].rows, p))) == RemoveAt(Flat(gs), Offset(gs, k) + p)
  {
    hide Flat, Offset, RemoveAt, WithRows;
    FlatAround(gs, k, RemoveAt(gs[k].rows, p));
    FlatSlice(gs, k);
    RemoveInside(Flat(gs), Offset(gs, k), Offset(gs, k + 1), p);
  }

  lemma RemoveInside(s: seq<Row>, i: nat, j: nat, p: nat)
    requires i + p < j <= |s|
    ensures s[..i] + RemoveAt(s[i..j], p) + s[j..] == RemoveAt(s, i + p)
  {
    assert s[..i] + s[i..j][..p] == s[..i + p];
    assert s[i..j][p + 1..] + s[j..] == s[i + p + 1..];
  }

  /** An emptied group may go. */
  lemma {:induction false} FlatWithout(gs: seq<Group>, k: nat)
    requires k < |gs|
    ensures Flat(RemoveAt(gs, k)) == Flat(WithRows(gs, k, []))
  {
    var n := |gs| - 1;
    if k == n {
      assert RemoveAt(gs, k) == gs[..n];
      assert WithRows(gs, k, [])[..n] == gs[..n];
    } else {
      FlatWithout(gs[..n], k);
      assert RemoveAt(gs, k)[..n - 1] == RemoveAt(gs[..n], k);
      assert WithRows(gs, k, [])[..n] == WithRows(gs[..n], k, []);
    }
  }

  /** A new row goes into two different places only with two different results. */
  lemma InsertPlace(s: seq<Row>, i: nat, j: nat, row: Row)
    requires i <= |s| && j <= |s| && row !in s
    ensures InsertAt(s, i, row) == InsertAt(s, j, row) <==> i == j
  {
    if i < j {
      assert InsertAt(s, i, row)[i] == row && InsertAt(s, j, row)[i] == s[i];
    } else if j < i {
      assert InsertAt(s, j, row)[j] == row && InsertAt(s, i, row)[j] == s[j];
    }
  }

  predicate NoneTwice(s: seq<Row>) {
    forall i, j :: 0 <= i < j < |s| ==> s[i] != s[j]
  }

  lemma RemovePlace(s: seq<Row>, i: nat, j: nat)
    requires i < |s| && j < |s| && NoneTwice(s)
    ensures RemoveAt(s, i) == RemoveAt(s, j) <==> i == j
  {
    if i < j {
      assert RemoveAt(s, i)[i] == s[i + 1] && RemoveAt(s, j)[i] == s[i];
    } else if j < i {
      assert RemoveAt(s, j)[j] == s[j + 1] && RemoveAt(s, i)[j] == s[j];
    }
  }

  predicate HasValue(gs: seq<Group>, v: int) {
    exists k :: 0 <= k < |gs| && gs[k].value == v
  }

  /** Where in a group of `len` rows from `start` on an insertion index leads. */
  function Clamped(index: Option<int>, total: nat, start: int, len: nat): (p: nat)
    ensures p <= len
    ensures index.Some? && start <= index.value <= start + len ==> start + p == index.value
    ensures index.Some? && index.value < start ==> p == 0
    ensures if index.Some? then index.value > start + len ==> p == len else total >= start + len ==> p == len
  {
    var i := if index.None? then total else index.value;
    if i < start then 0 else if i > start + len then len else i - start
  }

  /** Start indexes may lag behind, but do not run ahead. */
  predicate InBounds(gs: seq<Group>) {
    forall k :: 0 <= k < |gs| ==> 0 <= gs[k].start <= Offset(gs, k)
  }

  predicate Sound(gs: seq<Group>, rows: seq<Row>) {
    Grouped(gs) && rows == Flat(gs) && InBounds(gs)
  }

  predicate AsRendered(gs: seq<Group>, rows: seq<Row>) {
    IsGrouping(gs, rows) && Starts(gs) && rows == Flat(gs)
  }

  /** The group view of a propertygrid. */
  class GroupView {
    var groups: seq<Group>
    var rows: seq<Row>

    /** Groups in order, holding the rows of the grid; the start indexes may lag behind. */
    ghost predicate Valid()
      reads this
    {
      Sound(groups, rows)
    }

    /** As a render of the rows would leave it. */
    ghost predicate InStep()
      reads this
    {
      AsRendered(groups, rows)
    }

    constructor ()
      ensures groups == [] && rows == []
    {
      groups, rows := [], [];
    }

    /** onBeforeRender. */
    method BeforeRender(given: seq<Row>)
      modifies this
      ensures IsGrouping(groups, given) && InStep() && multiset(rows) == multiset(given)
    {
      groups, rows := GroupRows(given);
    }

    /** insertRow. */
    method InsertRow(index: Option<int>, row: Row)
      requires Valid()
      modifies this
      ensures Grouped(groups)
      ensures !HasValue(old(groups), row.value) ==>
                && groups == old(groups) + [Group(row.value, [row], |old(rows)|)]
                && rows == old(rows) + [row]
      ensures forall k :: 0 <= k < |old(groups)| && old(groups)[k].value == row.value ==>
                InsertDone(old(groups), old(rows), k, index, row, groups, rows)
      ensures row !in old(rows) ==>
                (rows == Flat(groups) <==> !HasValue(old(groups), row.value) || StartRight(old(groups), row.value))
      ensures !HasValue(old(groups), row.value) || StartRight(old(groups), row.value) ==> rows == Flat(groups)
      ensures rows == Flat(groups) ==> Valid()
      ensures old(Starts(groups)) ==> Valid() && (InStep() <==> NewOrLast(old(groups), row.value))
    {
      hide Flat, Offset, IsGrouping, Starts, Uniform, InsertDone;
      ghost var was := groups;
      var k := FindGroup(groups, row.value);
      if k >= 0 {
        InsertInto(k, index, row);
        assert StartRight(was, row.value) <==> was[k].start == Offset(was, k);
        assert NewOrLast(was, row.value) <==> k == |was| - 1;
      } else {
        groups := groups + [Group(row.value, [row], |rows|)];
        rows := rows + [row];
        NewGroup(was, row);
        NewGroupStarts(was, row);
        Regroup(groups);
      }
    }

    /** The part of insertRow for a value that has a group. */
    method InsertInto(k: nat, index: Option<int>, row: Row)
      requires Valid() && k < |groups| && groups[k].value == row.value
      modifies this
      ensures Grouped(groups) && InsertDone(old(groups), old(rows), k, index, row, groups, rows)
      ensures row !in old(rows) ==> (rows == Flat(groups) <==> old(groups[k].start == Offset(groups, k)))
      ensures old(groups[k].start == Offset(groups, k)) ==> rows == Flat(groups)
      ensures rows == Flat(groups) ==> Valid()
      ensures old(Starts(groups)) ==> Valid() && (InStep() <==> k == |old(groups)| - 1)
    {
      hide Flat, Offset, IsGrouping, Starts, Grouped, AsRendered, Clamped, InsertAt, WithRows;
      ghost var was := groups;
      var g := groups[k];
      var i := if index.None? then |rows| else index.value;
      if i < g.start {
        i := g.start;
      } else if i > g.start + |g.rows| {
        i := g.start + |g.rows|;
      }
      FlatSlice(groups, k);
      ClampedTo(index, |rows|, g.start, |g.rows|, i);
      InsertedInto(groups, k, i - g.start, row);
      rows := InsertAt(rows, i, row);
      groups := WithRows(groups, k, InsertAt(g.rows, i - g.start, row));
    }

    /** deleteRow. */
    method DeleteRow(index: nat)
      requires Valid() && index < |rows|
      modifies this
      ensures Grouped(groups) && Starts(groups)
      ensures rows == RemoveAt(old(rows), index)
      ensures forall k :: 0 <= k < |old(groups)| && InGroup(old(groups), k, index) ==>
                && SameRows(groups, Deleted(old(groups), k, index))
                && (DeletesRight(old(groups), k) ==> InStep())
                && (NoneTwice(old(rows)) ==> (InStep() <==> DeletesRight(old(groups), k)))
      ensures old(Starts(groups)) ==> InStep()
      ensures (rows == Flat(groups) <==> Valid()) && (Valid() <==> InStep())
    {
      hide Flat, Offset, IsGrouping, Starts;
      var k := GroupOf(index);
      rows := RemoveAt(rows, index);
      ghost var was := groups;
      groups := Deleted(groups, k, index);
      DeletedGrouped(was, k, index);
      forall j | 0 <= j < |was| && InGroup(was, j, index) ensures j == k {
        OneGroup(was, j, k, index);
      }
      Restart();
      DeletedFrom(was, k, index);
      SameFlat(groups, Deleted(was, k, index));
      if rows == Flat(groups) {
        Regroup(groups);
      }
      StartsAt(was, k);
      StartsInBounds(groups);
    }

    /** The group whose table holds a row of the grid. */
    method GroupOf(index: nat) returns (k: nat)
      requires rows == Flat(groups) && index < |rows|
      ensures k < |groups| && InGroup(groups, k, index)
    {
      FlatLength(groups);
      k := 0;
      var end := 0;
      while true
        invariant k < |groups| && end == Offset(groups, k) <= index
        decreases |groups| - k
      {
        end := end + |groups[k].rows|;
        if index < end {
          return;
        }
        k := k + 1;
      }
    }

    /** The loop that sets all start indexes anew. */
    method Restart()
      modifies `groups
      ensures Starts(groups) && SameRows(groups, old(groups))
    {
      hide Offset, Starts;
      ghost var was := groups;
      var start := 0;
      NoGroups(groups);
      for i := 0 to |groups|
        invariant |groups| == |was| && start == Offset(was, i)
        invariant forall k :: 0 <= k < |was| ==> groups[k] == if k < i then was[k].(start := Offset(was, k)) else was[k]
      {
        OneMoreGroup(was, i);
        groups := groups[i := groups[i].(start := start)];
        start := start + |groups[i].rows|;
      }
      Numbered(was, groups);
    }
  }

  /** What insertRow does to the group of its row and to the rows of the grid. */
  predicate InsertDone(gs: seq<Group>, rows: seq<Row>, k: nat, index: Option<int>, row: Row,
                       gs': seq<Group>, rows': seq<Row>)
    requires k < |gs|
  {
    var g := gs[k];
    var p := Clamped(index, |rows|, g.start, |g.rows|);
    && 0 <= g.start <= |rows| - |g.rows|
    && gs' == WithRows(gs, k, InsertAt(g.rows, p, row))
    && rows' == InsertAt(rows, g.start + p, row)
  }

  predicate StartRight(gs: seq<Group>, v: int) {
    exists k :: 0 <= k < |gs| && gs[k].value == v && gs[k].start == Offset(gs, k)
  }

  predicate NewOrLast(gs: seq<Group>, v: int) {
    !HasValue(gs, v) || (gs != [] && gs[|gs| - 1].value == v)
  }

  predicate DeletesRight(gs: seq<Group>, k: nat)
    requires k < |gs|
  {
    gs[k].start == Offset(gs, k) || |gs[k].rows| == 1
  }

  lemma StartsInBounds(gs: seq<Group>)
    ensures Starts(gs) ==> InBounds(gs)
  {
  }

  lemma StartsAt(gs: seq<Group>, k: nat)
    requires k < |gs|
    ensures Starts(gs) ==> gs[k].start == Offset(gs, k)
  {
  }

  lemma InsertedGrouped(gs: seq<Group>, k: nat, p: nat, row: Row)
    requires Grouped(gs) && k < |gs| && gs[k].value == row.value && p <= |gs[k].rows|
    ensures Grouped(WithRows(gs, k, InsertAt(gs[k].rows, p, row)))
  {
  }

  /** A new row goes into the flat list where it goes into its group iff the start index of the group is
      right. */
  lemma InsertedFlat(gs: seq<Group>, k: nat, p: nat, row: Row)
    requires k < |gs| && p <= |gs[k].rows| && 0 <= gs[k].start <= Offset(gs, k)
    ensures Offset(gs, k) + |gs[k].rows| <= |Flat(gs)|
    ensures var gs' := WithRows(gs, k, InsertAt(gs[k].rows, p, row)); var rows := InsertAt(Flat(gs), gs[k].start + p, row);
            && (gs[k].start == Offset(gs, k) ==> rows == Flat(gs'))
            && (row !in Flat(gs) ==> (rows == Flat(gs') <==> gs[k].start == Offset(gs, k)))
  {
    hide Flat, Offset, InsertAt, WithRows;
    FlatSlice(gs, k);
    FlatInsert(gs, k, p, row);
    if row !in Flat(gs) {
      InsertPlace(Flat(gs), gs[k].start + p, Offset(gs, k) + p, row);
    }
  }

  /** If all start indexes were right, those of the later groups are one behind after an insertion. */
  lemma InsertedStarts(gs: seq<Group>, k: nat, p: nat, row: Row)
    requires k < |gs| && p <= |gs[k].rows|
    ensures var gs' := WithRows(gs, k, InsertAt(gs[k].rows, p, row));
            Starts(gs) ==>
              && gs[k].start == Offset(gs, k)
              && (forall j :: 0 <= j < |gs| ==>
                    gs'[j].start == Offset(gs', j) - (if j > k then 1 else 0) && 0 <= gs'[j].start)
              && (Starts(gs') <==> k == |gs| - 1)
    ensures InBounds(gs) ==> InBounds(WithRows(gs, k, InsertAt(gs[k].rows, p, row)))
  {
    hide Offset, InsertAt;
    var gs' := WithRows(gs, k, InsertAt(gs[k].rows, p, row));
    forall j | 0 <= j < |gs| ensures Offset(gs', j) == Offset(gs, j) + if j > k then 1 else 0 {
      OffsetWithRows(gs, k, InsertAt(gs[k].rows, p, row), j);
    }
    if Starts(gs) && k < |gs| - 1 {
      assert gs'[k + 1].start == Offset(gs', k + 1) - 1;
    }
  }

  lemma ClampedTo(index: Option<int>, total: nat, start: int, len: nat, i: int)
    requires var given := if index.None? then total else index.value;
             i == if given < start then start else if given > start + len then start + len else given
    ensures i == start + Clamped(index, total, start, len)
  {
  }

  lemma InsertedInto(gs: seq<Group>, k: nat, p: nat, row: Row)
    requires Sound(gs, Flat(gs)) && k < |gs| && gs[k].value == row.value && p <= |gs[k].rows|
    ensures 0 <= gs[k].start && gs[k].start + p <= |Flat(gs)|
    ensures var gs' := WithRows(gs, k, InsertAt(gs[k].rows, p, row)); var rows := InsertAt(Flat(gs), gs[k].start + p, row);
            && Grouped(gs')
            && (gs[k].start == Offset(gs, k) ==> rows == Flat(gs'))
            && (row !in Flat(gs) ==> (rows == Flat(gs') <==> gs[k].start == Offset(gs, k)))
            && (rows == Flat(gs') ==> Sound(gs', rows))
            && (Starts(gs) ==> Sound(gs', rows) && (AsRendered(gs', rows) <==> k == |gs| - 1))
  {
    hide Flat, Offset, IsGrouping, Starts, Uniform, InsertAt, WithRows;
    InsertedGrouped(gs, k, p, row);
    InsertedFlat(gs, k, p, row);
    InsertedStarts(gs, k, p, row);
    Regroup(WithRows(gs, k, InsertAt(gs[k].rows, p, row)));
  }

  lemma NewGroup(gs: seq<Group>, row: Row)
    requires Grouped(gs) && !HasValue(gs, row.value)
    ensures var gs' := gs + [Group(row.value, [row], |Flat(gs)|)]; Grouped(gs') && Flat(gs') == Flat(gs) + [row]
  {
    var gs' := gs + [Group(row.value, [row], |Flat(gs)|)];
    assert gs'[..|gs|] == gs;
    assert forall k :: 0 <= k < |gs| ==> gs'[k] == gs[k] && gs[k].value != row.value;
  }

  lemma NewGroupStarts(gs: seq<Group>, row: Row)
    requires InBounds(gs)
    ensures var gs' := gs + [Group(row.value, [row], |Flat(gs)|)];
            && InBounds(gs')
            && (Starts(gs) ==> Starts(gs'))
  {
    hide Flat, Offset;
    var gs' := gs + [Group(row.value, [row], |Flat(gs)|)];
    assert gs'[..|gs|] == gs;
    FlatLength(gs);
    forall k | 0 <= k <= |gs| ensures Offset(gs', k) == Offset(gs, k) {
      OffsetOfFront(gs', |gs|, k);
    }
  }

  lemma DeletedGrouped(gs: seq<Group>, k: nat, index: nat)
    requires Grouped(gs) && k < |gs| && gs[k].start <= index
    ensures Grouped(Deleted(gs, k, index))
  {
  }

  /** The groups and the grid lose the same row if the start index of its group is right or the group goes
      altogether; if no row occurs twice, only then. */
  lemma DeletedFrom(gs: seq<Group>, k: nat, index: nat)
    requires Grouped(gs) && k < |gs| && InGroup(gs, k, index) && 0 <= gs[k].start <= Offset(gs, k)
    ensures index < |Flat(gs)|
    ensures DeletesRight(gs, k) ==> Flat(Deleted(gs, k, index)) == RemoveAt(Flat(gs), index)
    ensures NoneTwice(Flat(gs)) && Flat(Deleted(gs, k, index)) == RemoveAt(Flat(gs), index) ==> DeletesRight(gs, k)
  {
    hide Flat, Offset, RemoveAt, WithRows, NoneTwice;
    var g, p := gs[k], index - gs[k].start;
    FlatSlice(gs, k);
    assert Uniform(g);
    if |g.rows| == 1 {
      FlatRemove(gs, k, 0);
      assert RemoveAt(g.rows, 0) == [];
      FlatWithout(gs, k);
    } else if p < |g.rows| {
      FlatRemove(gs, k, p);
      if NoneTwice(Flat(gs)) {
        RemovePlace(Flat(gs), Offset(gs, k) + p, index);
      }
    }
  }

  predicate SameRows(a: seq<Group>, b: seq<Group>) {
    |a| == |b| && forall k :: 0 <= k < |a| ==> a[k].value == b[k].value && a[k].rows == b[k].rows
  }

  predicate InGroup(gs: seq<Group>, k: nat, index: nat)
    requires k < |gs|
  {
    Offset(gs, k) <= index < Offset(gs, k) + |gs[k].rows|
  }

  lemma OneGroup(gs: seq<Group>, j: nat, k: nat, index: nat)
    requires j < |gs| && k < |gs| && InGroup(gs, j, index) && InGroup(gs, k, index)
    ensures j == k
  {
    if j < k {
      OffsetsRise(gs, j + 1, k);
    } else if k < j {
      OffsetsRise(gs, k + 1, j);
    }
  }

  /** The groups after a row of group `k` went, as the start index of the group tells which; a splice beyond
      the end takes nothing. */
  function Deleted(gs: seq<Group>, k: nat, index: nat): seq<Group>
    requires k < |gs| && gs[k].start <= index
  {
    var g := gs[k];
    if |g.rows| <= 1 then RemoveAt(gs, k)
    else if index - g.start < |g.rows| then WithRows(gs, k, RemoveAt(g.rows, index - g.start))
    else gs
  }

  // ----- whole runs -----

  datatype Call = Insert(at: Option<int>, row: Row) | Delete(index: nat)

  /** The condition for a call to leave groups and grid in step: the start index that it goes by is right,
      or not needed. */
  predicate CallRight(gs: seq<Group>, c: Call) {
    match c
    case Insert(_, row) => !HasValue(gs, row.value) || StartRight(gs, row.value)
    case Delete(index) => forall k :: 0 <= k < |gs| && InGroup(gs, k, index) ==> DeletesRight(gs, k)
  }

  /** The rows that a run inserts. */
  function NewRows(calls: seq<Call>): seq<Row> {
    if calls == [] then []
    else (if calls[0].Insert? then [calls[0].row] else []) + NewRows(calls[1..])
  }

  lemma InsertNoneTwice(s: seq<Row>, p: nat, row: Row)
    requires p <= |s| && NoneTwice(s) && row !in s
    ensures NoneTwice(InsertAt(s, p, row))
    ensures forall x :: x in InsertAt(s, p, row) <==> x in s || x == row
  {
    var t, n := InsertAt(s, p, row), |s|;
    assert t[p] == row;
    assert forall i :: 0 <= i < p ==> t[i] == s[i];
    assert forall i :: p <= i < n ==> t[i + 1] == s[i];
    forall i, j | 0 <= i < j < |t| ensures t[i] != t[j] {
      var a, b := if i < p then i else i - 1, if j < p then j else j - 1;
      assert i != p ==> t[i] == s[a] && s[a] in s;
      assert j != p ==> t[j] == s[b] && s[b] in s;
    }
    InsertMembers(s, p, row);
  }

  lemma InsertMembers(s: seq<Row>, p: nat, row: Row)
    requires p <= |s|
    ensures forall x :: x in InsertAt(s, p, row) <==> x in s || x == row
  {
    assert s == s[..p] + s[p..];
    assert InsertAt(s, p, row) == s[..p] + ([row] + s[p..]);
  }

  lemma RemoveNoneTwice(s: seq<Row>, p: nat)
    requires p < |s| && NoneTwice(s)
    ensures NoneTwice(RemoveAt(s, p))
    ensures forall x :: x in RemoveAt(s, p) ==> x in s
  {
    var t := RemoveAt(s, p);
    assert forall i :: 0 <= i < |t| ==> t[i] == s[if i < p then i else i + 1];
  }

  /** One call on a view in step: it stays in step iff the call is right. */
  method PlayOne(v: GroupView, c: Call)
    requires v.Valid() && NoneTwice(v.rows)
    requires if c.Insert? then c.row !in v.rows else c.index < |v.rows|
    modifies v
    ensures v.Valid() <==> CallRight(old(v.groups), c)
    ensures v.Valid() <==> v.rows == Flat(v.groups)
    ensures NoneTwice(v.rows) && forall r :: r in v.rows ==> r in old(v.rows) || (c.Insert? && r == c.row)
  {
    hide Flat, Offset, IsGrouping, Starts, Grouped, Uniform, InGroup, DeletesRight, Deleted, SameRows, AsRendered;
    ghost var gs := v.groups;
    match c {
      case Insert(index, row) =>
        v.InsertRow(index, row);
        InsertedRows(gs, old(v.rows), index, row, v.groups, v.rows);
      case Delete(index) =>
        RemoveNoneTwice(v.rows, index);
        v.DeleteRow(index);
        OwnGroup(gs, index);
    }
  }

  /** Every row of the grid lies in a group. */
  lemma OwnGroup(gs: seq<Group>, index: nat)
    requires index < |Flat(gs)|
    ensures exists k :: 0 <= k < |gs| && InGroup(gs, k, index)
  {
    FlatLength(gs);
    LastBefore(gs, |gs|, index);
  }

  lemma {:induction false} LastBefore(gs: seq<Group>, n: nat, index: nat)
    requires n <= |gs| && index < Offset(gs, n)
    ensures exists k :: 0 <= k < |gs| && InGroup(gs, k, index)
  {
    if index < Offset(gs, n - 1) {
      LastBefore(gs, n - 1, index);
    } else {
      assert InGroup(gs, n - 1, index);
    }
  }

  lemma InsertedRows(gs: seq<Group>, rows: seq<Row>, index: Option<int>, row: Row, gs': seq<Group>, rows': seq<Row>)
    requires NoneTwice(rows) && row !in rows
    requires !HasValue(gs, row.value) ==> rows' == rows + [row]
    requires forall k :: 0 <= k < |gs| && gs[k].value == row.value ==> InsertDone(gs, rows, k, index, row, gs', rows')
    ensures NoneTwice(rows') && forall r :: r in rows' ==> r in rows || r == row
  {
    hide NoneTwice;
    if HasValue(gs, row.value) {
      var k :| 0 <= k < |gs| && gs[k].value == row.value;
      var g := gs[k];
      InsertNoneTwice(rows, g.start + Clamped(index, |rows|, g.start, |g.rows|), row);
    } else {
      InsertNoneTwice(rows, |rows|, row);
      assert InsertAt(rows, |rows|, row) == rows + [row];
    }
  }

  /** A run of calls on a view in step goes on as long as every call is right; after the first one that is
      not, groups and grid differ. `trace` records the groups before each call. */
  method Play(v: GroupView, calls: seq<Call>) returns (played: nat, ghost trace: seq<seq<Group>>)
    requires v.Valid() && NoneTwice(v.rows + NewRows(calls))
    modifies v
    ensures played <= |calls|
    ensures |trace| == if played < |calls| then played + 1 else played
    ensures forall i :: 0 <= i < played ==> CallRight(trace[i], calls[i]) || BeyondEnd(trace[i], calls[i])
    ensures played == |calls| ==> v.Valid()
    ensures played < |calls| ==> v.rows != Flat(v.groups) && !CallRight(trace[played], calls[played])
  {
    hide Flat, Offset, IsGrouping, Starts, Grouped, CallRight;
    trace := [];
    OldAndNew(v.rows, calls);
    for i := 0 to |calls|
      invariant |trace| == i && v.Valid() && NoneTwice(v.rows) && NoneTwice(NewRows(calls[i..]))
      invariant forall r :: r in v.rows ==> r !in NewRows(calls[i..])
      invariant forall j :: 0 <= j < i ==> CallRight(trace[j], calls[j]) || BeyondEnd(trace[j], calls[j])
    {
      trace := trace + [v.groups];
      NextNew(calls, i);
      var c := calls[i];
      if c.Insert? || c.index < |v.rows| {
        PlayOne(v, c);
        var same := SameRowsAs(v);
        if !same {
          return i, trace;
        }
      }
    }
    played := |calls|;
  }

  /** A delete call for a row that is not there. */
  predicate BeyondEnd(gs: seq<Group>, c: Call) {
    c.Delete? && c.index >= |Flat(gs)|
  }

  /** Compares the rows of the grid with those of the groups. */
  method SameRowsAs(v: GroupView) returns (same: bool)
    ensures same == (v.rows == Flat(v.groups))
  {
    var gs, rows := Number(v.groups);
    same := v.rows == rows;
  }

  lemma OldAndNew(rows: seq<Row>, calls: seq<Call>)
    requires NoneTwice(rows + NewRows(calls))
    ensures NoneTwice(rows) && NoneTwice(NewRows(calls)) && calls[0..] == calls
    ensures forall r :: r in rows ==> r !in NewRows(calls)
  {
    var added := NewRows(calls);
    var all := rows + added;
    assert forall i :: 0 <= i < |rows| ==> all[i] == rows[i];
    assert forall j :: 0 <= j < |added| ==> all[|rows| + j] == added[j];
  }

  lemma NextNew(calls: seq<Call>, i: nat)
    requires i < |calls| && NoneTwice(NewRows(calls[i..]))
    ensures NoneTwice(NewRows(calls[i + 1..]))
    ensures forall r :: r in NewRows(calls[i + 1..]) ==> r in NewRows(calls[i..])
    ensures calls[i].Insert? ==> calls[i].row in NewRows(calls[i..]) && calls[i].row !in NewRows(calls[i + 1..])
  {
    assert calls[i..][1..] == calls[i + 1..];
    var now, next := NewRows(calls[i..]), NewRows(calls[i + 1..]);
    if calls[i].Insert? {
      assert now == [calls[i].row] + next;
      assert forall j :: 0 <= j < |next| ==> now[j + 1] == next[j];
      assert now[0] == calls[i].row;
    } else {
      assert now == next;
    }
  }

  // ----- an insertion followed by a deletion -----

  /** Both values occur, `b` after `a`. */
  predicate Later(vs: seq<int>, a: int, b: int) {
    exists i, j :: 0 <= i < j < |vs| && vs[i] == a && vs[j] == b
  }

  lemma MultisetNoneTwice(a: seq<Row>, b: seq<Row>)
    requires NoneTwice(a) && multiset(a) == multiset(b)
    ensures NoneTwice(b)
  {
    forall i, j | 0 <= i < j < |b| ensures b[i] != b[j] {
      if b[i] == b[j] {
        var x := b[i];
        assert b == b[..i] + [x] + b[i + 1..j] + [x] + b[j + 1..];
        assert multiset(b)[x] >= 2;
        AtMostOnce(a, x);
      }
    }
  }

  lemma {:induction false} AtMostOnce(s: seq<Row>, x: Row)
    requires NoneTwice(s)
    ensures multiset(s)[x] <= 1
    ensures x !in s ==> multiset(s)[x] == 0
  {
    if s != [] {
      var rest := s[1..];
      assert s == [s[0]] + rest;
      AtMostOnce(rest, x);
      assert s[0] !in rest;
    }
  }

  /** Which row a group view after an insertion deletes wrongly. */
  lemma DeletesAfterInsert(given: seq<Row>, gs: seq<Group>, k: nat, p: nat, row: Row, j: nat, index: nat)
    requires IsGrouping(gs, given) && Starts(gs)
    requires k < |gs| && gs[k].value == row.value && p <= |gs[k].rows|
    requires j < |gs| && InGroup(WithRows(gs, k, InsertAt(gs[k].rows, p, row)), j, index)
    ensures var gs' := WithRows(gs, k, InsertAt(gs[k].rows, p, row));
            && index < |Flat(gs')| && Flat(gs')[index].value == gs[j].value
            && (DeletesRight(gs', j)
                <==> !(Later(Values(given), row.value, gs[j].value) && |Filter(given, gs[j].value)| > 1))
  {
    hide Flat, Offset, Starts, Values, Filter, InsertAt;
    var gs' := WithRows(gs, k, InsertAt(gs[k].rows, p, row));
    GroupingGrouped(gs, given);
    InsertedGrouped(gs, k, p, row);
    RowOfGroup(gs', j, index);
    InsertedStarts(gs, k, p, row);
    LaterIff(given, gs, k, j);
  }

  lemma LaterIff(given: seq<Row>, gs: seq<Group>, k: nat, j: nat)
    requires IsGrouping(gs, given) && k < |gs| && j < |gs|
    ensures Later(Values(given), gs[k].value, gs[j].value) <==> k < j
  {
    hide Values, Filter;
    ValuesDistinct(given);
    assert Values(given)[k] == gs[k].value && Values(given)[j] == gs[j].value;
  }

  lemma RowOfGroup(gs: seq<Group>, k: nat, index: nat)
    requires Grouped(gs) && k < |gs| && InGroup(gs, k, index)
    ensures index < |Flat(gs)| && Flat(gs)[index].value == gs[k].value
  {
    hide Flat, Offset;
    FlatSlice(gs, k);
    var i := index - Offset(gs, k);
    assert Flat(gs)[index] == Flat(gs)[Offset(gs, k)..Offset(gs, k + 1)][i] == gs[k].rows[i];
    assert Uniform(gs[k]);
  }

  lemma NewIsNotLater(given: seq<Row>, gs: seq<Group>, v: int, w: int)
    requires IsGrouping(gs, given) && !HasValue(gs, v)
    ensures !Later(Values(given), v, w)
  {
    assert forall i :: 0 <= i < |gs| ==> Values(given)[i] == gs[i].value != v;
  }

  /** A row inserted into a freshly rendered view, and then a row deleted: the view keeps in step unless the
      deleted row's group comes later than that of the inserted row and has further rows. */
  method InsertThenDelete(v: GroupView, given: seq<Row>, at: Option<int>, row: Row, index: nat) returns (gone: Row)
    requires NoneTwice(given) && row !in given && index <= |given|
    modifies v
    ensures v.rows == Flat(v.groups)
            <==> !(Later(Values(given), row.value, gone.value) && |Filter(given, gone.value)| > 1)
    ensures index == |given| && row.value in Values(given) ==> gone.value == Values(given)[|Values(given)| - 1]
  {
    hide Flat, Offset, IsGrouping, Starts, Values, Filter, NoneTwice, Later, DeletesRight, Deleted, SameRows, Clamped;
    v.BeforeRender(given);
    ghost var gs, rows := v.groups, v.rows;
    MultisetNoneTwice(given, rows);
    SameMembers(given, rows);
    StartsInBounds(gs);
    FlatLength(gs);
    GroupingGrouped(gs, given);
    v.InsertRow(at, row);
    ghost var gs' := v.groups;
    InsertedRows(gs, rows, at, row, gs', v.rows);
    assert |v.rows| == |given| + 1 by { OneRowMore(given, rows, gs, at, row, gs', v.rows); }
    gone := v.rows[index];
    OwnGroup(gs', index);
    ghost var j :| 0 <= j < |gs'| && InGroup(gs', j, index);
    ValueHasGroup(given, gs, row.value);
    v.DeleteRow(index);
    if HasValue(gs, row.value) {
      LastRowGroup(gs', j, index);
      ghost var k :| 0 <= k < |gs| && gs[k].value == row.value;
      DeletesAfterInsert(given, gs, k, Clamped(at, |rows|, gs[k].start, |gs[k].rows|), row, j, index);
    } else {
      NewIsNotLater(given, gs, row.value, gone.value);
      NewGroupStarts(gs, row);
    }
  }

  lemma SameMembers(a: seq<Row>, b: seq<Row>)
    requires multiset(a) == multiset(b)
    ensures |a| == |b| && forall r :: r in a <==> r in b
  {
    assert |a| == |multiset(a)| == |multiset(b)| == |b|;
    forall r ensures r in a <==> r in b {
      assert r in a <==> r in multiset(a);
      assert r in b <==> r in multiset(b);
    }
  }

  lemma ValueHasGroup(given: seq<Row>, gs: seq<Group>, v: int)
    requires IsGrouping(gs, given)
    ensures |gs| == |Values(given)| && (HasValue(gs, v) <==> v in Values(given))
    ensures gs != [] ==> gs[|gs| - 1].value == Values(given)[|gs| - 1]
  {
    if v in Values(given) {
      var k :| 0 <= k < |gs| && Values(given)[k] == v;
      assert gs[k].value == v;
    }
  }

  /** The last row lies in the last group. */
  lemma LastRowGroup(gs: seq<Group>, j: nat, index: nat)
    requires Grouped(gs) && j < |gs| && InGroup(gs, j, index)
    ensures index == |Flat(gs)| - 1 ==> j == |gs| - 1
  {
    hide Flat;
    FlatLength(gs);
    var n := |gs| - 1;
    assert Uniform(gs[n]);
    if j < n {
      OffsetsRise(gs, j + 1, n);
    }
  }

  lemma OneRowMore(given: seq<Row>, rows: seq<Row>, gs: seq<Group>, index: Option<int>, row: Row, gs': seq<Group>,
                   rows': seq<Row>)
    requires |given| == |rows|
    requires !HasValue(gs, row.value) ==> rows' == rows + [row]
    requires forall k :: 0 <= k < |gs| && gs[k].value == row.value ==> InsertDone(gs, rows, k, index, row, gs', rows')
    ensures |rows'| == |given| + 1
  {
    if HasValue(gs, row.value) {
      var k :| 0 <= k < |gs| && gs[k].value == row.value;
      assert InsertDone(gs, rows, k, index, row, gs', rows');
    }
  }

  /** A view for which that goes wrong: three rows of two groups, a fourth row put into the first group, and
      the last row deleted. */
  method InsertThenDeleteBreaks() returns (v: GroupView)
    ensures fresh(v) && v.rows != Flat(v.groups)
  {
    hide Flat, IsGrouping, NoneTwice;
    v := new GroupView();
    var given := [Row(1, 1), Row(2, 2), Row(2, 3)];
    ThreeRows(given);
    var gone := InsertThenDelete(v, given, None, Row(1, 4), 3);
  }

  lemma ThreeRows(given: seq<Row>)
    requires given == [Row(1, 1), Row(2, 2), Row(2, 3)]
    ensures NoneTwice(given) && Values(given) == [1, 2] && |Filter(given, 2)| == 2 && Later([1, 2], 1, 2)
  {
    var two, one := given[..2], given[..1];
    assert one == two[..1] && one[..0] == [];
    assert Values([]) == [] && Filter([], 2) == [];
    assert Values(one) == [] + [1] && Filter(one, 2) == [] + [];
    assert Values(two) == [1, 2] && Filter(two, 2) == [Row(2, 2)];
    var vs := [1, 2];
    assert vs[0] == 1 && vs[1] == 2;
  }
}
