/** Sorting by several columns, and the recursive sort of a treegrid. */
module Sorts {
  import opened Forest
  import opened Wrappers

  /** A sort column: its name, its direction and its sorter. */
  datatype Key = Key(name: string, ascending: bool, sorter: (int, int) -> int)

  /** The value of a row in a column. */
  type Cells = (Id, string) -> int

  /** Negative or zero means "not after": any two are comparable either way round, and it is transitive. */
  ghost predicate TotalPreorder<T(!new)>(f: (T, T) -> int) {
    && (forall a, b :: f(a, b) < 0 <==> f(b, a) > 0)
    && (forall a, b, c :: f(a, b) <= 0 && f(b, c) <= 0 ==> f(a, c) <= 0)
  }

  /** The sorter of a column that names none. */
  function DefaultSorter(a: int, b: int): int {
    if a == b then 0 else if a > b then 1 else -1
  }

  lemma DefaultIsTotalPreorder()
    ensures TotalPreorder(DefaultSorter)
    ensures forall a, b :: (DefaultSorter(a, b) < 0 <==> a < b) && (DefaultSorter(a, b) == 0 <==> a == b)
  {
  }

  /** The comparison by one column. */
  function ByKey(k: Key, cell: Cells, a: Id, b: Id): int {
    k.sorter(cell(a, k.name), cell(b, k.name)) * (if k.ascending then 1 else -1)
  }

  /** The first column that tells two rows apart decides. */
  function Compare(keys: seq<Key>, cell: Cells, a: Id, b: Id): int {
    if keys == [] then 0
    else if ByKey(keys[0], cell, a, b) != 0 then ByKey(keys[0], cell, a, b)
    else Compare(keys[1..], cell, a, b)
  }

  ghost predicate GoodKeys(keys: seq<Key>) {
    forall k :: k in keys ==> TotalPreorder(k.sorter)
  }

  /** Which way the comparator goes, by the sorters themselves: `a` comes before `b` iff the first column whose
      sorter tells them apart puts it before, if it is ascending, or behind, if it is descending. */
  lemma {:induction false} Direction(keys: seq<Key>, cell: Cells, a: Id, b: Id, i: nat)
    requires i <= |keys| && forall j :: 0 <= j < i ==> keys[j].sorter(cell(a, keys[j].name), cell(b, keys[j].name)) == 0
    ensures i == |keys| ==> Compare(keys, cell, a, b) == 0
    ensures i < |keys| ==>
              var d := keys[i].sorter(cell(a, keys[i].name), cell(b, keys[i].name));
              d != 0 ==>
                && (Compare(keys, cell, a, b) < 0 <==> if keys[i].ascending then d < 0 else d > 0)
                && (Compare(keys, cell, a, b) > 0 <==> if keys[i].ascending then d > 0 else d < 0)
  {
    if i > 0 {
      assert keys[0].sorter(cell(a, keys[0].name), cell(b, keys[0].name)) == 0;
      assert forall j :: 0 <= j < |keys| - 1 ==> keys[1..][j] == keys[j + 1];
      Direction(keys[1..], cell, a, b, i - 1);
    }
  }

  /** The comparator's loop over the columns. */
  method CompareRows(keys: seq<Key>, cell: Cells, a: Id, b: Id) returns (r: int)
    ensures r == Compare(keys, cell, a, b)
  {
    r := 0;
    for i := 0 to |keys|
      invariant r == 0 && Compare(keys, cell, a, b) == Compare(keys[i..], cell, a, b)
    {
      r := keys[i].sorter(cell(a, keys[i].name), cell(b, keys[i].name)) * (if keys[i].ascending then 1 else -1);
      if r != 0 {
        return;
      }
      assert keys[i..][1..] == keys[i + 1..];
    }
  }

  lemma ByKeyIsTotalPreorder(k: Key, cell: Cells, a: Id, b: Id, c: Id)
    requires TotalPreorder(k.sorter)
    ensures ByKey(k, cell, a, b) < 0 <==> ByKey(k, cell, b, a) > 0
    ensures ByKey(k, cell, a, b) <= 0 && ByKey(k, cell, b, c) <= 0 ==> ByKey(k, cell, a, c) <= 0
  {
    var x, y, z := cell(a, k.name), cell(b, k.name), cell(c, k.name);
    assert k.sorter(x, y) < 0 <==> k.sorter(y, x) > 0;
    assert k.sorter(y, x) < 0 <==> k.sorter(x, y) > 0;
    assert k.sorter(y, z) < 0 <==> k.sorter(z, y) > 0;
    assert k.sorter(z, y) < 0 <==> k.sorter(y, z) > 0;
    assert k.sorter(x, z) < 0 <==> k.sorter(z, x) > 0;
    assert k.sorter(z, x) < 0 <==> k.sorter(x, z) > 0;
    assert k.sorter(z, y) <= 0 && k.sorter(y, x) <= 0 ==> k.sorter(z, x) <= 0;
  }

  /** A strict step in front of or behind a weak one is strict. */
  lemma ByKeyStrict(k: Key, cell: Cells, a: Id, b: Id, c: Id)
    requires TotalPreorder(k.sorter)
    ensures ByKey(k, cell, a, b) < 0 && ByKey(k, cell, b, c) <= 0 ==> ByKey(k, cell, a, c) < 0
    ensures ByKey(k, cell, a, b) <= 0 && ByKey(k, cell, b, c) < 0 ==> ByKey(k, cell, a, c) < 0
  {
    hide TotalPreorder, ByKey;
    ByKeyIsTotalPreorder(k, cell, a, b, c);
    ByKeyIsTotalPreorder(k, cell, b, a, c);
    ByKeyIsTotalPreorder(k, cell, b, c, a);
    ByKeyIsTotalPreorder(k, cell, c, a, b);
    ByKeyIsTotalPreorder(k, cell, c, b, a);
    ByKeyIsTotalPreorder(k, cell, a, c, b);
  }

  lemma {:induction false} CompareThree(keys: seq<Key>, cell: Cells, a: Id, b: Id, c: Id)
    requires GoodKeys(keys)
    ensures Compare(keys, cell, a, b) < 0 <==> Compare(keys, cell, b, a) > 0
    ensures Compare(keys, cell, a, b) <= 0 && Compare(keys, cell, b, c) <= 0 ==> Compare(keys, cell, a, c) <= 0
  {
    hide TotalPreorder, ByKey;
    if keys != [] {
      var k := keys[0];
      CompareThree(keys[1..], cell, a, b, c);
      ByKeyIsTotalPreorder(k, cell, a, b, c);
      ByKeyIsTotalPreorder(k, cell, b, a, c);
      ByKeyIsTotalPreorder(k, cell, c, b, a);
      ByKeyIsTotalPreorder(k, cell, b, c, a);
      ByKeyIsTotalPreorder(k, cell, a, c, b);
      ByKeyStrict(k, cell, a, b, c);
      ByKeyStrict(k, cell, c, b, a);
    }
  }

  /** The comparator over any number of columns. */
  function Comparator(keys: seq<Key>, cell: Cells): (Id, Id) -> int {
    (a: Id, b: Id) => Compare(keys, cell, a, b)
  }

  /** Columns whose sorters are total preorders make a comparator that is one. */
  lemma ComparatorIsTotalPreorder(keys: seq<Key>, cell: Cells)
    requires GoodKeys(keys)
    ensures TotalPreorder(Comparator(keys, cell))
  {
    var f := Comparator(keys, cell);
    forall a, b ensures f(a, b) < 0 <==> f(b, a) > 0 {
      CompareThree(keys, cell, a, b, a);
    }
    forall a, b, c | f(a, b) <= 0 && f(b, c) <= 0 ensures f(a, c) <= 0 {
      CompareThree(keys, cell, a, b, c);
    }
  }

  // ----- sorting a forest -----

  /** An array sort, as the language promises it: for a comparator that is a total preorder, a permutation in
      order. Which of two equal rows comes first is left open. */
  ghost predicate ArraySort(sort: (seq<Node>, (Id, Id) -> int) -> seq<Node>) {
    forall s, f :: TotalPreorder(f) ==> multiset(sort(s, f)) == multiset(s) && Ordered(sort(s, f), f)
  }

  ghost predicate Ordered(s: seq<Node>, f: (Id, Id) -> int) {
    forall i, j :: 0 <= i < j < |s| ==> f(s[i].id, s[j].id) <= 0
  }

  /** A list with `n` put in front of the first entry that it may not follow. */
  function PutIn(n: Node, s: seq<Node>, f: (Id, Id) -> int): seq<Node> {
    if s == [] || f(n.id, s[0].id) <= 0 then [n] + s else [s[0]] + PutIn(n, s[1..], f)
  }

  function InsertionSort(s: seq<Node>, f: (Id, Id) -> int): seq<Node> {
    if s == [] then [] else PutIn(s[0], InsertionSort(s[1..], f), f)
  }

  /** None of `s` may come before `a`. */
  ghost predicate AllAfter(a: Id, s: seq<Node>, f: (Id, Id) -> int) {
    forall x :: x in s ==> f(a, x.id) <= 0
  }

  lemma OrderedCons(n: Node, s: seq<Node>, f: (Id, Id) -> int)
    requires AllAfter(n.id, s, f) && Ordered(s, f)
    ensures Ordered([n] + s, f)
  {
    assert forall j :: 0 <= j < |s| ==> s[j] in s;
  }

  lemma OrderedFirst(s: seq<Node>, f: (Id, Id) -> int)
    requires s != [] && Ordered(s, f)
    ensures AllAfter(s[0].id, s[1..], f) && Ordered(s[1..], f)
  {
    forall x | x in s[1..] ensures f(s[0].id, x.id) <= 0 {
      var j :| 0 <= j < |s| - 1 && s[1..][j] == x;
      assert s[j + 1] == x;
    }
  }

  lemma BeforeAll(a: Id, s: seq<Node>, f: (Id, Id) -> int)
    requires TotalPreorder(f) && s != [] && f(a, s[0].id) <= 0 && AllAfter(s[0].id, s[1..], f)
    ensures AllAfter(a, s, f)
  {
    forall x | x in s ensures f(a, x.id) <= 0 {
      assert x == s[0] || x in s[1..];
      assert x != s[0] ==> f(s[0].id, x.id) <= 0;
    }
  }

  lemma {:induction false} PutInMembers(n: Node, s: seq<Node>, f: (Id, Id) -> int)
    ensures multiset(PutIn(n, s, f)) == multiset([n]) + multiset(s)
    ensures forall x :: x in PutIn(n, s, f) ==> x == n || x in s
  {
    if s != [] {
      assert s == [s[0]] + s[1..];
      PutInMembers(n, s[1..], f);
    }
  }

  lemma {:induction false} PutInOrdered(n: Node, s: seq<Node>, f: (Id, Id) -> int)
    requires TotalPreorder(f) && Ordered(s, f)
    ensures Ordered(PutIn(n, s, f), f)
  {
    if s != [] {
      OrderedFirst(s, f);
      if f(n.id, s[0].id) <= 0 {
        BeforeAll(n.id, s, f);
        OrderedCons(n, s, f);
      } else {
        PutInOrdered(n, s[1..], f);
        PutInMembers(n, s[1..], f);
        assert f(s[0].id, n.id) <= 0;
        OrderedCons(s[0], PutIn(n, s[1..], f), f);
      }
    }
  }

  lemma {:induction false} InsertionSorts(s: seq<Node>, f: (Id, Id) -> int)
    requires TotalPreorder(f)
    ensures multiset(InsertionSort(s, f)) == multiset(s) && Ordered(InsertionSort(s, f), f)
  {
    if s != [] {
      InsertionSorts(s[1..], f);
      PutInMembers(s[0], InsertionSort(s[1..], f), f);
      PutInOrdered(s[0], InsertionSort(s[1..], f), f);
      assert s == [s[0]] + s[1..];
    }
  }

  /** The promise can be kept: insertion is such a sort. */
  lemma InsertionIsArraySort()
    ensures ArraySort(InsertionSort)
  {
    forall s, f | TotalPreorder(f)
      ensures multiset(InsertionSort(s, f)) == multiset(s) && Ordered(InsertionSort(s, f), f)
    {
      InsertionSorts(s, f);
    }
  }

  /** Every list of siblings is in order. */
  ghost predicate OrderedAll(s: seq<Node>, f: (Id, Id) -> int) {
    Ordered(s, f) && forall n :: n in s ==> OrderedAll(n.children, f)
  }

  /** Earlier and later siblings differ, if at all, first in a column that puts the earlier one first. */
  predicate InOrder(s: seq<Node>, keys: seq<Key>, cell: Cells) {
    forall i, j, k :: 0 <= i < j < |s| && 0 <= k < |keys| && Alike(keys, cell, s[i].id, s[j].id, k) ==>
      var d := keys[k].sorter(cell(s[i].id, keys[k].name), cell(s[j].id, keys[k].name));
      if keys[k].ascending then d <= 0 else d >= 0
  }

  /** The first `k` columns do not tell the rows apart. */
  predicate Alike(keys: seq<Key>, cell: Cells, a: Id, b: Id, k: nat)
    requires k <= |keys|
  {
    forall l :: 0 <= l < k ==> keys[l].sorter(cell(a, keys[l].name), cell(b, keys[l].name)) == 0
  }

  lemma OrderedIsInOrder(s: seq<Node>, keys: seq<Key>, cell: Cells)
    requires Ordered(s, Comparator(keys, cell))
    ensures InOrder(s, keys, cell)
  {
    hide Compare;
    var f := Comparator(keys, cell);
    forall i, j, k | 0 <= i < j < |s| && 0 <= k < |keys| && Alike(keys, cell, s[i].id, s[j].id, k)
      ensures var d := keys[k].sorter(cell(s[i].id, keys[k].name), cell(s[j].id, keys[k].name));
              if keys[k].ascending then d <= 0 else d >= 0
    {
      assert f(s[i].id, s[j].id) <= 0;
      Direction(keys, cell, s[i].id, s[j].id, k);
    }
  }

  /** Every list of siblings of a forest in order is in order. */
  lemma {:induction false} OrderedBelow(fs: seq<Node>, f: (Id, Id) -> int, n: Node)
    requires (forall m :: m in fs ==> OrderedAll(m.children, f)) && n in Preorder(fs)
    ensures Ordered(n.children, f)
  {
    if fs != [] {
      assert fs[0] in fs && forall m :: m in fs[1..] ==> m in fs;
      if n in Preorder(fs[0].children) {
        OrderedBelow(fs[0].children, f, n);
      } else if n in Preorder(fs[1..]) {
        OrderedBelow(fs[1..], f, n);
      }
    }
  }

  lemma AllInOrder(fs: seq<Node>, keys: seq<Key>, cell: Cells)
    requires OrderedAll(fs, Comparator(keys, cell))
    ensures InOrder(fs, keys, cell) && forall n :: n in Preorder(fs) ==> InOrder(n.children, keys, cell)
  {
    hide InOrder, Comparator;
    OrderedIsInOrder(fs, keys, cell);
    forall n | n in Preorder(fs) ensures InOrder(n.children, keys, cell) {
      OrderedBelow(fs, Comparator(keys, cell), n);
      OrderedIsInOrder(n.children, keys, cell);
    }
  }

  /** With one column every such list rises by its sorter, or falls. */
  lemma OneColumn(kids: seq<Node>, keys: seq<Key>, cell: Cells)
    requires InOrder(kids, keys, cell) && |keys| == 1
    ensures forall i, j :: 0 <= i < j < |kids| ==>
              var d := keys[0].sorter(cell(kids[i].id, keys[0].name), cell(kids[j].id, keys[0].name));
              if keys[0].ascending then d <= 0 else d >= 0
  {
    assert forall a, b :: Alike(keys, cell, a, b, 0);
  }

  /** Which row holds which: the pairs of a row (or `holder`, for the roots) and one of its children. */
  function Edges(fs: seq<Node>, holder: Option<Id>): set<(Option<Id>, Id)> {
    if fs == [] then {} else {(holder, fs[0].id)} + Edges(fs[0].children, Some(fs[0].id)) + Edges(fs[1..], holder)
  }

  lemma {:induction false} EdgesOfMembers(fs: seq<Node>, holder: Option<Id>, e: (Option<Id>, Id))
    ensures e in Edges(fs, holder)
            <==> exists n :: n in fs && (e == (holder, n.id) || e in Edges(n.children, Some(n.id)))
  {
    if fs != [] {
      EdgesOfMembers(fs[1..], holder, e);
      assert fs[0] in fs && forall n :: n in fs[1..] ==> n in fs;
      assert forall n :: n in fs ==> n == fs[0] || n in fs[1..];
    }
  }

  /** The order of siblings does not matter for who holds whom. */
  lemma EdgesPermuted(a: seq<Node>, b: seq<Node>, holder: Option<Id>)
    requires multiset(a) == multiset(b)
    ensures Edges(a, holder) == Edges(b, holder)
  {
    assert forall n :: n in a <==> n in b by { SameMembers(a, b); }
    forall e ensures e in Edges(a, holder) <==> e in Edges(b, holder) {
      EdgesOfMembers(a, holder, e);
      EdgesOfMembers(b, holder, e);
    }
  }

  lemma SameMembers(a: seq<Node>, b: seq<Node>)
    requires multiset(a) == multiset(b)
    ensures forall n :: n in a <==> n in b
  {
    forall n ensures n in a <==> n in b {
      assert n in a <==> n in multiset(a);
      assert n in b <==> n in multiset(b);
    }
  }

  lemma {:induction false} SizePermuted(a: seq<Node>, b: seq<Node>)
    requires multiset(a) == multiset(b)
    ensures Size(a) == Size(b)
  {
    hide Size;
    if a == [] {
      NonePermuted(b);
    } else {
      var i := IndexOf(b, a);
      var rest := b[..i] + b[i + 1..];
      TakenOut(b, i);
      TakenOut(a, 0);
      assert a[..0] + a[1..] == a[1..];
      RestPermuted(a, b, i);
      SizePermuted(a[1..], rest);
    }
  }

  lemma RestPermuted<T>(a: seq<T>, b: seq<T>, i: nat)
    requires a != [] && i < |b| && b[i] == a[0] && multiset(a) == multiset(b)
    ensures multiset(a[1..]) == multiset(b[..i] + b[i + 1..])
  {
    assert a == [a[0]] + a[1..];
    assert b == b[..i] + [b[i]] + b[i + 1..];
    assert multiset(a) == multiset{a[0]} + multiset(a[1..]);
    assert multiset(b) == multiset(b[..i]) + multiset{b[i]} + multiset(b[i + 1..]);
    assert multiset(b[..i] + b[i + 1..]) == multiset(b[..i]) + multiset(b[i + 1..]) == multiset(b) - multiset{b[i]};
    assert multiset(a[1..]) == multiset(a) - multiset{a[0]};
  }

  lemma NonePermuted(b: seq<Node>)
    requires multiset(b) == multiset{}
    ensures b == []
  {
    assert |b| == |multiset(b)| == 0;
  }

  lemma IndexOf(b: seq<Node>, a: seq<Node>) returns (i: nat)
    requires a != [] && multiset(a) == multiset(b)
    ensures i < |b| && b[i] == a[0]
  {
    assert a[0] in multiset(a) && a[0] in multiset(b);
    i :| 0 <= i < |b| && b[i] == a[0];
  }

  /** Without one of its entries a list is smaller by that entry. */
  lemma TakenOut(b: seq<Node>, i: nat)
    requires i < |b|
    ensures Size(b) == Size([b[i]]) + Size(b[..i] + b[i + 1..])
  {
    hide Size;
    assert b == b[..i] + ([b[i]] + b[i + 1..]);
    SizeConcat(b[..i], [b[i]] + b[i + 1..]);
    SizeConcat(b[..i], b[i + 1..]);
    SizeConcat([b[i]], b[i + 1..]);
  }

  lemma {:induction false} MemberSize(fs: seq<Node>, n: Node)
    requires n in fs
    ensures Size(n.children) < Size(fs)
  {
    if n != fs[0] {
      MemberSize(fs[1..], n);
    }
  }

  /** The function `_ff`: sorts a list of siblings, then the children of each. */
  method SortRows(rows: seq<Node>, keys: seq<Key>, cell: Cells, ghost holder: Option<Id>,
                  sort: (seq<Node>, (Id, Id) -> int) -> seq<Node>)
    returns (out: seq<Node>)
    requires GoodKeys(keys) && ArraySort(sort)
    ensures OrderedAll(out, Comparator(keys, cell))
    ensures InOrder(out, keys, cell) && forall n :: n in Preorder(out) ==> InOrder(n.children, keys, cell)
    ensures Edges(out, holder) == Edges(rows, holder) && Size(out) == Size(rows)
    decreases Size(rows)
  {
    hide TotalPreorder, Comparator, ArraySort, OrderedAll, Edges, Size, Ordered, GoodKeys, InOrder, Preorder;
    var f := Comparator(keys, cell);
    out := sort(rows, f);
    ghost var sorted := out;
    Sorted(rows, keys, cell, holder, sort);
    for i := 0 to |out|
      invariant |out| == |sorted| && forall k :: 0 <= k < |out| ==> out[k].id == sorted[k].id
      invariant forall k :: 0 <= k < i ==> OrderedAll(out[k].children, f)
      invariant forall k :: i <= k < |out| ==> out[k] == sorted[k]
      invariant Edges(out, holder) == Edges(rows, holder) && Size(out) == Size(rows)
    {
      var kids := out[i].children;
      Childless(f);
      if |kids| > 0 {
        assert sorted[i] in rows;
        MemberSize(rows, sorted[i]);
        kids := SortRows(kids, keys, cell, Some(out[i].id), sort);
        ChildrenReplaced(out, i, kids, holder);
        out := out[i := Node(out[i].id, kids)];
      }
    }
    AllOrdered(sorted, out, f);
    AllInOrder(out, keys, cell);
  }

  lemma Sorted(rows: seq<Node>, keys: seq<Key>, cell: Cells, holder: Option<Id>,
               sort: (seq<Node>, (Id, Id) -> int) -> seq<Node>)
    requires GoodKeys(keys) && ArraySort(sort)
    ensures var s := sort(rows, Comparator(keys, cell));
            && Ordered(s, Comparator(keys, cell)) && (forall n :: n in s ==> n in rows)
            && Edges(s, holder) == Edges(rows, holder) && Size(s) == Size(rows)
  {
    hide TotalPreorder, Comparator, Edges, Size, Ordered, GoodKeys;
    ComparatorIsTotalPreorder(keys, cell);
    var s := sort(rows, Comparator(keys, cell));
    SameMembers(s, rows);
    EdgesPermuted(s, rows, holder);
    SizePermuted(s, rows);
  }

  lemma AllOrdered(sorted: seq<Node>, out: seq<Node>, f: (Id, Id) -> int)
    requires Ordered(sorted, f) && |out| == |sorted|
    requires forall k :: 0 <= k < |out| ==> out[k].id == sorted[k].id && OrderedAll(out[k].children, f)
    ensures OrderedAll(out, f)
  {
  }

  lemma Childless(f: (Id, Id) -> int)
    ensures OrderedAll([], f)
  {
  }

  lemma ChildrenReplaced(fs: seq<Node>, i: nat, kids: seq<Node>, holder: Option<Id>)
    requires i < |fs| && Size(kids) == Size(fs[i].children)
    requires Edges(kids, Some(fs[i].id)) == Edges(fs[i].children, Some(fs[i].id))
    ensures Edges(fs[i := Node(fs[i].id, kids)], holder) == Edges(fs, holder)
    ensures Size(fs[i := Node(fs[i].id, kids)]) == Size(fs)
  {
    var gs := fs[i := Node(fs[i].id, kids)];
    if i == 0 {
      assert gs[1..] == fs[1..];
    } else {
      assert gs[1..] == fs[1..][i - 1 := Node(fs[i].id, kids)];
      ChildrenReplaced(fs[1..], i - 1, kids, holder);
    }
  }

  /** Keeping who holds whom, and the number of rows, keeps ids unique. */
  lemma EdgesKeepUnique(a: seq<Node>, b: seq<Node>, holder: Option<Id>)
    requires Edges(a, holder) == Edges(b, holder) && Size(a) == Size(b) && Unique(a)
    ensures Unique(b) && IdSet(b) == IdSet(a)
  {
    hide Edges, Size, Unique, IdSet;
    EdgeIds(a, holder);
    EdgeIds(b, holder);
    assert IdSet(a) == IdSet(b) by {
      assert forall i :: i in IdSet(a) <==> i in IdSet(b);
    }
    Counted(a);
    Counted(b);
  }

  lemma {:induction false} EdgeIds(fs: seq<Node>, holder: Option<Id>)
    ensures forall i :: i in IdSet(fs) <==> exists p :: (p, i) in Edges(fs, holder)
  {
    if fs != [] {
      EdgeIds(fs[0].children, Some(fs[0].id));
      EdgeIds(fs[1..], holder);
      var e := (holder, fs[0].id);
      assert e in Edges(fs, holder);
    }
  }

  /** Ids are unique iff there are as many ids as rows. */
  lemma {:induction false} Counted(fs: seq<Node>)
    ensures |IdSet(fs)| <= Size(fs)
    ensures Unique(fs) <==> |IdSet(fs)| == Size(fs)
  {
    if fs != [] {
      var head, own, rest := {fs[0].id}, IdSet(fs[0].children), IdSet(fs[1..]);
      Counted(fs[0].children);
      Counted(fs[1..]);
      UnionSize(head, own);
      UnionSize(head + own, rest);
    }
  }

  lemma UnionSize(a: set<Id>, b: set<Id>)
    ensures |a + b| <= |a| + |b|
    ensures |a + b| == |a| + |b| <==> a !! b
  {
    assert a + b == a + (b - a);
    assert |a + (b - a)| == |a| + |b - a|;
    assert b == (b - a) + (b * a);
    assert |b| == |b - a| + |b * a|;
    assert a !! b <==> b * a == {};
  }
}
