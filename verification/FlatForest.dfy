/** The forest that flat rows make: what the child arrays of the treegrid's transfer amount to, as nodes. */
module FlatForests {
  import opened Forest
  import opened Transfers

  /** The nodes below id `k`: a node for each row that names `k`, with what lies below it among the rest. */
  function Built(data: seq<Row>, k: nat): seq<Node>
    decreases |data|, 0
  {
    if KidsOf(data, k) == [] then []
    else
      FilterSplit(data, k);
      BuiltList(RestOf(data, {k}), KidsOf(data, k))
  }

  function BuiltList(rest: seq<Row>, rows: seq<Row>): seq<Node>
    decreases |rest|, 1 + |rows|
  {
    if rows == [] then []
    else [Node(rows[0].id, Built(rest, rows[0].id))] + BuiltList(rest, rows[1..])
  }

  /** No row has id `k`. */
  predicate NotAnId(data: seq<Row>, k: int) {
    forall r :: r in data ==> r.id != k
  }

  // ----- which ids are built -----

  /** One level down: what lies below `k` is a child of `k`, or lies below one among the other rows. */
  lemma PlacedBelow(data: seq<Row>, k: nat, x: int)
    ensures PlacedId(data, k, x)
            <==> exists r :: r in KidsOf(data, k) && (x == r.id || PlacedId(RestOf(data, {k}), r.id, x))
  {
    hide KidsOf, RestOf;
    var rest := RestOf(data, {k});
    FilterMembers(data, k, {k});
    if PlacedId(data, k, x) {
      var s :| s in data && s.id == x && Placed(data, k, s);
      if s.parentId == k {
        assert s in KidsOf(data, k);
      } else {
        var path :| Chain(data, k, path, s.parentId);
        var r := FirstStep(data, k, path, s.parentId);
        assert Placed(rest, r.id, s);
      }
    }
    if exists r :: r in KidsOf(data, k) && (x == r.id || PlacedId(rest, r.id, x)) {
      var r :| r in KidsOf(data, k) && (x == r.id || PlacedId(rest, r.id, x));
      assert Chain(data, k, [k], k);
      if x == r.id {
        assert Placed(data, k, r);
      } else {
        var s :| s in rest && s.id == x && Placed(rest, r.id, s);
        var path :| Chain(rest, r.id, path, s.parentId);
        ChainAbove(data, k, rest, r, path, s.parentId);
        assert Placed(data, k, s);
      }
    }
  }

  /** After its last passage through `k` a chain goes on with a child of `k`, among rows that do not name `k`. */
  lemma {:induction false} FirstStep(data: seq<Row>, k: int, path: seq<int>, x: int) returns (r: Row)
    requires Chain(data, k, path, x) && x != k
    ensures r in data && r.parentId == k && Reached(RestOf(data, {k}), r.id, x)
    decreases |path|
  {
    hide RestOf;
    assert |path| > 1;
    if i: nat :| 0 < i < |path| && path[i] == k {
      forall j | 0 < j < |path[i..]| ensures Link(data, path[i..][j - 1], path[i..][j]) {
        assert Link(data, path[i + j - 1], path[i + j]);
      }
      r := FirstStep(data, k, path[i..], x);
    } else {
      assert Link(data, path[0], path[1]);
      r :| r in data && r.id == path[1] && r.parentId == k;
      ChainBelow(data, k, path, x);
    }
  }

  lemma ChainBelow(data: seq<Row>, k: int, path: seq<int>, x: int)
    requires Chain(data, k, path, x) && |path| > 1 && forall i :: 0 < i < |path| ==> path[i] != k
    ensures Chain(RestOf(data, {k}), path[1], path[1..], x)
  {
    hide RestOf;
    var rest, tail := RestOf(data, {k}), path[1..];
    FilterMembers(data, k, {k});
    forall i | 0 < i < |tail| ensures Link(rest, tail[i - 1], tail[i]) {
      assert Link(data, path[i], path[i + 1]);
      var r :| r in data && r.id == path[i + 1] && r.parentId == path[i];
      assert r in rest;
    }
  }

  lemma ChainAbove(data: seq<Row>, k: int, rest: seq<Row>, r: Row, path: seq<int>, x: int)
    requires r in data && r.parentId == k && (forall s :: s in rest ==> s in data) && Chain(rest, r.id, path, x)
    ensures Chain(data, k, [k] + path, x)
  {
    var all := [k] + path;
    assert Link(data, k, r.id);
    forall i | 0 < i < |all| ensures Link(data, all[i - 1], all[i]) {
      if i > 1 {
        assert Link(rest, path[i - 2], path[i - 1]);
      }
    }
  }

  /** Chains of parents do not meet: from one row up there is one way only. */
  lemma {:induction false} OneTop(data: seq<Row>, a: int, b: int, p: seq<int>, q: seq<int>, x: int)
    requires DistinctIds(data) && NotAnId(data, a) && NotAnId(data, b)
    requires Chain(data, a, p, x) && Chain(data, b, q, x)
    ensures a == b
    decreases |p|
  {
    var m, n := |p|, |q|;
    if m > 1 {
      assert Link(data, p[m - 2], p[m - 1]);
      assert n > 1;
      assert Link(data, q[n - 2], q[n - 1]);
      var r :| r in data && r.id == x && r.parentId == p[m - 2];
      var s :| s in data && s.id == x && s.parentId == q[n - 2];
      SameId(data, r, s);
      assert Chain(data, a, p[..m - 1], r.parentId) && Chain(data, b, q[..n - 1], r.parentId);
      OneTop(data, a, b, p[..m - 1], q[..n - 1], r.parentId);
    } else {
      assert LinkBefore(data, q, n);
    }
  }

  /** The last step of a chain, if it has one. */
  predicate LinkBefore(data: seq<Row>, q: seq<int>, n: nat)
    requires n <= |q|
  {
    n > 1 ==> Link(data, q[n - 2], q[n - 1])
  }

  /** The ids below two different tops are different. */
  lemma Apart(data: seq<Row>, a: int, b: int, x: int)
    requires DistinctIds(data) && NotAnId(data, a) && NotAnId(data, b) && a != b
    requires PlacedId(data, a, x)
    ensures !PlacedId(data, b, x)
  {
    if PlacedId(data, b, x) {
      var r :| r in data && r.id == x && Placed(data, a, r);
      var s :| s in data && s.id == x && Placed(data, b, s);
      SameId(data, r, s);
      var p :| Chain(data, a, p, r.parentId);
      var q :| Chain(data, b, q, r.parentId);
      OneTop(data, a, b, p, q, r.parentId);
    }
  }

  /** The rows that name `k` and the others: what the recursion goes on with. */
  lemma Level(data: seq<Row>, k: nat)
    requires DistinctIds(data)
    ensures var rest, rows := RestOf(data, {k}), KidsOf(data, k);
            && DistinctIds(rest) && DistinctIds(rows) && |rest| + |rows| == |data|
            && (forall r :: r in rest ==> r in data && r.parentId != k)
            && (forall r :: r in rows ==> r in data && r.parentId == k && NotAnId(rest, r.id))
  {
    var rest, rows := RestOf(data, {k}), KidsOf(data, k);
    hide KidsOf, RestOf;
    FilterMembers(data, k, {k});
    FilterSplit(data, k);
    KidsOnce(data, k);
    RestOnce(data, {k});
    forall r, s | r in rows && s in rest ensures s.id != r.id {
      if s.id == r.id {
        SameId(data, r, s);
      }
    }
  }

  lemma {:induction false} RestOnce(data: seq<Row>, taken: set<int>)
    requires DistinctIds(data)
    ensures DistinctIds(RestOf(data, taken))
  {
    if data != [] {
      RestOnce(data[1..], taken);
      FilterMembers(data[1..], 0, taken);
      forall r | r in RestOf(data[1..], taken) ensures r.id != data[0].id {
        assert r in data[1..];
        var j :| 0 <= j < |data[1..]| && data[1..][j] == r;
        assert data[1..][j] == data[j + 1];
      }
    }
  }

  /** The forest has exactly the placed rows, each once. */
  lemma {:induction false} BuiltIds(data: seq<Row>, k: nat)
    requires DistinctIds(data)
    ensures Unique(Built(data, k))
    ensures forall x: nat :: x in IdSet(Built(data, k)) <==> PlacedId(data, k, x)
    decreases |data|, 0
  {
    hide Unique, IdSet, PlacedId, DistinctIds, NotAnId, RestOf, KidsOf;
    Level(data, k);
    if KidsOf(data, k) != [] {
      BuiltListIds(RestOf(data, {k}), KidsOf(data, k));
    } else {
      NoNodes();
    }
    forall x: nat ensures x in IdSet(Built(data, k)) <==> PlacedId(data, k, x) {
      PlacedBelow(data, k, x);
    }
  }

  lemma NoNodes()
    ensures Unique([]) && IdSet([]) == {}
  {
  }

  lemma {:induction false} BuiltListIds(rest: seq<Row>, rows: seq<Row>)
    requires DistinctIds(rest) && DistinctIds(rows) && forall r :: r in rows ==> NotAnId(rest, r.id)
    ensures Unique(BuiltList(rest, rows))
    ensures forall x: nat :: x in IdSet(BuiltList(rest, rows))
                             <==> exists r :: r in rows && (x == r.id || PlacedId(rest, r.id, x))
    decreases |rest|, 1 + |rows|
  {
    hide Unique, IdSet, PlacedId, DistinctIds, NotAnId;
    if rows == [] {
      NoNodes();
    } else {
      var r, more := rows[0], rows[1..];
      Tail(rows);
      BuiltIds(rest, r.id);
      BuiltListIds(rest, more);
      var below, beside := Built(rest, r.id), BuiltList(rest, more);
      IdSetCons(Node(r.id, below), beside);
      NotBelowItself(rest, r.id);
      forall x | x in IdSet(beside) ensures x != r.id && x !in IdSet(below) {
        var s :| s in more && (x == s.id || PlacedId(rest, s.id, x));
        ApartFrom(rest, s.id, r.id, x);
      }
    }
  }

  lemma NotBelowItself(data: seq<Row>, k: int)
    requires NotAnId(data, k)
    ensures forall a :: !PlacedId(data, a, k)
  {
  }

  lemma ApartFrom(data: seq<Row>, a: int, b: int, x: int)
    requires DistinctIds(data) && NotAnId(data, a) && NotAnId(data, b) && a != b
    requires x == a || PlacedId(data, a, x)
    ensures x != b && !PlacedId(data, b, x)
  {
    NotBelowItself(data, a);
    NotBelowItself(data, b);
    if x != a {
      Apart(data, a, b, x);
    }
  }

  // ----- what each node holds -----

  function Heads(fs: seq<Node>): seq<Id> {
    seq(|fs|, i requires 0 <= i < |fs| => fs[i].id)
  }

  function RowIds(rows: seq<Row>): seq<Id> {
    seq(|rows|, i requires 0 <= i < |rows| => rows[i].id)
  }

  lemma {:induction false} ListHeads(rest: seq<Row>, rows: seq<Row>)
    ensures Heads(BuiltList(rest, rows)) == RowIds(rows)
  {
    if rows != [] {
      ListHeads(rest, rows[1..]);
      var tail := BuiltList(rest, rows[1..]);
      assert forall i :: 0 < i < |rows| ==> RowIds(rows)[i] == RowIds(rows[1..])[i - 1];
      assert forall i :: 0 < i <= |tail| ==> BuiltList(rest, rows)[i] == tail[i - 1] && tail[i - 1].id == Heads(tail)[i - 1];
      assert |Heads(tail)| == |rows| - 1;
    }
  }

  lemma BuiltHeads(data: seq<Row>, k: nat)
    ensures Heads(Built(data, k)) == RowIds(KidsOf(data, k))
  {
    if KidsOf(data, k) != [] {
      ListHeads(RestOf(data, {k}), KidsOf(data, k));
    }
  }

  /** Every node of the forest holds the rows that name it, in input order; but a row with the id `k` itself
      holds none, as those rows are on top. */
  lemma {:induction false} BuiltHolds(data: seq<Row>, k: nat, n: Node)
    requires DistinctIds(data) && n in Preorder(Built(data, k))
    ensures Heads(n.children) == RowIds(if n.id == k then [] else KidsOf(data, n.id))
    decreases |data|, 0
  {
    hide Heads, RowIds, NotAnId, DistinctIds, Preorder;
    Level(data, k);
    NoPreorder();
    var rest := RestOf(data, {k});
    BuiltListHolds(rest, KidsOf(data, k), n);
    FilterTwice(data, {k}, n.id);
  }

  lemma NoPreorder()
    ensures Preorder([]) == []
  {
  }

  lemma {:induction false} NodeInIdSet(fs: seq<Node>, n: Node)
    requires n in Preorder(fs)
    ensures n.id in IdSet(fs)
  {
    if n in Preorder(fs[0].children) {
      NodeInIdSet(fs[0].children, n);
    } else if n in Preorder(fs[1..]) {
      NodeInIdSet(fs[1..], n);
    }
  }

  lemma {:induction false} BuiltListHolds(rest: seq<Row>, rows: seq<Row>, n: Node)
    requires DistinctIds(rest) && (forall r :: r in rows ==> NotAnId(rest, r.id)) && n in Preorder(BuiltList(rest, rows))
    ensures Heads(n.children) == RowIds(KidsOf(rest, n.id))
    decreases |rest|, 1 + |rows|
  {
    hide Heads, RowIds, NotAnId, DistinctIds, KidsOf, Built, PlacedId, IdSet;
    assert rows != [] by { NoPreorder(); }
    var r, more := rows[0], rows[1..];
    var tail := BuiltList(rest, more);
    assert ([Node(r.id, Built(rest, r.id))] + tail)[1..] == tail;
    if n in Preorder(Built(rest, r.id)) {
      BuiltHolds(rest, r.id, n);
      BuiltIds(rest, r.id);
      NodeInIdSet(Built(rest, r.id), n);
      NotBelowItself(rest, r.id);
    } else if n in Preorder(tail) {
      BuiltListHolds(rest, more, n);
    } else {
      BuiltHeads(rest, r.id);
    }
  }
}
