/** The treegrid's conversion of flat rows, which name their parents, into a forest of rows. */
module Transfers {

  /** A row: its id, which is never falsy, and its `_parentId`, 0 where that is absent or falsy. */
  datatype Row = Row(id: nat, parentId: nat)

  /** The child arrays of the rows, by row id; a row without an entry has no child array yet. */
  type Arrays = map<int, seq<Row>>

  function ChildrenIn(arrays: Arrays, id: int): seq<Row> {
    if id in arrays then arrays[id] else []
  }

  /** The rows that name `k` as their parent, in input order. */
  function KidsOf(data: seq<Row>, k: int): seq<Row> {
    if data == [] then []
    else (if data[0].parentId == k then [data[0]] else []) + KidsOf(data[1..], k)
  }

  /** The rows whose parent is not in `taken`, in input order. */
  function RestOf(data: seq<Row>, taken: set<int>): seq<Row> {
    if data == [] then []
    else (if data[0].parentId in taken then [] else [data[0]]) + RestOf(data[1..], taken)
  }

  predicate DistinctIds(data: seq<Row>) {
    forall i, j :: 0 <= i < j < |data| ==> data[i].id != data[j].id
  }

  /** Some row with id `k` names `p` as its parent. */
  predicate Link(data: seq<Row>, p: int, k: int) {
    exists r :: r in data && r.id == k && r.parentId == p
  }

  /** `path` leads from `root` down to `k`, each id being that of a row whose parent is the id before. */
  predicate Chain(data: seq<Row>, root: int, path: seq<int>, k: int) {
    && path != [] && path[0] == root && path[|path| - 1] == k
    && forall i :: 0 < i < |path| ==> Link(data, path[i - 1], path[i])
  }

  /** The chain of parents above id `k` ends in `root`. */
  ghost predicate Reached(data: seq<Row>, root: int, k: int) {
    exists path :: Chain(data, root, path, k)
  }

  /** A row belongs into the forest when its parent's chain ends in `root`. */
  ghost predicate Placed(data: seq<Row>, root: int, r: Row) {
    r in data && Reached(data, root, r.parentId)
  }

  /** Some row with id `k` belongs into the forest. */
  ghost predicate PlacedId(data: seq<Row>, root: int, k: int) {
    exists r :: r in data && r.id == k && Placed(data, root, r)
  }

  // ----- the two filters -----

  lemma {:induction false} KidsConcat(a: seq<Row>, b: seq<Row>, k: int)
    ensures KidsOf(a + b, k) == KidsOf(a, k) + KidsOf(b, k)
  {
    if a == [] {
      assert a + b == b;
    } else {
      var head := if a[0].parentId == k then [a[0]] else [];
      assert (a + b)[1..] == a[1..] + b;
      assert KidsOf(a + b, k) == head + KidsOf(a[1..] + b, k);
      KidsConcat(a[1..], b, k);
    }
  }

  lemma {:induction false} RestConcat(a: seq<Row>, b: seq<Row>, taken: set<int>)
    ensures RestOf(a + b, taken) == RestOf(a, taken) + RestOf(b, taken)
  {
    if a == [] {
      assert a + b == b;
    } else {
      assert (a + b)[1..] == a[1..] + b;
      RestConcat(a[1..], b, taken);
    }
  }

  lemma {:induction false} FilterMembers(data: seq<Row>, k: int, taken: set<int>)
    ensures forall r :: r in KidsOf(data, k) <==> r in data && r.parentId == k
    ensures forall r :: r in RestOf(data, taken) <==> r in data && r.parentId !in taken
    ensures |RestOf(data, taken)| <= |data|
  {
    if data != [] {
      FilterMembers(data[1..], k, taken);
      assert forall r :: r in data <==> r == data[0] || r in data[1..];
    }
  }

  /** Taking the children of `k` out of what is left. */
  lemma {:induction false} FilterTwice(data: seq<Row>, taken: set<int>, k: int)
    ensures KidsOf(RestOf(data, taken), k) == if k in taken then [] else KidsOf(data, k)
    ensures RestOf(RestOf(data, taken), {k}) == RestOf(data, taken + {k})
  {
    if data != [] {
      FilterTwice(data[1..], taken, k);
      var head := if data[0].parentId in taken then [] else [data[0]];
      KidsConcat(head, RestOf(data[1..], taken), k);
      RestConcat(head, RestOf(data[1..], taken), {k});
    }
  }

  /** What is taken and what is left make up the whole. */
  lemma {:induction false} FilterSplit(data: seq<Row>, k: int)
    ensures |data| == |KidsOf(data, k)| + |RestOf(data, {k})|
  {
    if data != [] {
      FilterSplit(data[1..], k);
    }
  }

  lemma RestOfNothing(data: seq<Row>)
    ensures RestOf(data, {}) == data
  {
    if data != [] {
      RestOfNothing(data[1..]);
    }
  }

  // ----- the conversion -----

  /** Moves the children of `k` out of `rows`, keeping both orders; the index steps back over a splice. */
  method Take(rows: seq<Row>, k: int) returns (kids: seq<Row>, left: seq<Row>)
    ensures kids == KidsOf(rows, k) && left == RestOf(rows, {k})
  {
    kids, left := [], rows;
    var i := 0;
    ghost var seen := 0;
    while i < |left|
      invariant 0 <= i <= |left| && 0 <= seen <= |rows|
      invariant left[..i] == RestOf(rows[..seen], {k}) && left[i..] == rows[seen..]
      invariant kids == KidsOf(rows[..seen], k)
      decreases |left| - i
    {
      var row := left[i];
      assert row == left[i..][0] == rows[seen];
      assert rows[..seen + 1] == rows[..seen] + [row];
      KidsConcat(rows[..seen], [row], k);
      RestConcat(rows[..seen], [row], {k});
      seen := seen + 1;
      if row.parentId == k {
        kids := kids + [row];
        left := left[..i] + left[i + 1..];
      } else {
        i := i + 1;
      }
    }
    assert rows[..seen] == rows && left[..i] == left;
  }

  /** The view's transfer: `roots` are the rows directly below `root` (0 for none).  Every row whose
      chain of parents ends in `root` is attached below its parent, siblings in input order; every other
      row is left over. */
  method Transfer(data: seq<Row>, root: int, before: Arrays)
    returns (roots: seq<Row>, arrays: Arrays, left: seq<Row>, ghost taken: set<int>)
    requires DistinctIds(data)
    ensures roots == KidsOf(data, root)
    ensures forall k :: ChildrenIn(arrays, k) ==
              if PlacedId(data, root, k) && k != root then ChildrenIn(before, k) + KidsOf(data, k)
              else ChildrenIn(before, k)
    ensures forall k :: k in taken <==> Reached(data, root, k)
    ensures left == RestOf(data, taken)
  {
    var rows;
    RestOfNothing(data);
    roots, rows := Take(data, root);
    var toDo := roots;
    arrays := before;
    ghost var done: set<int> := {};
    Start(data, root);
    hide Progress, KidsOf, RestOf, Chain, Reached, Placed, PlacedId, DistinctIds, ArraysOk, ChildrenIn;
    while toDo != []
      invariant Progress(data, root, done, toDo, rows)
      invariant ArraysOk(data, root, before, done, arrays)
      decreases |toDo| + |rows|
    {
      var node := toDo[0];
      Step(data, root, done, toDo, rows);
      var kids;
      kids, rows := Take(rows, node.id);
      Attach(data, root, before, done, arrays, node.id, kids);
      if kids != [] {
        arrays := arrays[node.id := ChildrenIn(arrays, node.id) + kids];
      }
      toDo := toDo[1..] + kids;
      done := done + {node.id};
    }
    left := rows;
    taken := {root} + done;
    Finish(data, root, done, rows);
    AllAttached(data, root, before, done, arrays);
  }

  /** The child arrays once the children of `done` are attached. */
  ghost predicate ArraysOk(data: seq<Row>, root: int, before: Arrays, done: set<int>, arrays: Arrays) {
    forall k :: ChildrenIn(arrays, k) ==
      if k in done && k != root then ChildrenIn(before, k) + KidsOf(data, k) else ChildrenIn(before, k)
  }

  lemma AllAttached(data: seq<Row>, root: int, before: Arrays, done: set<int>, arrays: Arrays)
    requires ArraysOk(data, root, before, done, arrays)
    requires forall k :: k in done <==> PlacedId(data, root, k)
    ensures forall k :: ChildrenIn(arrays, k) ==
              if PlacedId(data, root, k) && k != root then ChildrenIn(before, k) + KidsOf(data, k)
              else ChildrenIn(before, k)
  {
    hide KidsOf, PlacedId;
  }

  lemma Attach(data: seq<Row>, root: int, before: Arrays, done: set<int>, arrays: Arrays, id: int, kids: seq<Row>)
    requires ArraysOk(data, root, before, done, arrays) && id !in done
    requires kids == if id == root then [] else KidsOf(data, id)
    ensures ArraysOk(data, root, before, done + {id},
                     if kids != [] then arrays[id := ChildrenIn(arrays, id) + kids] else arrays)
  {
    hide KidsOf;
    assert ChildrenIn(before, id) + [] == ChildrenIn(before, id);
  }

  /** The state of the conversion: `done` holds the ids of the rows whose children have been taken, `toDo`
      the rows in the queue and `rows` what is left of the input. */
  ghost predicate Progress(data: seq<Row>, root: int, done: set<int>, toDo: seq<Row>, rows: seq<Row>)
  {
    && rows == RestOf(data, {root} + done)
    && DistinctIds(toDo) && Reached(data, root, root)
    && (forall k :: k in done ==> Reached(data, root, k))
    && (forall k :: k in done ==> exists r :: r in data && r.id == k)
    && (forall r :: r in data && r.id in done ==> r.parentId == root || r.parentId in done)
    && (forall r :: r in toDo ==> r in data && (r.parentId == root || r.parentId in done) && r.id !in done)
    && (forall r :: r in data && (r.parentId == root || r.parentId in done) ==> r.id in done || r in toDo)
  }

  lemma Start(data: seq<Row>, root: int)
    requires DistinctIds(data)
    ensures Progress(data, root, {}, KidsOf(data, root), RestOf(data, {root}))
  {
    assert Reached(data, root, root) by { assert Chain(data, root, [root], root); }
    assert {root} + {} == {root};
    hide KidsOf, RestOf, Reached;
    FilterMembers(data, root, {root});
    KidsOnce(data, root);
  }

  lemma {:induction false} KidsOnce(data: seq<Row>, k: int)
    requires DistinctIds(data)
    ensures DistinctIds(KidsOf(data, k))
  {
    if data != [] {
      KidsOnce(data[1..], k);
      FilterMembers(data[1..], k, {});
      forall r | r in KidsOf(data[1..], k) ensures r.id != data[0].id {
        assert r in data[1..];
        var j :| 0 <= j < |data[1..]| && data[1..][j] == r;
        assert data[1..][j] == data[j + 1];
      }
    }
  }

  lemma SameId(data: seq<Row>, r: Row, s: Row)
    requires DistinctIds(data) && r in data && s in data && r.id == s.id
    ensures r == s
  {
    var i :| 0 <= i < |data| && data[i] == r;
    var j :| 0 <= j < |data| && data[j] == s;
  }

  lemma ReachChild(data: seq<Row>, root: int, r: Row)
    requires r in data && Reached(data, root, r.parentId)
    ensures Reached(data, root, r.id)
  {
    var path: seq<int> :| Chain(data, root, path, r.parentId);
    assert Link(data, r.parentId, r.id);
    assert Chain(data, root, path + [r.id], r.id);
  }

  /** What the next turn takes: all children of the row at the head of the queue. */
  lemma NextKids(data: seq<Row>, root: int, done: set<int>, toDo: seq<Row>, rows: seq<Row>)
    requires DistinctIds(data) && Progress(data, root, done, toDo, rows) && toDo != []
    ensures var node := toDo[0];
            var kids, left := KidsOf(rows, node.id), RestOf(rows, {node.id});
            && node in data && Reached(data, root, node.id)
            && kids == (if node.id == root then [] else KidsOf(data, node.id))
            && left == RestOf(data, {root} + (done + {node.id}))
            && |kids| + |left| == |rows| && DistinctIds(kids)
            && (forall r :: r in kids ==> r in data && r.parentId == node.id && r.parentId != root && r.parentId !in done)
            && (forall r :: r in data && r.parentId == node.id && node.id != root ==> r in kids)
  {
    hide KidsOf, RestOf, Chain, Reached;
    var node, taken := toDo[0], {root} + done;
    assert node in toDo;
    FilterTwice(data, taken, node.id);
    assert taken + {node.id} == {root} + (done + {node.id});
    FilterSplit(rows, node.id);
    KidsOnce(data, node.id);
    ReachChild(data, root, node);
    FilterMembers(data, node.id, taken);
  }

  /** One turn of the outer loop; |toDo| + |rows| drops by one. */
  lemma Step(data: seq<Row>, root: int, done: set<int>, toDo: seq<Row>, rows: seq<Row>)
    requires DistinctIds(data) && Progress(data, root, done, toDo, rows) && toDo != []
    ensures var node := toDo[0];
            var kids, left := KidsOf(rows, node.id), RestOf(rows, {node.id});
            && Progress(data, root, done + {node.id}, toDo[1..] + kids, left)
            && node in data && node.id !in done && |kids| + |left| == |rows|
            && kids == (if node.id == root then [] else KidsOf(data, node.id))
            && forall r :: r in data && r.id == node.id ==> r == node
  {
    hide KidsOf, RestOf, Chain, Reached, DistinctIds;
    var node, rest := toDo[0], toDo[1..];
    assert node in toDo;
    NextKids(data, root, done, toDo, rows);
    var kids := KidsOf(rows, node.id);
    forall r | r in data && r.id == node.id ensures r == node {
      SameId(data, r, node);
    }
    NextQueue(data, root, done, toDo, rows);
    var now := done + {node.id};
    forall r | r in data && r.id in now ensures r.parentId == root || r.parentId in now {}
  }

  /** The queue after a turn: distinct rows, none handled before, and all that have become children. */
  lemma NextQueue(data: seq<Row>, root: int, done: set<int>, toDo: seq<Row>, rows: seq<Row>)
    requires DistinctIds(data) && Progress(data, root, done, toDo, rows) && toDo != []
    ensures var node := toDo[0];
            var queue, now := toDo[1..] + KidsOf(rows, node.id), done + {node.id};
            && DistinctIds(queue)
            && (forall r :: r in queue ==> r in data && (r.parentId == root || r.parentId in now) && r.id !in now)
            && (forall r :: r in data && (r.parentId == root || r.parentId in now) ==> r.id in now || r in queue)
  {
    hide KidsOf, RestOf, Chain, Reached, DistinctIds;
    var node, rest := toDo[0], toDo[1..];
    assert node in toDo;
    NextKids(data, root, done, toDo, rows);
    var kids := KidsOf(rows, node.id);
    Tail(toDo);
    forall r, s | r in toDo && s in kids ensures r.id != s.id {
      if r.id == s.id {
        SameId(data, r, s);
      }
    }
    Joined(rest, kids);
  }

  lemma Tail(s: seq<Row>)
    requires DistinctIds(s) && s != []
    ensures DistinctIds(s[1..])
    ensures forall r :: r in s[1..] ==> r in s && r.id != s[0].id
    ensures forall r :: r in s ==> r == s[0] || r in s[1..]
  {
    assert s == [s[0]] + s[1..];
    forall r | r in s[1..] ensures r.id != s[0].id {
      var j :| 0 <= j < |s[1..]| && s[1..][j] == r;
      assert s[j + 1] == r;
    }
  }

  lemma Joined(a: seq<Row>, b: seq<Row>)
    requires DistinctIds(a) && DistinctIds(b) && forall r, s :: r in a && s in b ==> r.id != s.id
    ensures DistinctIds(a + b)
    ensures forall r :: r in a + b <==> r in a || r in b
  {
    var s := a + b;
    forall i, j | 0 <= i < j < |s| ensures s[i].id != s[j].id {
      if i < |a| <= j {
        assert s[i] in a && s[j] in b;
      }
    }
  }

  /** When the queue is empty, what was taken is closed under children. */
  lemma Finish(data: seq<Row>, root: int, done: set<int>, rows: seq<Row>)
    requires Progress(data, root, done, [], rows)
    ensures rows == RestOf(data, {root} + done)
    ensures forall k :: k in {root} + done <==> Reached(data, root, k)
    ensures forall k :: k in done <==> PlacedId(data, root, k)
  {
    var taken := {root} + done;
    forall k | Reached(data, root, k) ensures k in taken {
      var path :| Chain(data, root, path, k);
      Follow(data, root, taken, path, |path| - 1);
    }
  }

  lemma {:induction false} Follow(data: seq<Row>, root: int, taken: set<int>, path: seq<int>, i: nat)
    requires root in taken && forall r :: r in data && r.parentId in taken ==> r.id in taken
    requires i < |path| && Chain(data, root, path, path[|path| - 1])
    ensures path[i] in taken
  {
    if i > 0 {
      Follow(data, root, taken, path, i - 1);
      assert Link(data, path[i - 1], path[i]);
    }
  }

  // ----- which rows belong into the forest -----

  /** A row is placed iff it lies directly below the root or below a placed row: orphans are left out. */
  lemma PlacedIff(data: seq<Row>, root: int, r: Row)
    requires r in data
    ensures Placed(data, root, r) <==> r.parentId == root || PlacedId(data, root, r.parentId)
  {
    if r.parentId == root {
      assert Chain(data, root, [root], root);
    } else if Placed(data, root, r) {
      var path :| Chain(data, root, path, r.parentId);
      var n := |path|;
      assert Link(data, path[n - 2], path[n - 1]);
      var p :| p in data && p.id == r.parentId && p.parentId == path[n - 2];
      assert Chain(data, root, path[..n - 1], p.parentId);
      assert Placed(data, root, p);
    } else if PlacedId(data, root, r.parentId) {
      var p :| p in data && p.id == r.parentId && Placed(data, root, p);
      ReachChild(data, root, p);
    }
  }

  /** Ids from which no chain of parents leads out, let alone to the root: those of orphans, of rows that
      name each other in a circle, and of all rows below these. */
  predicate Adrift(data: seq<Row>, root: int, ids: set<int>) {
    root !in ids && forall r :: r in data && r.id in ids ==> r.parentId in ids
  }

  lemma {:induction false} NoChain(data: seq<Row>, root: int, ids: set<int>, path: seq<int>, k: int)
    requires Adrift(data, root, ids) && k in ids
    ensures !Chain(data, root, path, k)
    decreases |path|
  {
    if Chain(data, root, path, k) && |path| > 1 {
      var n := |path|;
      assert Link(data, path[n - 2], path[n - 1]);
      assert Chain(data, root, path[..n - 1], path[n - 2]);
      NoChain(data, root, ids, path[..n - 1], path[n - 2]);
    }
  }

  /** The left-over rows are exactly those below such ids. */
  lemma LeftOutIff(data: seq<Row>, root: int, r: Row)
    requires r in data
    ensures !Placed(data, root, r) <==> exists ids :: Adrift(data, root, ids) && r.parentId in ids
  {
    if Placed(data, root, r) {
      var path :| Chain(data, root, path, r.parentId);
      forall ids | Adrift(data, root, ids) && r.parentId in ids ensures false {
        NoChain(data, root, ids, path, r.parentId);
      }
    } else {
      var all := set s | s in data :: s.parentId;
      ghost var ids := set k | k in all && !Reached(data, root, k);
      assert Reached(data, root, root) by { assert Chain(data, root, [root], root); }
      forall s | s in data && s.id in ids ensures s.parentId in ids {
        if Reached(data, root, s.parentId) {
          ReachChild(data, root, s);
        }
      }
      assert Adrift(data, root, ids) && r.parentId in ids;
    }
  }

  /** The rows that `transfer` attaches: those whose parent is the root or is attached itself. */
  function TakenOf(data: seq<Row>, taken: set<int>): seq<Row> {
    if data == [] then []
    else (if data[0].parentId in taken then [data[0]] else []) + TakenOf(data[1..], taken)
  }

  lemma {:induction false} TakenKids(data: seq<Row>, taken: set<int>, k: int)
    ensures KidsOf(TakenOf(data, taken), k) == if k in taken then KidsOf(data, k) else []
  {
    hide KidsOf, TakenOf;
    if data == [] {
      NoneTaken(taken, k);
    } else {
      TakenKids(data[1..], taken, k);
      FirstTaken(data, taken);
      KidsOfFirst(data[0], data[1..], k);
      KidsOfFirst(data[0], TakenOf(data[1..], taken), k);
      assert [data[0]] + data[1..] == data;
    }
  }

  lemma NoneTaken(taken: set<int>, k: int)
    ensures KidsOf(TakenOf([], taken), k) == [] == KidsOf([], k)
  {
  }

  lemma FirstTaken(data: seq<Row>, taken: set<int>)
    requires data != []
    ensures var tail := TakenOf(data[1..], taken);
            TakenOf(data, taken) == if data[0].parentId in taken then [data[0]] + tail else tail
  {
  }

  lemma KidsOfFirst(r: Row, rest: seq<Row>, k: int)
    ensures KidsOf([r] + rest, k) == if r.parentId == k then [r] + KidsOf(rest, k) else KidsOf(rest, k)
  {
    assert ([r] + rest)[1..] == rest;
  }

  lemma {:induction false} TakenAndRest(data: seq<Row>, taken: set<int>)
    ensures multiset(TakenOf(data, taken)) + multiset(RestOf(data, taken)) == multiset(data)
  {
    if data != [] {
      assert data == [data[0]] + data[1..];
      TakenAndRest(data[1..], taken);
    }
  }

  /** Nothing is lost and nothing doubled: attached and left-over rows together are the input, and the
      attached rows are just the child lists of the rows reached, each in input order. */
  lemma Conserved(data: seq<Row>, taken: set<int>)
    ensures multiset(TakenOf(data, taken)) + multiset(RestOf(data, taken)) == multiset(data)
    ensures forall k :: KidsOf(TakenOf(data, taken), k) == if k in taken then KidsOf(data, k) else []
  {
    TakenAndRest(data, taken);
    forall k ensures KidsOf(TakenOf(data, taken), k) == if k in taken then KidsOf(data, k) else [] {
      TakenKids(data, taken, k);
    }
  }
}
