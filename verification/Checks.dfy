/** The tri-state checkboxes of a tree: what a consistent assignment is and how far a local
    change can spoil it. */
module Checks {
  import opened Forest
  import opened Wrappers

  /** The three checkbox classes: tree-checkbox0, tree-checkbox1 and tree-checkbox2. */
  datatype Tri = Off | On | Mixed

  type Boxes = map<Id, Tri>

  function At(box: Boxes, id: Id): Tri {
    if id in box then box[id] else Off
  }

  predicate AllAre(fs: seq<Node>, box: Boxes, t: Tri) {
    forall n :: n in fs ==> At(box, n.id) == t
  }

  /** What a list of siblings makes of their parent. */
  function Aggregate(fs: seq<Node>, box: Boxes): Tri {
    if AllAre(fs, box, On) then On else if AllAre(fs, box, Off) then Off else Mixed
  }

  predicate NodeOk(n: Node, box: Boxes) {
    if n.children == [] then At(box, n.id) != Mixed else At(box, n.id) == Aggregate(n.children, box)
  }

  /** Leaves are 0 or 1, an inner node is what its children make of it. */
  predicate Consistent(fs: seq<Node>, box: Boxes) {
    fs == [] || (NodeOk(fs[0], box) && Consistent(fs[0].children, box) && Consistent(fs[1..], box))
  }

  /** Every node is fine, except possibly the ancestors of `id` and the subtree of `id`. */
  predicate OkOutside(fs: seq<Node>, box: Boxes, id: Id) {
    fs == [] ||
    (&& (fs[0].id != id ==>
           (id in IdSet(fs[0].children) || NodeOk(fs[0], box)) && OkOutside(fs[0].children, box, id))
     && OkOutside(fs[1..], box, id))
  }

  /** Every node is fine, except possibly node `id` itself. */
  predicate OkExcept(fs: seq<Node>, box: Boxes, id: Id) {
    fs == [] ||
    (&& (fs[0].id == id || NodeOk(fs[0], box))
     && OkExcept(fs[0].children, box, id)
     && OkExcept(fs[1..], box, id))
  }

  function Leaves(fs: seq<Node>): set<Id> {
    if fs == [] then {}
    else (if fs[0].children == [] then {fs[0].id} else Leaves(fs[0].children)) + Leaves(fs[1..])
  }

  /** The leaves that are checked. */
  function OnLeaves(fs: seq<Node>, box: Boxes): set<Id> {
    set l | l in Leaves(fs) && At(box, l) == On
  }

  predicate SameOn(ids: set<Id>, a: Boxes, b: Boxes) {
    forall i :: i in ids ==> At(a, i) == At(b, i)
  }

  // ----- facts about sibling lists -----

  lemma MemberInIdSet(fs: seq<Node>)
    ensures forall n :: n in fs ==> n.id in IdSet(fs)
  {
    RootsInIdSet(fs);
    assert forall i :: 0 <= i < |fs| ==> fs[i].id in Roots(fs);
  }

  lemma AllAreCons(fs: seq<Node>, box: Boxes, t: Tri)
    requires fs != []
    ensures AllAre(fs, box, t) <==> At(box, fs[0].id) == t && AllAre(fs[1..], box, t)
  {
    assert forall n :: n in fs <==> n == fs[0] || n in fs[1..];
  }

  /** Only the boxes of a forest's own nodes matter to it. */
  lemma {:induction false} Frame(fs: seq<Node>, a: Boxes, b: Boxes, id: Id)
    requires SameOn(IdSet(fs), a, b)
    ensures Aggregate(fs, a) == Aggregate(fs, b)
    ensures Consistent(fs, a) == Consistent(fs, b)
    ensures OkOutside(fs, a, id) == OkOutside(fs, b, id)
    ensures OkExcept(fs, a, id) == OkExcept(fs, b, id)
  {
    MemberInIdSet(fs);
    if fs != [] {
      Frame(fs[0].children, a, b, id);
      Frame(fs[1..], a, b, id);
    }
  }

  lemma {:induction false} Absent(fs: seq<Node>, box: Boxes, id: Id)
    requires id !in IdSet(fs)
    ensures OkOutside(fs, box, id) <==> Consistent(fs, box)
    ensures OkExcept(fs, box, id) <==> Consistent(fs, box)
  {
    if fs != [] {
      Absent(fs[0].children, box, id);
      Absent(fs[1..], box, id);
    }
  }

  lemma {:induction false} ConsistentConcat(a: seq<Node>, b: seq<Node>, box: Boxes, id: Id)
    ensures Consistent(a + b, box) <==> Consistent(a, box) && Consistent(b, box)
    ensures OkOutside(a + b, box, id) <==> OkOutside(a, box, id) && OkOutside(b, box, id)
  {
    if a == [] {
      assert a + b == b;
    } else {
      assert (a + b)[1..] == a[1..] + b;
      ConsistentConcat(a[1..], b, box, id);
    }
  }

  lemma {:induction false} LeavesConcat(a: seq<Node>, b: seq<Node>)
    ensures Leaves(a + b) == Leaves(a) + Leaves(b)
  {
    if a == [] {
      assert a + b == b;
    } else {
      assert (a + b)[1..] == a[1..] + b;
      LeavesConcat(a[1..], b);
    }
  }

  lemma {:induction false} ConsistentLookup(fs: seq<Node>, box: Boxes, id: Id)
    requires Consistent(fs, box) && Lookup(fs, id).Some?
    ensures Consistent([Lookup(fs, id).value], box)
  {
    if fs[0].id != id {
      if Lookup(fs[0].children, id).Some? {
        ConsistentLookup(fs[0].children, box, id);
      } else {
        ConsistentLookup(fs[1..], box, id);
      }
    }
  }

  lemma {:induction false} LeavesInside(fs: seq<Node>)
    ensures Leaves(fs) <= IdSet(fs)
    ensures fs != [] ==> Leaves(fs) != {}
  {
    if fs != [] {
      LeavesInside(fs[0].children);
      LeavesInside(fs[1..]);
    }
  }

  // ----- what consistency means -----

  /** In a consistent forest, the roots are all 1 (all 0) exactly when all leaves are. */
  lemma {:induction false} RootsFollowLeaves(fs: seq<Node>, box: Boxes)
    requires Consistent(fs, box)
    ensures AllAre(fs, box, On) <==> Leaves(fs) <= OnLeaves(fs, box)
    ensures AllAre(fs, box, Off) <==> OnLeaves(fs, box) == {}
    ensures forall l :: l in Leaves(fs) ==> At(box, l) != Mixed
  {
    LeavesInside(fs);
    if fs != [] {
      var kids, rest := fs[0].children, fs[1..];
      AllAreCons(fs, box, On);
      AllAreCons(fs, box, Off);
      RootsFollowLeaves(kids, box);
      RootsFollowLeaves(rest, box);
      LeavesInside(kids);
      LeavesInside(rest);
      var first := if kids == [] then {fs[0].id} else Leaves(kids);
      var on := set l | l in first && At(box, l) == On;
      assert OnLeaves(fs, box) == on + OnLeaves(rest, box);
      if kids != [] {
        assert on == OnLeaves(kids, box);
        assert kids[0] in kids;
      }
    }
  }

  /** The meaning of a consistent box: 1 iff every leaf below is 1, 0 iff every leaf below is 0,
      and 2 otherwise. */
  lemma {:induction false} BoxMeaning(fs: seq<Node>, box: Boxes, id: Id)
    requires Consistent(fs, box) && Lookup(fs, id).Some?
    ensures var below := Leaves([Lookup(fs, id).value]);
            && (At(box, id) == On <==> forall l :: l in below ==> At(box, l) == On)
            && (At(box, id) == Off <==> forall l :: l in below ==> At(box, l) == Off)
  {
    var n := Lookup(fs, id).value;
    ConsistentLookup(fs, box, id);
    LookupId(fs, id);
    RootsFollowLeaves([n], box);
    assert n in [n];
    assert forall m :: m in [n] ==> m == n;
    if forall l :: l in Leaves([n]) ==> At(box, l) == On {
      assert Leaves([n]) <= OnLeaves([n], box);
    }
    if forall l :: l in Leaves([n]) ==> At(box, l) == Off {
      assert OnLeaves([n], box) == {};
    }
    if At(box, id) == Off {
      forall l | l in Leaves([n]) ensures At(box, l) == Off {
        assert l !in OnLeaves([n], box);
      }
    }
  }

  lemma {:induction false} LookupId(fs: seq<Node>, id: Id)
    requires Lookup(fs, id).Some?
    ensures Lookup(fs, id).value.id == id
  {
    if fs[0].id != id {
      if Lookup(fs[0].children, id).Some? {
        LookupId(fs[0].children, id);
      } else {
        LookupId(fs[1..], id);
      }
    }
  }

  /** A consistent assignment is determined by its leaves. */
  lemma {:induction false} LeavesDetermine(fs: seq<Node>, a: Boxes, b: Boxes)
    requires Consistent(fs, a) && Consistent(fs, b)
    requires OnLeaves(fs, a) == OnLeaves(fs, b)
    ensures SameOn(IdSet(fs), a, b)
  {
    if fs != [] {
      var kids, rest := fs[0].children, fs[1..];
      RootsFollowLeaves(fs, a);
      RootsFollowLeaves(fs, b);
      forall l | l in Leaves(fs) ensures At(a, l) == At(b, l) {
        assert l in OnLeaves(fs, a) <==> l in OnLeaves(fs, b);
      }
      LeavesDetermine(rest, a, b);
      if kids != [] {
        LeavesDetermine(kids, a, b);
        Frame(kids, a, b, 0);
      }
    }
  }

  /** Below a node that is 1 (0), everything is 1 (0). */
  lemma {:induction false} UniformDown(fs: seq<Node>, box: Boxes, t: Tri)
    requires Consistent(fs, box) && AllAre(fs, box, t) && t != Mixed
    ensures forall i :: i in IdSet(fs) ==> At(box, i) == t
  {
    if fs != [] {
      AllAreCons(fs, box, t);
      if fs[0].children != [] {
        assert fs[0].children[0] in fs[0].children;
        UniformDown(fs[0].children, box, t);
      }
      UniformDown(fs[1..], box, t);
    }
  }

  /** A subtree painted in one colour is consistent. */
  lemma {:induction false} Painted(fs: seq<Node>, box: Boxes, t: Tri)
    requires t != Mixed
    requires forall i :: i in IdSet(fs) ==> At(box, i) == t
    ensures Consistent(fs, box)
  {
    if fs != [] {
      var kids := fs[0].children;
      Painted(kids, box, t);
      Painted(fs[1..], box, t);
      MemberInIdSet(kids);
      if kids != [] { assert kids[0] in kids; }
    }
  }

  // ----- local changes -----

  /** Painting the subtree of `id` leaves only its ancestors to be mended. */
  lemma {:induction false} PaintSubtree(fs: seq<Node>, a: Boxes, b: Boxes, id: Id, t: Tri)
    requires Unique(fs) && t != Mixed && Lookup(fs, id).Some?
    requires OkOutside(fs, a, id)
    requires SameOn(IdSet(fs) - IdSet([Lookup(fs, id).value]), a, b)
    requires forall i :: i in IdSet([Lookup(fs, id).value]) ==> At(b, i) == t
    ensures OkOutside(fs, b, id) && Consistent([Lookup(fs, id).value], b)
  {
    var kids, rest := fs[0].children, fs[1..];
    LookupInside(fs, id);
    LookupInside(kids, id);
    LookupInside(rest, id);
    if fs[0].id == id {
      Painted([fs[0]], b, t);
      Frame(rest, a, b, id);
    } else if id in IdSet(kids) {
      PaintSubtree(kids, a, b, id, t);
      Frame(rest, a, b, id);
    } else {
      PaintSubtree(rest, a, b, id, t);
      Frame([fs[0]], a, b, id);
      Frame(kids, a, b, id);
    }
  }

  /** One step of the climb: once the parent is recomputed from its children, only the parent's own
      ancestors remain. */
  lemma {:induction false} ClimbStep(fs: seq<Node>, a: Boxes, b: Boxes, id: Id)
    requires Unique(fs) && Parent(fs, id).Some?
    requires OkOutside(fs, a, id) && Lookup(fs, id).Some? && Consistent([Lookup(fs, id).value], a)
    requires SameOn(IdSet(fs) - {Parent(fs, id).value.id}, a, b)
    requires At(b, Parent(fs, id).value.id) == Aggregate(Parent(fs, id).value.children, a)
    ensures var p := Parent(fs, id).value;
            OkOutside(fs, b, p.id) && Consistent([p], b)
  {
    var kids, rest := fs[0].children, fs[1..];
    var p := Parent(fs, id).value;
    ParentInside(fs, id);
    ParentInside(kids, id);
    ParentInside(rest, id);
    RootsInIdSet(kids);
    LookupInside(fs, id);
    LookupInside(kids, id);
    LookupInside(rest, id);
    if id in Roots(kids) {
      var i :| 0 <= i < |kids| && kids[i].id == id;
      assert Consistent(kids, b) && Aggregate(kids, b) == Aggregate(kids, a) by {
        RootMended(kids, a, id, i);
        Frame(kids, a, b, id);
      }
      assert OkOutside(rest, b, p.id) by {
        Absent(rest, a, id);
        Untouched(rest, a, b, p.id);
      }
      assert [fs[0]][1..] == [];
    } else if Parent(kids, id).Some? {
      assert OkOutside(kids, b, p.id) && Consistent([p], b) by { ClimbStep(kids, a, b, id); }
      assert OkOutside(rest, b, p.id) by {
        Absent(rest, a, id);
        Untouched(rest, a, b, p.id);
      }
    } else {
      assert OkOutside(rest, b, p.id) && Consistent([p], b) by { ClimbStep(rest, a, b, id); }
      assert OkOutside([fs[0]], b, p.id) by {
        Absent([fs[0]], a, id);
        Untouched([fs[0]], a, b, p.id);
      }
    }
  }

  lemma {:induction false} RootMended(fs: seq<Node>, box: Boxes, id: Id, i: nat)
    requires Unique(fs) && i < |fs| && fs[i].id == id
    requires OkOutside(fs, box, id) && Lookup(fs, id).Some? && Consistent([Lookup(fs, id).value], box)
    ensures Consistent(fs, box)
  {
    MemberInIdSet(fs);
    MemberInIdSet(fs[1..]);
    if i > 0 {
      assert fs[1..][i - 1].id in IdSet(fs[1..]);
      LookupInside(fs[0].children, id);
      RootMended(fs[1..], box, id, i - 1);
      Absent(fs[0].children, box, id);
    } else {
      Absent(fs[1..], box, id);
    }
  }

  /** At a root there is nothing left to mend. */
  lemma ClimbDone(fs: seq<Node>, box: Boxes, id: Id)
    requires Unique(fs) && Parent(fs, id).None?
    requires OkOutside(fs, box, id) && Lookup(fs, id).Some? && Consistent([Lookup(fs, id).value], box)
    ensures Consistent(fs, box)
  {
    ParentInside(fs, id);
    LookupInside(fs, id);
    var i :| 0 <= i < |fs| && fs[i].id == id;
    RootMended(fs, box, id, i);
  }

  lemma {:induction false} ExceptIsOutside(fs: seq<Node>, box: Boxes, id: Id)
    requires OkExcept(fs, box, id)
    ensures OkOutside(fs, box, id)
  {
    if fs != [] {
      ExceptIsOutside(fs[0].children, box, id);
      ExceptIsOutside(fs[1..], box, id);
    }
  }

  lemma {:induction false} ConsistentIsExcept(fs: seq<Node>, box: Boxes, id: Id)
    requires Consistent(fs, box)
    ensures OkExcept(fs, box, id)
  {
    if fs != [] {
      ConsistentIsExcept(fs[0].children, box, id);
      ConsistentIsExcept(fs[1..], box, id);
    }
  }

  lemma {:induction false} ExceptMended(fs: seq<Node>, box: Boxes, id: Id)
    requires Unique(fs) && OkExcept(fs, box, id)
    requires Lookup(fs, id).Some?
    ensures NodeOk(Lookup(fs, id).value, box) <==> Consistent(fs, box)
    ensures Consistent(Lookup(fs, id).value.children, box)
  {
    var kids, rest := fs[0].children, fs[1..];
    LookupInside(fs, id);
    LookupInside(kids, id);
    LookupInside(rest, id);
    if fs[0].id == id {
      Absent(kids, box, id);
      Absent(rest, box, id);
    } else if Lookup(kids, id).Some? {
      ExceptMended(kids, box, id);
      Absent(rest, box, id);
    } else {
      ExceptMended(rest, box, id);
      Absent(kids, box, id);
    }
  }

  /** Replacing the child array of `id` by one that is fine but for `c` leaves only `c`'s ancestors. */
  lemma {:induction false} PutOkOutside(fs: seq<Node>, a: Boxes, b: Boxes, id: Id, kids: seq<Node>, c: Id)
    requires Unique(fs) && id in IdSet(fs)
    requires OkOutside(fs, a, id)
    requires SameOn(IdSet(fs) - IdSet(Children(fs, id)), a, b)
    requires OkOutside(kids, b, c) && c in IdSet(kids) && c !in IdSet(fs) - IdSet(Children(fs, id))
    ensures OkOutside(PutChildren(fs, id, kids), b, c)
  {
    hide NodeOk, Consistent;
    var own, rest := fs[0].children, fs[1..];
    LookupInside(fs, id);
    LookupInside(own, id);
    LookupInside(rest, id);
    if fs[0].id == id {
      assert PutChildren(fs, id, kids) == [Node(id, kids)] + rest by { PutAbsent(rest, id, kids); }
      assert OkOutside(rest, b, c) by {
        Absent(rest, a, id);
        Untouched(rest, a, b, c);
      }
      OkOutsideCons(Node(id, kids), rest, b, c);
    } else if id in IdSet(own) {
      var first := Node(fs[0].id, PutChildren(own, id, kids));
      assert PutChildren(fs, id, kids) == [first] + rest by { PutAbsent(rest, id, kids); }
      IdSetCons(first, rest);
      assert OkOutside(first.children, b, c) by { PutOkOutside(own, a, b, id, kids, c); }
      assert c in IdSet(first.children) by { PutIds(own, id, kids); }
      assert OkOutside(rest, b, c) by {
        Absent(rest, a, id);
        Untouched(rest, a, b, c);
      }
      OkOutsideCons(first, rest, b, c);
    } else {
      assert PutChildren(fs, id, kids) == [fs[0]] + PutChildren(rest, id, kids) by { PutAbsent(own, id, kids); }
      IdSetCons(fs[0], PutChildren(rest, id, kids));
      assert OkOutside(PutChildren(rest, id, kids), b, c) by { PutOkOutside(rest, a, b, id, kids, c); }
      assert OkOutside([fs[0]], b, c) by {
        Absent([fs[0]], a, id);
        Untouched([fs[0]], a, b, c);
      }
      OkOutsideCons(fs[0], PutChildren(rest, id, kids), b, c);
    }
  }

  lemma OkOutsideCons(n: Node, rest: seq<Node>, box: Boxes, id: Id)
    ensures OkOutside([n] + rest, box, id) <==>
              && (n.id != id ==> (id in IdSet(n.children) || NodeOk(n, box)) && OkOutside(n.children, box, id))
              && OkOutside(rest, box, id)
  {
    assert ([n] + rest)[1..] == rest;
  }

  lemma SameAggregate(f: seq<Node>, g: seq<Node>, a: Boxes, b: Boxes)
    requires |f| == |g|
    requires forall i :: 0 <= i < |f| ==> f[i].id == g[i].id && At(a, f[i].id) == At(b, f[i].id)
    ensures Aggregate(f, a) == Aggregate(g, b)
  {
    forall t ensures AllAre(f, a, t) <==> AllAre(g, b, t) {
      if AllAre(f, a, t) {
        forall n | n in g ensures At(b, n.id) == t {
          var i :| 0 <= i < |g| && g[i] == n;
          assert f[i] in f;
        }
      }
      if AllAre(g, b, t) {
        forall n | n in f ensures At(a, n.id) == t {
          var i :| 0 <= i < |f| && f[i] == n;
          assert g[i] in g;
        }
      }
    }
  }

  lemma {:induction false} RootsAreNotBelow(fs: seq<Node>, id: Id)
    requires Unique(fs) && id in IdSet(fs)
    ensures forall i :: 0 <= i < |fs| ==> fs[i].id !in IdSet(Children(fs, id))
  {
    LookupInside(fs[0].children, id);
    LookupInside(fs[1..], id);
    RootsInIdSet(fs[1..]);
    assert forall i :: 0 < i < |fs| ==> fs[i].id == fs[1..][i - 1].id && fs[i].id in Roots(fs[1..]);
    if fs[0].id != id && id !in IdSet(fs[0].children) {
      RootsAreNotBelow(fs[1..], id);
      assert Lookup(fs, id).Some?;
      assert IdSet(Children(fs, id)) <= IdSet(fs[1..]);
    }
  }

  lemma {:induction false} PutKeepsRoots(fs: seq<Node>, id: Id, kids: seq<Node>)
    ensures |PutChildren(fs, id, kids)| == |fs|
    ensures forall i :: 0 <= i < |fs| ==> PutChildren(fs, id, kids)[i].id == fs[i].id
  {
    if fs != [] {
      PutKeepsRoots(fs[1..], id, kids);
      var out := PutChildren(fs, id, kids);
      assert out[1..] == PutChildren(fs[1..], id, kids);
      forall i | 0 < i < |fs| ensures out[i].id == fs[i].id {
        assert out[i] == out[1..][i - 1] && fs[i] == fs[1..][i - 1];
      }
    }
  }

  /** A node above `id` reads the same boxes before and after the write. */
  lemma PutNodeOk(n: Node, a: Boxes, b: Boxes, id: Id, kids: seq<Node>)
    requires Unique([n]) && id in IdSet(n.children) && NodeOk(n, a)
    requires SameOn(IdSet([n]) - IdSet(Children(n.children, id)), a, b)
    ensures NodeOk(Node(n.id, PutChildren(n.children, id, kids)), b)
  {
    PutKeepsRoots(n.children, id, kids);
    RootsAreNotBelow(n.children, id);
    LookupInside(n.children, id);
    MemberInIdSet(n.children);
    SameAggregate(n.children, PutChildren(n.children, id, kids), a, b);
  }

  /** Replacing the child array of `id` by a consistent one leaves only node `id` in question. */
  lemma {:induction false} PutOkExcept(fs: seq<Node>, a: Boxes, b: Boxes, id: Id, kids: seq<Node>)
    requires Unique(fs) && id in IdSet(fs)
    requires Consistent(fs, a)
    requires id !in IdSet(kids)
    requires SameOn(IdSet(fs) - IdSet(Children(fs, id)), a, b)
    requires Consistent(kids, b)
    ensures OkExcept(PutChildren(fs, id, kids), b, id)
  {
    hide Aggregate;
    var own, rest := fs[0].children, fs[1..];
    LookupInside(own, id);
    LookupInside(rest, id);
    if fs[0].id == id {
      assert PutChildren(fs, id, kids) == [Node(id, kids)] + rest by { PutAbsent(rest, id, kids); }
      assert OkExcept(rest, b, id) by { Untouched(rest, a, b, id); }
      Absent(kids, b, id);
      OkExceptCons(Node(id, kids), rest, b, id);
    } else if id in IdSet(own) {
      var first := Node(fs[0].id, PutChildren(own, id, kids));
      assert PutChildren(fs, id, kids) == [first] + rest by { PutAbsent(rest, id, kids); }
      assert OkExcept(rest, b, id) by { Untouched(rest, a, b, id); }
      assert OkExcept(first.children, b, id) by { PutOkExcept(own, a, b, id, kids); }
      assert NodeOk(first, b) by { PutNodeOk(fs[0], a, b, id, kids); }
      OkExceptCons(first, rest, b, id);
    } else {
      assert PutChildren(fs, id, kids) == [fs[0]] + PutChildren(rest, id, kids) by { PutAbsent(own, id, kids); }
      assert OkExcept([fs[0]], b, id) by { Untouched([fs[0]], a, b, id); }
      PutOkExcept(rest, a, b, id, kids);
      OkExceptCons(fs[0], PutChildren(rest, id, kids), b, id);
    }
  }

  lemma Untouched(fs: seq<Node>, a: Boxes, b: Boxes, id: Id)
    requires Consistent(fs, a) && SameOn(IdSet(fs), a, b) && id !in IdSet(fs)
    ensures Consistent(fs, b) && OkExcept(fs, b, id) && OkOutside(fs, b, id)
  {
    Frame(fs, a, b, id);
    Absent(fs, b, id);
  }

  lemma OkExceptCons(n: Node, rest: seq<Node>, box: Boxes, id: Id)
    ensures OkExcept([n] + rest, box, id) <==>
              (n.id == id || NodeOk(n, box)) && OkExcept(n.children, box, id) && OkExcept(rest, box, id)
  {
    assert ([n] + rest)[1..] == rest;
  }

  // ----- leaf sets -----

  lemma {:induction false} LeafIsBare(fs: seq<Node>, l: Id)
    requires Unique(fs) && l in IdSet(fs)
    ensures l in Leaves(fs) <==> Children(fs, l) == []
  {
    var kids, rest := fs[0].children, fs[1..];
    LeavesInside(kids);
    LeavesInside(rest);
    LookupInside(kids, l);
    LookupInside(rest, l);
    if l in IdSet(kids) {
      LeafIsBare(kids, l);
    } else if l in IdSet(rest) {
      LeafIsBare(rest, l);
    }
  }

  lemma {:induction false} SubtreeLeaves(fs: seq<Node>, id: Id)
    requires Unique(fs) && Lookup(fs, id).Some?
    ensures Leaves([Lookup(fs, id).value]) == Leaves(fs) * IdSet([Lookup(fs, id).value])
  {
    var kids, rest := fs[0].children, fs[1..];
    LookupInside(fs, id);
    LookupInside(kids, id);
    LookupInside(rest, id);
    LeavesInside(kids);
    LeavesInside(rest);
    LeavesInside([Lookup(fs, id).value]);
    if fs[0].id == id {
    } else if Lookup(kids, id).Some? {
      SubtreeLeaves(kids, id);
    } else {
      SubtreeLeaves(rest, id);
    }
  }

  /** Setting a subtree to `t` and recomputing ancestors moves exactly the subtree's leaves. */
  lemma PaintedLeaves(fs: seq<Node>, a: Boxes, b: Boxes, id: Id, t: Tri)
    requires Unique(fs) && id in IdSet(fs) && t != Mixed
    requires Lookup(fs, id).Some?
    requires forall i :: i in IdSet([Lookup(fs, id).value]) ==> At(b, i) == t
    requires SameOn(IdSet(fs) - IdSet([Lookup(fs, id).value]) - (set i | i in Ancestors(fs, id)), a, b)
    ensures OnLeaves(fs, b) == if t == On then OnLeaves(fs, a) + Leaves([Lookup(fs, id).value])
                               else OnLeaves(fs, a) - Leaves([Lookup(fs, id).value])
  {
    var n := Lookup(fs, id).value;
    SubtreeLeaves(fs, id);
    LeavesInside(fs);
    forall l | l in Leaves(fs) && l !in Leaves([n]) ensures At(a, l) == At(b, l) {
      LeafIsBare(fs, l);
      AncestorHolds(fs, id, l);
    }
  }

  lemma {:induction false} PutLeaves(fs: seq<Node>, id: Id, kids: seq<Node>)
    requires Unique(fs) && id in IdSet(fs)
    ensures Leaves(PutChildren(fs, id, kids))
         == Leaves(fs) - ({id} + Leaves(Children(fs, id))) + (if kids == [] then {id} else Leaves(kids))
  {
    var own, rest := fs[0].children, fs[1..];
    var gone := {id} + Leaves(Children(fs, id));
    var added := if kids == [] then {id} else Leaves(kids);
    LookupInside(own, id);
    LookupInside(rest, id);
    LeavesInside(Children(fs, id));
    LeavesInside(own);
    LeavesInside(rest);
    if fs[0].id == id {
      assert PutChildren(fs, id, kids) == [Node(id, kids)] + rest by { PutAbsent(rest, id, kids); }
      LeavesCons(Node(id, kids), rest);
    } else if id in IdSet(own) {
      var first := Node(fs[0].id, PutChildren(own, id, kids));
      assert PutChildren(fs, id, kids) == [first] + rest by { PutAbsent(rest, id, kids); }
      assert Leaves(first.children) == Leaves(own) - gone + added by { PutLeaves(own, id, kids); }
      PutKeepsRoots(own, id, kids);
      LeavesCons(first, rest);
      MoveOut(Leaves(own), Leaves(rest), gone, added);
    } else {
      assert PutChildren(fs, id, kids) == [fs[0]] + PutChildren(rest, id, kids) by { PutAbsent(own, id, kids); }
      assert Leaves(PutChildren(rest, id, kids)) == Leaves(rest) - gone + added by { PutLeaves(rest, id, kids); }
      LeavesCons(fs[0], PutChildren(rest, id, kids));
      var head := if own == [] then {fs[0].id} else Leaves(own);
      assert Leaves(fs) == head + Leaves(rest);
      MoveOut(Leaves(rest), head, gone, added);
    }
  }

  lemma MoveOut(a: set<Id>, b: set<Id>, gone: set<Id>, added: set<Id>)
    requires b !! gone
    ensures (a - gone + added) + b == (a + b) - gone + added
    ensures b + (a - gone + added) == (b + a) - gone + added
  {
  }

  lemma LeavesCons(n: Node, rest: seq<Node>)
    ensures Leaves([n] + rest) == (if n.children == [] then {n.id} else Leaves(n.children)) + Leaves(rest)
  {
    assert ([n] + rest)[1..] == rest;
  }

  /** The leaves that are checked in incoming data, or lie below a checked node of it. */
  function CheckedLeaves(items: seq<Node>, checked: set<Id>): set<Id> {
    set n, l | n in Preorder(items) && n.id in checked && l in Leaves([n]) :: l
  }

  lemma {:induction false} PreorderLookup(fs: seq<Node>, n: Node)
    requires Unique(fs) && n in Preorder(fs)
    ensures Lookup(fs, n.id) == Some(n)
  {
    var kids, rest := fs[0].children, fs[1..];
    LookupInside(kids, n.id);
    LookupInside(rest, n.id);
    if n in Preorder(kids) {
      PreorderLookup(kids, n);
    } else if n in Preorder(rest) {
      PreorderLookup(rest, n);
    }
  }

  lemma {:induction false} PutPreorder(fs: seq<Node>, id: Id, kids: seq<Node>, n: Node)
    requires id in IdSet(fs) && n in Preorder(kids)
    ensures n in Preorder(PutChildren(fs, id, kids))
  {
    var own, rest := fs[0].children, fs[1..];
    assert PutChildren(fs, id, kids)[1..] == PutChildren(rest, id, kids);
    if fs[0].id == id {
    } else if id in IdSet(own) {
      PutPreorder(own, id, kids, n);
    } else {
      PutPreorder(rest, id, kids, n);
    }
  }

  // ----- loading -----

  /** The forest after `items` are loaded below `parent`, or at the top if there is none. */
  function Loaded(fs: seq<Node>, parent: Option<Id>, items: seq<Node>, append: bool): seq<Node> {
    match parent
    case None => (if append then fs else []) + items
    case Some(p) => PutChildren(fs, p, (if append then Children(fs, p) else []) + items)
  }

  /** The nodes that stay rendered while a load empties its target list. */
  function Kept(fs: seq<Node>, parent: Option<Id>, append: bool): set<Id> {
    if append then IdSet(fs)
    else match parent case None => {} case Some(p) => IdSet(fs) - IdSet(Children(fs, p))
  }

  lemma ChildrenInside(fs: seq<Node>, p: Id)
    requires Unique(fs) && p in IdSet(fs)
    ensures Unique(Children(fs, p)) && p !in IdSet(Children(fs, p)) && IdSet(Children(fs, p)) <= IdSet(fs)
  {
    LookupInside(fs, p);
  }

  lemma LoadedIds(fs: seq<Node>, parent: Option<Id>, items: seq<Node>, append: bool)
    requires Unique(fs) && Unique(items) && IdSet(items) !! IdSet(fs)
    requires parent.Some? ==> parent.value in IdSet(fs)
    ensures Unique(Loaded(fs, parent, items, append))
    ensures IdSet(Loaded(fs, parent, items, append)) == Kept(fs, parent, append) + IdSet(items)
  {
    match parent {
      case None =>
        UniqueConcat(if append then fs else [], items);
        IdSetConcat(if append then fs else [], items);
      case Some(p) =>
        ChildrenInside(fs, p);
        var own := if append then Children(fs, p) else [];
        UniqueConcat(own, items);
        IdSetConcat(own, items);
        PutIds(fs, p, own + items);
    }
  }

  lemma ConsistentIsOutside(fs: seq<Node>, box: Boxes, id: Id)
    requires Consistent(fs, box)
    ensures OkOutside(fs, box, id)
  {
    ConsistentIsExcept(fs, box, id);
    ExceptIsOutside(fs, box, id);
  }

  /** After new, unchecked nodes are rendered, only the ancestors of the new nodes can be wrong. */
  lemma LoadedOk(fs: seq<Node>, a: Boxes, b: Boxes, parent: Option<Id>, items: seq<Node>, append: bool, c: Id)
    requires Unique(fs) && Unique(items) && IdSet(items) !! IdSet(fs)
    requires parent.Some? ==> parent.value in IdSet(fs)
    requires Consistent(fs, a) && c in IdSet(items)
    requires SameOn(Kept(fs, parent, append), a, b)
    requires forall i :: i in IdSet(items) ==> At(b, i) == Off
    ensures OkOutside(Loaded(fs, parent, items, append), b, c)
  {
    LoadedIds(fs, parent, items, append);
    Painted(items, b, Off);
    ConsistentIsOutside(items, b, c);
    match parent {
      case None =>
        var own := if append then fs else [];
        Untouched(own, a, b, c);
        ConsistentConcat(own, items, b, c);
      case Some(p) =>
        var own := if append then Children(fs, p) else [];
        ChildrenInside(fs, p);
        LookupInside(fs, p);
        ConsistentLookup(fs, a, p);
        Untouched(own, a, b, c);
        ConsistentConcat(own, items, b, c);
        IdSetConcat(own, items);
        ConsistentIsOutside(fs, a, p);
        PutOkOutside(fs, a, b, p, own + items, c);
    }
  }

  /** Rendering new nodes checks no leaf and keeps the state of every node that stays a leaf. */
  lemma LoadedLeaves(fs: seq<Node>, a: Boxes, b: Boxes, parent: Option<Id>, items: seq<Node>, append: bool)
    requires Unique(fs) && Unique(items) && IdSet(items) !! IdSet(fs) && items != []
    requires parent.Some? ==> parent.value in IdSet(fs)
    requires SameOn(Kept(fs, parent, append), a, b)
    requires forall i :: i in IdSet(items) ==> At(b, i) == Off
    ensures var out := Loaded(fs, parent, items, append);
            && OnLeaves(out, b) == OnLeaves(fs, a) * Leaves(out)
            && Leaves(items) <= Leaves(out) <= Leaves(fs) + Leaves(items)
  {
    hide IdSet, Unique, PutChildren, Lookup;
    var out := Loaded(fs, parent, items, append);
    LeavesInside(items);
    LeavesInside(fs);
    assert Leaves(out) <= Kept(fs, parent, append) + IdSet(items) by {
      LoadedIds(fs, parent, items, append);
      LeavesInside(out);
    }
    assert Leaves(items) <= Leaves(out) <= Leaves(fs) + Leaves(items) by {
      match parent {
        case None =>
          LeavesConcat(if append then fs else [], items);
        case Some(p) =>
          var own := if append then Children(fs, p) else [];
          LeavesConcat(own, items);
          PutLeaves(fs, p, own + items);
          LookupInside(fs, p);
          SubtreeLeaves(fs, p);
          LeavesInside(items);
      }
    }
  }

  /** The new nodes are found in the loaded forest as they came. */
  lemma LoadedItems(fs: seq<Node>, parent: Option<Id>, items: seq<Node>, append: bool, n: Node)
    requires Unique(fs) && Unique(items) && IdSet(items) !! IdSet(fs)
    requires parent.Some? ==> parent.value in IdSet(fs)
    requires n in Preorder(items)
    ensures Lookup(Loaded(fs, parent, items, append), n.id) == Some(n)
  {
    LoadedIds(fs, parent, items, append);
    match parent {
      case None =>
        PreorderConcat(if append then fs else [], items);
      case Some(p) =>
        var own := if append then Children(fs, p) else [];
        PreorderConcat(own, items);
        PutPreorder(fs, p, own + items, n);
    }
    PreorderLookup(Loaded(fs, parent, items, append), n);
  }

  // ----- removing -----

  lemma RemovedIds(fs: seq<Node>, p: Id, k: nat)
    requires Unique(fs) && p in IdSet(fs) && k < |Children(fs, p)|
    ensures var own := Children(fs, p);
            var kids := own[..k] + own[k + 1..];
            var out := PutChildren(fs, p, kids);
            Unique(out) && IdSet(out) == IdSet(fs) - IdSet([own[k]]) && p !in IdSet(own)
            && IdSet(own) == IdSet(kids) + IdSet([own[k]]) && IdSet(own) <= IdSet(fs)
            && IdSet(kids) !! IdSet([own[k]])
  {
    var own := Children(fs, p);
    ChildrenInside(fs, p);
    SplitList(own, k);
    PutIds(fs, p, own[..k] + own[k + 1..]);
  }

  lemma RemainingChildren(fs: seq<Node>, a: Boxes, b: Boxes, p: Id, k: nat)
    requires Unique(fs) && p in IdSet(fs) && Consistent(fs, a)
    requires k < |Children(fs, p)|
    requires SameOn(IdSet(fs) - IdSet([Children(fs, p)[k]]), a, b)
    ensures var own := Children(fs, p);
            var kids := own[..k] + own[k + 1..];
            && Consistent(kids, b)
            && (At(b, p) == On ==> AllAre(kids, b, On))
            && (At(b, p) == Off ==> AllAre(kids, b, Off))
  {
    hide IdSet, Unique;
    var own := Children(fs, p);
    var front, gone, back := own[..k], [own[k]], own[k + 1..];
    var kids := front + back;
    assert own == front + (gone + back);
    RemovedIds(fs, p, k);
    LookupInside(fs, p);
    ConsistentLookup(fs, a, p);
    ConsistentConcat(front, gone + back, a, p);
    ConsistentConcat(gone, back, a, p);
    ConsistentConcat(front, back, a, p);
    Frame(kids, a, b, p);
    assert forall n :: n in kids ==> n in own;
    MemberInIdSet(kids);
  }

  /** Taking one child away from a consistent parent: only the parent may need a new box, and no
      remaining leaf changes. */
  lemma RemovedChild(fs: seq<Node>, a: Boxes, b: Boxes, p: Id, k: nat)
    requires Unique(fs) && p in IdSet(fs) && Consistent(fs, a)
    requires k < |Children(fs, p)|
    requires SameOn(IdSet(fs) - IdSet([Children(fs, p)[k]]), a, b)
    ensures var own := Children(fs, p);
            var kids := own[..k] + own[k + 1..];
            var out := PutChildren(fs, p, kids);
            && OkExcept(out, b, p) && Lookup(out, p) == Some(Node(p, kids))
            && OnLeaves(out, b) == OnLeaves(fs, a) * Leaves(out)
                                   + if kids == [] && At(b, p) == On then {p} else {}
  {
    var own := Children(fs, p);
    var kids := own[..k] + own[k + 1..];
    assert p !in IdSet(kids) && SameOn(IdSet(fs) - IdSet(own), a, b) by { RemovedIds(fs, p, k); }
    assert Consistent(kids, b) by { RemainingChildren(fs, a, b, p, k); }
    PutOkExcept(fs, a, b, p, kids);
    PutLookup(fs, p, kids);
    RemovedLeaves(fs, a, b, p, k);
  }

  lemma {:induction false} PutLookup(fs: seq<Node>, p: Id, kids: seq<Node>)
    requires Unique(fs) && p in IdSet(fs)
    ensures Lookup(PutChildren(fs, p, kids), p) == Some(Node(p, kids))
  {
    var own, rest := fs[0].children, fs[1..];
    assert PutChildren(fs, p, kids)[1..] == PutChildren(rest, p, kids);
    LookupInside(own, p);
    if fs[0].id == p {
    } else if p in IdSet(own) {
      PutLookup(own, p, kids);
    } else {
      PutAbsent(own, p, kids);
      PutLookup(rest, p, kids);
    }
  }

  lemma SplitList(own: seq<Node>, k: nat)
    requires Unique(own) && k < |own|
    ensures var kids, gone := own[..k] + own[k + 1..], [own[k]];
            && Unique(kids) && IdSet(own) == IdSet(kids) + IdSet(gone) && IdSet(kids) !! IdSet(gone)
            && Leaves(own) == Leaves(kids) + Leaves(gone) && Leaves(kids) !! IdSet(gone)
  {
    var front, gone, back := own[..k], [own[k]], own[k + 1..];
    assert own == front + (gone + back);
    UniqueConcat(front, gone + back);
    UniqueConcat(gone, back);
    UniqueConcat(front, back);
    IdSetConcat(front, gone + back);
    IdSetConcat(gone, back);
    IdSetConcat(front, back);
    LeavesConcat(front, gone + back);
    LeavesConcat(gone, back);
    LeavesConcat(front, back);
    LeavesInside(front + back);
  }

  lemma RemovedLeafSet(fs: seq<Node>, p: Id, k: nat)
    requires Unique(fs) && p in IdSet(fs)
    requires k < |Children(fs, p)|
    ensures var own := Children(fs, p);
            var kids := own[..k] + own[k + 1..];
            var out := PutChildren(fs, p, kids);
            && (forall l :: l in Leaves(out) && l != p ==> l in Leaves(fs) && l !in IdSet([own[k]]))
            && (p in Leaves(out) <==> kids == []) && p !in Leaves(fs)
  {
    var own := Children(fs, p);
    var kids := own[..k] + own[k + 1..];
    ChildrenInside(fs, p);
    SplitList(own, k);
    LeavesInside(own);
    LeavesInside(kids);
    PutLeaves(fs, p, kids);
    LeafIsBare(fs, p);
    assert Leaves(own) <= Leaves(fs) by { LookupInside(fs, p); SubtreeLeaves(fs, p); }
    assert Leaves(fs) * IdSet([own[k]]) == Leaves([own[k]]) by { SubtreeLeavesOfChild(fs, p, k); }
  }

  lemma RemovedLeaves(fs: seq<Node>, a: Boxes, b: Boxes, p: Id, k: nat)
    requires Unique(fs) && p in IdSet(fs)
    requires k < |Children(fs, p)|
    requires SameOn(IdSet(fs) - IdSet([Children(fs, p)[k]]), a, b)
    ensures var own := Children(fs, p);
            var kids := own[..k] + own[k + 1..];
            var out := PutChildren(fs, p, kids);
            OnLeaves(out, b) == OnLeaves(fs, a) * Leaves(out)
                                + if kids == [] && At(b, p) == On then {p} else {}
  {
    RemovedLeafSet(fs, p, k);
    LeavesInside(fs);
  }

  lemma SubtreeLeavesOfChild(fs: seq<Node>, p: Id, k: nat)
    requires Unique(fs) && p in IdSet(fs) && k < |Children(fs, p)|
    ensures Leaves(fs) * IdSet([Children(fs, p)[k]]) == Leaves([Children(fs, p)[k]])
  {
    var own := Children(fs, p);
    LookupInside(fs, p);
    SubtreeLeaves(fs, p);
    AroundRoot(own, k, 0);
    SubtreeLeaves(own, own[k].id);
    LookupInside(own, own[k].id);
    assert Leaves([Lookup(fs, p).value]) == Leaves(own);
  }

  // ----- the second look at a parent -----

  /** What the leaves below `p` say when all (none) of its descendants are checked. */
  lemma BelowParent(fs: seq<Node>, box: Boxes, p: Id)
    requires Unique(fs) && p in IdSet(fs) && OkExcept(fs, box, p)
    ensures var kids := Children(fs, p);
            && Consistent(kids, box) && Lookup(fs, p).Some?
            && (kids != [] ==> Leaves([Lookup(fs, p).value]) == Leaves(kids))
            && Leaves([Lookup(fs, p).value]) <= Leaves(fs)
            && (kids != [] && AllAre(kids, box, On) ==> Leaves(kids) <= OnLeaves(fs, box))
            && ((forall i :: i in IdSet(kids) ==> At(box, i) != On) ==> Leaves(kids) !! OnLeaves(fs, box))
            && (Consistent(fs, box) <==> NodeOk(Node(p, kids), box))
  {
    var kids := Children(fs, p);
    LookupInside(fs, p);
    LookupId(fs, p);
    ExceptMended(fs, box, p);
    SubtreeLeaves(fs, p);
    RootsFollowLeaves(kids, box);
    LeavesInside(kids);
    assert Lookup(fs, p).value == Node(p, kids);
  }

  /** A parent of which some descendant is checked and some is not is of class 2. */
  lemma MixedParent(kids: seq<Node>, box: Boxes, x: Id, y: Id)
    requires Consistent(kids, box) && kids != []
    requires x in IdSet(kids) && At(box, x) == On
    requires y in IdSet(kids) && At(box, y) != On
    ensures Aggregate(kids, box) == Mixed
  {
    if AllAre(kids, box, On) {
      UniformDown(kids, box, On);
    }
    if AllAre(kids, box, Off) {
      UniformDown(kids, box, Off);
    }
  }

  // ----- reordering -----

  lemma {:induction false} PutPut(fs: seq<Node>, p: Id, k1: seq<Node>, k2: seq<Node>)
    requires p !in IdSet(k1)
    ensures PutChildren(PutChildren(fs, p, k1), p, k2) == PutChildren(fs, p, k2)
  {
    if fs != [] {
      var out := PutChildren(fs, p, k1);
      assert out[1..] == PutChildren(fs[1..], p, k1);
      PutAbsent(k1, p, k2);
      PutPut(fs[0].children, p, k1, k2);
      PutPut(fs[1..], p, k1, k2);
    }
  }

  /** The children of a node in another order: nothing else changes. */
  lemma Reordered(fs: seq<Node>, box: Boxes, p: Id, front: seq<Node>, items: seq<Node>, back: seq<Node>)
    requires Unique(fs) && p in IdSet(fs) && Consistent(fs, box)
    requires Children(fs, p) == front + back + items
    ensures var out := PutChildren(fs, p, front + items + back);
            Unique(out) && IdSet(out) == IdSet(fs) && Leaves(out) == Leaves(fs) && Consistent(out, box)
  {
    var was, now := front + back + items, front + items + back;
    ChildrenInside(fs, p);
    SameSiblings(front, items, back, box);
    LookupInside(fs, p);
    LookupId(fs, p);
    PutIds(fs, p, now);
    PutLeaves(fs, p, now);
    LeafIsBare(fs, p);
    ConsistentLookup(fs, box, p);
    assert Consistent(now, box);
    PutOkExcept(fs, box, box, p, now);
    PutLookup(fs, p, now);
    ExceptMended(PutChildren(fs, p, now), box, p);
    assert NodeOk(Lookup(fs, p).value, box);
    SubtreeLeaves(fs, p);
    LeavesInside(was);
  }

  lemma SameSiblings(front: seq<Node>, items: seq<Node>, back: seq<Node>, box: Boxes)
    ensures var was, now := front + back + items, front + items + back;
            && IdSet(now) == IdSet(was) && Leaves(now) == Leaves(was)
            && (Unique(now) <==> Unique(was))
            && (Consistent(now, box) <==> Consistent(was, box))
            && Aggregate(now, box) == Aggregate(was, box)
  {
    hide IdSet, Leaves, Unique, Consistent;
    IdSetConcat(front, back);
    IdSetConcat(front + back, items);
    IdSetConcat(front, items);
    IdSetConcat(front + items, back);
    LeavesConcat(front, back);
    LeavesConcat(front + back, items);
    LeavesConcat(front, items);
    LeavesConcat(front + items, back);
    UniqueConcat(front, back);
    UniqueConcat(front + back, items);
    UniqueConcat(front, items);
    UniqueConcat(front + items, back);
    ConsistentConcat(front, back, box, 0);
    ConsistentConcat(front + back, items, box, 0);
    ConsistentConcat(front, items, box, 0);
    ConsistentConcat(front + items, back, box, 0);
    assert forall n :: n in front + back + items <==> n in front + items + back;
  }
}
