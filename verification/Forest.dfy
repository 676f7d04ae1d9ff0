/** Forests of nodes, as the tree and treegrid widgets hold them: an array of nodes, each with an
    array of children.  A node is known by `id`, its identity. */
module Forest {
  import opened Wrappers

  type Id = nat

  datatype Node = Node(id: Id, children: seq<Node>)

  /** One line of the preorder listing: a node and how deep it lies. */
  datatype Entry = Entry(id: Id, depth: nat)

  function IdSet(fs: seq<Node>): set<Id> {
    if fs == [] then {} else {fs[0].id} + IdSet(fs[0].children) + IdSet(fs[1..])
  }

  function Size(fs: seq<Node>): nat {
    if fs == [] then 0 else 1 + Size(fs[0].children) + Size(fs[1..])
  }

  /** No identity occurs twice anywhere in the forest. */
  predicate Unique(fs: seq<Node>) {
    fs == [] ||
    (&& fs[0].id !in IdSet(fs[0].children)
     && fs[0].id !in IdSet(fs[1..])
     && IdSet(fs[0].children) !! IdSet(fs[1..])
     && Unique(fs[0].children)
     && Unique(fs[1..]))
  }

  function Roots(fs: seq<Node>): set<Id> {
    set i | 0 <= i < |fs| :: fs[i].id
  }

  /** The nodes of the forest in recursive preorder. */
  function Preorder(fs: seq<Node>): seq<Node> {
    if fs == [] then [] else [fs[0]] + Preorder(fs[0].children) + Preorder(fs[1..])
  }

  /** The preorder listing with depths; it determines the forest (ListingDeterminesForest). */
  function Listing(fs: seq<Node>, depth: nat): seq<Entry> {
    if fs == [] then []
    else [Entry(fs[0].id, depth)] + Listing(fs[0].children, depth + 1) + Listing(fs[1..], depth)
  }

  function Lookup(fs: seq<Node>, id: Id): Option<Node> {
    if fs == [] then None
    else if fs[0].id == id then Some(fs[0])
    else
      var inner := Lookup(fs[0].children, id);
      if inner.Some? then inner else Lookup(fs[1..], id)
  }

  /** The child array of node `id`, empty if the forest has no such node. */
  function Children(fs: seq<Node>, id: Id): seq<Node> {
    var n := Lookup(fs, id);
    if n.Some? then n.value.children else []
  }

  /** The node that holds `id` in its child array, if there is one. */
  function Parent(fs: seq<Node>, id: Id): Option<Node> {
    if fs == [] then None
    else if id in Roots(fs[0].children) then Some(fs[0])
    else
      var inner := Parent(fs[0].children, id);
      if inner.Some? then inner else Parent(fs[1..], id)
  }

  /** The identities on the way from a root down to, but without, `id`. */
  function Ancestors(fs: seq<Node>, id: Id): seq<Id> {
    if fs == [] || fs[0].id == id then []
    else if id in IdSet(fs[0].children) then [fs[0].id] + Ancestors(fs[0].children, id)
    else Ancestors(fs[1..], id)
  }

  /** Assigns `kids` to the child array of node `id`. */
  function PutChildren(fs: seq<Node>, id: Id, kids: seq<Node>): seq<Node> {
    if fs == [] then []
    else
      [Node(fs[0].id, if fs[0].id == id then kids else PutChildren(fs[0].children, id, kids))]
      + PutChildren(fs[1..], id, kids)
  }

  // ----- listings around one node -----

  function DepthOf(fs: seq<Node>, id: Id, depth: nat): nat
    requires id in IdSet(fs)
  {
    if fs[0].id == id then depth
    else if id in IdSet(fs[0].children) then DepthOf(fs[0].children, id, depth + 1)
    else DepthOf(fs[1..], id, depth)
  }

  /** The lines of a node with identity `id` and child array `kids`. */
  function Branch(id: Id, kids: seq<Node>, depth: nat): seq<Entry> {
    [Entry(id, depth)] + Listing(kids, depth + 1)
  }

  /** The part of the listing before node `id`. */
  function Before(fs: seq<Node>, id: Id, depth: nat): seq<Entry>
    requires id in IdSet(fs)
  {
    if fs[0].id == id then []
    else if id in IdSet(fs[0].children) then [Entry(fs[0].id, depth)] + Before(fs[0].children, id, depth + 1)
    else [Entry(fs[0].id, depth)] + Listing(fs[0].children, depth + 1) + Before(fs[1..], id, depth)
  }

  /** The part of the listing after the subtree of node `id`. */
  function After(fs: seq<Node>, id: Id, depth: nat): seq<Entry>
    requires id in IdSet(fs)
  {
    if fs[0].id == id then Listing(fs[1..], depth)
    else if id in IdSet(fs[0].children) then After(fs[0].children, id, depth + 1) + Listing(fs[1..], depth)
    else After(fs[1..], id, depth)
  }

  // ----- concatenation -----

  lemma {:induction false} IdSetConcat(a: seq<Node>, b: seq<Node>)
    ensures IdSet(a + b) == IdSet(a) + IdSet(b)
  {
    if a == [] {
      assert a + b == b;
    } else {
      assert (a + b)[1..] == a[1..] + b;
      IdSetConcat(a[1..], b);
    }
  }

  lemma {:induction false} UniqueConcat(a: seq<Node>, b: seq<Node>)
    ensures Unique(a + b) <==> Unique(a) && Unique(b) && IdSet(a) !! IdSet(b)
  {
    if a == [] {
      assert a + b == b;
    } else {
      assert (a + b)[1..] == a[1..] + b;
      IdSetConcat(a[1..], b);
      UniqueConcat(a[1..], b);
    }
  }

  lemma {:induction false} ListingConcat(a: seq<Node>, b: seq<Node>, depth: nat)
    ensures Listing(a + b, depth) == Listing(a, depth) + Listing(b, depth)
  {
    if a == [] {
      assert a + b == b;
    } else {
      assert (a + b)[1..] == a[1..] + b;
      ListingConcat(a[1..], b, depth);
    }
  }

  lemma {:induction false} PreorderConcat(a: seq<Node>, b: seq<Node>)
    ensures Preorder(a + b) == Preorder(a) + Preorder(b)
  {
    if a == [] {
      assert a + b == b;
    } else {
      assert (a + b)[1..] == a[1..] + b;
      PreorderConcat(a[1..], b);
    }
  }

  lemma {:induction false} SizeConcat(a: seq<Node>, b: seq<Node>)
    ensures Size(a + b) == Size(a) + Size(b)
  {
    if a == [] {
      assert a + b == b;
    } else {
      assert (a + b)[1..] == a[1..] + b;
      SizeConcat(a[1..], b);
    }
  }

  // ----- lookups -----

  lemma {:induction false} RootsInIdSet(fs: seq<Node>)
    ensures Roots(fs) <= IdSet(fs)
  {
    if fs != [] {
      RootsInIdSet(fs[1..]);
      forall i | 0 <= i < |fs| ensures fs[i].id in IdSet(fs) {
        if i > 0 {
          assert fs[1..][i - 1].id in Roots(fs[1..]);
        }
      }
    }
  }

  /** Lookup succeeds exactly on the identities of the forest, and what it returns sits inside it. */
  lemma {:induction false} LookupInside(fs: seq<Node>, id: Id)
    requires Unique(fs)
    ensures Lookup(fs, id).Some? <==> id in IdSet(fs)
    ensures Lookup(fs, id).Some? ==>
              var n := Lookup(fs, id).value;
              n.id == id && Unique([n]) && IdSet([n]) <= IdSet(fs)
  {
    if fs != [] {
      LookupInside(fs[0].children, id);
      LookupInside(fs[1..], id);
    }
  }

  lemma {:induction false} ParentInside(fs: seq<Node>, id: Id)
    requires Unique(fs)
    ensures Parent(fs, id).Some? <==> id in IdSet(fs) - Roots(fs)
    ensures Parent(fs, id).Some? ==>
              var p := Parent(fs, id).value;
              && id in Roots(p.children) && p.id != id
              && Lookup(fs, p.id) == Some(p) && p.id in IdSet(fs)
              && Unique([p]) && IdSet([p]) <= IdSet(fs)
  {
    if fs != [] {
      var kids, rest := fs[0].children, fs[1..];
      ParentInside(kids, id);
      ParentInside(rest, id);
      RootsInIdSet(kids);
      RootsInIdSet(rest);
      assert Roots(fs) == {fs[0].id} + Roots(rest) by {
        assert forall i :: 0 < i < |fs| ==> fs[i].id == rest[i - 1].id;
        forall x | x in Roots(rest) ensures x in Roots(fs) {
          var i :| 0 <= i < |rest| && rest[i].id == x;
          assert fs[i + 1].id == x;
        }
      }
      LookupInside(fs, id);
      if Parent(fs, id).Some? {
        var p := Parent(fs, id).value;
        LookupInside(kids, p.id);
        LookupInside(rest, p.id);
      }
    }
  }

  /** Every proper ancestor list ends in the parent. */
  lemma {:induction false} AncestorsOfParent(fs: seq<Node>, id: Id)
    requires Unique(fs) && id in IdSet(fs)
    ensures Ancestors(fs, id) == match Parent(fs, id)
                                 case None => []
                                 case Some(p) => Ancestors(fs, p.id) + [p.id]
    ensures id !in Ancestors(fs, id)
    ensures forall a :: a in Ancestors(fs, id) ==> a in IdSet(fs)
  {
    var kids, rest := fs[0].children, fs[1..];
    RootsInIdSet(kids);
    ParentInside(kids, id);
    ParentInside(rest, id);
    if fs[0].id != id {
      if id in IdSet(kids) {
        AncestorsOfParent(kids, id);
      } else {
        AncestorsOfParent(rest, id);
      }
    }
  }

  /** An ancestor of `id` is a node whose subtree holds `id`. */
  lemma {:induction false} AncestorHolds(fs: seq<Node>, id: Id, a: Id)
    requires Unique(fs) && id in IdSet(fs) && a in IdSet(fs)
    ensures a in Ancestors(fs, id) <==> id in IdSet(Children(fs, a))
  {
    var kids, rest := fs[0].children, fs[1..];
    LookupInside(fs, a);
    LookupInside(kids, a);
    LookupInside(rest, a);
    if id in IdSet(kids) {
      AncestorsOfParent(kids, id);
      if a in IdSet(kids) { AncestorHolds(kids, id, a); }
    } else if id in IdSet(rest) {
      AncestorsOfParent(rest, id);
      if a in IdSet(rest) { AncestorHolds(rest, id, a); }
    }
  }

  // ----- writing one child array -----

  lemma {:induction false} PutAbsent(fs: seq<Node>, id: Id, kids: seq<Node>)
    requires id !in IdSet(fs)
    ensures PutChildren(fs, id, kids) == fs
  {
    if fs != [] {
      PutAbsent(fs[0].children, id, kids);
      PutAbsent(fs[1..], id, kids);
      assert fs == [fs[0]] + fs[1..];
    }
  }

  /** What a write of one child array does to the set of identities, to uniqueness and to lookups. */
  lemma {:induction false} PutIds(fs: seq<Node>, id: Id, kids: seq<Node>)
    requires Unique(fs) && id in IdSet(fs)
    ensures var inner := IdSet(Children(fs, id));
            IdSet(PutChildren(fs, id, kids)) == IdSet(fs) - inner + IdSet(kids)
    ensures var inner := IdSet(Children(fs, id));
            Unique(kids) && IdSet(kids) !! (IdSet(fs) - inner) ==> Unique(PutChildren(fs, id, kids))
    ensures Lookup(fs, id).Some?
    decreases fs
  {
    hide IdSet, Unique, PutChildren, Lookup;
    PutParts(fs, id, kids);
    var own, rest := fs[0].children, fs[1..];
    assert fs == [fs[0]] + rest;
    IdSetCons(fs[0], rest);
    if fs[0].id == id {
      IdSetCons(Node(id, kids), rest);
    } else if id in IdSet(own) {
      PutIds(own, id, kids);
      IdSetCons(Node(fs[0].id, PutChildren(own, id, kids)), rest);
    } else {
      PutIds(rest, id, kids);
      IdSetCons(fs[0], PutChildren(rest, id, kids));
    }
  }

  /** In which part of the forest node `id` lies, and what an assignment makes of the two parts. */
  lemma PutParts(fs: seq<Node>, id: Id, kids: seq<Node>)
    requires Unique(fs) && id in IdSet(fs)
    ensures fs != [] && Lookup(fs, id).Some?
    ensures var own, rest := fs[0].children, fs[1..];
            if fs[0].id == id then Children(fs, id) == own && PutChildren(fs, id, kids) == [Node(id, kids)] + rest
            else if id in IdSet(own) then
              && Children(fs, id) == Children(own, id) && IdSet(Children(own, id)) <= IdSet(own)
              && PutChildren(fs, id, kids) == [Node(fs[0].id, PutChildren(own, id, kids))] + rest
            else
              && id in IdSet(rest) && Children(fs, id) == Children(rest, id) && IdSet(Children(rest, id)) <= IdSet(rest)
              && PutChildren(fs, id, kids) == [fs[0]] + PutChildren(rest, id, kids)
  {
    var own, rest := fs[0].children, fs[1..];
    LookupInside(fs, id);
    LookupInside(own, id);
    LookupInside(rest, id);
    if id !in IdSet(own) {
      PutAbsent(own, id, kids);
    }
    if id !in IdSet(rest) {
      PutAbsent(rest, id, kids);
    }
  }

  lemma IdSetCons(n: Node, rest: seq<Node>)
    ensures IdSet([n] + rest) == {n.id} + IdSet(n.children) + IdSet(rest)
    ensures Unique([n] + rest) <==>
              && n.id !in IdSet(n.children) && n.id !in IdSet(rest) && IdSet(n.children) !! IdSet(rest)
              && Unique(n.children) && Unique(rest)
  {
    assert ([n] + rest)[1..] == rest;
  }

  // ----- listings -----

  /** The listing of a forest is: what precedes a node, its subtree, what follows. */
  lemma {:induction false} ListingAround(fs: seq<Node>, id: Id, depth: nat)
    requires Unique(fs) && id in IdSet(fs)
    ensures Lookup(fs, id).Some?
    ensures Listing(fs, depth)
         == Before(fs, id, depth) + Listing([Lookup(fs, id).value], DepthOf(fs, id, depth)) + After(fs, id, depth)
  {
    var own, rest := fs[0].children, fs[1..];
    var first, d := [Entry(fs[0].id, depth)], DepthOf(fs, id, depth);
    LookupInside(fs, id);
    LookupInside(own, id);
    LookupInside(rest, id);
    var lines := Listing([Lookup(fs, id).value], d);
    if fs[0].id == id {
      assert [fs[0]] + [] == [fs[0]];
      ListingCons(fs[0], [], d);
    } else if id in IdSet(own) {
      assert Listing(own, depth + 1) == Before(own, id, depth + 1) + lines + After(own, id, depth + 1) by {
        ListingAround(own, id, depth + 1);
      }
      Regroup(first, Before(own, id, depth + 1), lines, After(own, id, depth + 1), Listing(rest, depth));
    } else {
      assert Listing(rest, depth) == Before(rest, id, depth) + lines + After(rest, id, depth) by {
        ListingAround(rest, id, depth);
      }
      Regroup(first + Listing(own, depth + 1), Before(rest, id, depth), lines, After(rest, id, depth), []);
    }
  }

  /** Replacing the child array of one node replaces only the lines between that node and what follows it. */
  lemma {:induction false} PutListing(fs: seq<Node>, id: Id, kids: seq<Node>, depth: nat)
    requires Unique(fs) && id in IdSet(fs)
    ensures Listing(PutChildren(fs, id, kids), depth)
         == Before(fs, id, depth) + Branch(id, kids, DepthOf(fs, id, depth)) + After(fs, id, depth)
  {
    var own, rest := fs[0].children, fs[1..];
    var first := [Entry(fs[0].id, depth)];
    if fs[0].id == id {
      PutAbsent(rest, id, kids);
      ListingCons(Node(id, kids), rest, depth);
    } else if id in IdSet(own) {
      PutAbsent(rest, id, kids);
      ListingCons(Node(fs[0].id, PutChildren(own, id, kids)), rest, depth);
      PutListing(own, id, kids, depth + 1);
      Regroup(first, Before(own, id, depth + 1), Branch(id, kids, DepthOf(own, id, depth + 1)),
              After(own, id, depth + 1), Listing(rest, depth));
    } else {
      PutAbsent(own, id, kids);
      ListingCons(fs[0], PutChildren(rest, id, kids), depth);
      PutListing(rest, id, kids, depth);
      Regroup(first + Listing(own, depth + 1), Before(rest, id, depth), Branch(id, kids, DepthOf(rest, id, depth)),
              After(rest, id, depth), []);
    }
  }

  lemma ListingCons(n: Node, rest: seq<Node>, depth: nat)
    ensures Listing([n] + rest, depth) == [Entry(n.id, depth)] + Listing(n.children, depth + 1) + Listing(rest, depth)
  {
    assert ([n] + rest)[1..] == rest;
  }

  lemma Regroup<T>(a: seq<T>, b: seq<T>, c: seq<T>, d: seq<T>, e: seq<T>)
    ensures a + (b + c + d) + e == (a + b) + c + (d + e)
    ensures d + [] == d
  {
  }

  /** In which part of the forest a node and a descendant of it lie. */
  lemma WhereBelow(fs: seq<Node>, p: Id, id: Id)
    requires Unique(fs) && p in IdSet(fs) && id in IdSet(Children(fs, p))
    ensures fs != []
    ensures Unique(fs[0].children) && Unique(fs[1..]) && fs[0].id != id && id in IdSet(fs)
    ensures if fs[0].id == p then id in IdSet(fs[0].children) && Children(fs, p) == fs[0].children
            else if p in IdSet(fs[0].children) then
              id in IdSet(fs[0].children) && Children(fs, p) == Children(fs[0].children, p)
            else
              && p in IdSet(fs[1..]) && id in IdSet(fs[1..]) && id !in IdSet(fs[0].children)
              && Children(fs, p) == Children(fs[1..], p)
  {
    LookupInside(fs, p);
    LookupInside(fs[0].children, p);
    LookupInside(fs[1..], p);
  }

  lemma {:induction false} DepthInside(fs: seq<Node>, p: Id, id: Id, depth: nat)
    requires Unique(fs) && p in IdSet(fs)
    requires id in IdSet(Children(fs, p))
    ensures id in IdSet(fs)
    ensures DepthOf(fs, id, depth) == DepthOf(Children(fs, p), id, DepthOf(fs, p, depth) + 1)
  {
    WhereBelow(fs, p, id);
    if fs[0].id == p {
    } else if p in IdSet(fs[0].children) {
      DepthInside(fs[0].children, p, id, depth + 1);
    } else {
      DepthInside(fs[1..], p, id, depth);
    }
  }

  /** The lines before a node, seen from one of its ancestors. */
  lemma {:induction false} BeforeInside(fs: seq<Node>, p: Id, id: Id, depth: nat)
    requires Unique(fs) && p in IdSet(fs)
    requires id in IdSet(Children(fs, p))
    ensures id in IdSet(fs)
    ensures var kids, d := Children(fs, p), DepthOf(fs, p, depth);
            Before(fs, id, depth) == Before(fs, p, depth) + ([Entry(p, d)] + Before(kids, id, d + 1))
  {
    hide Listing, IdSet, Unique, Lookup, Children;
    WhereBelow(fs, p, id);
    var own, rest, first := fs[0].children, fs[1..], [Entry(fs[0].id, depth)];
    var kids, d := Children(fs, p), DepthOf(fs, p, depth);
    var tail := [Entry(p, d)] + Before(kids, id, d + 1);
    if fs[0].id == p {
      assert [] + tail == tail;
    } else if p in IdSet(own) {
      BeforeInside(own, p, id, depth + 1);
      RegroupThree(first, Before(own, p, depth + 1), tail);
    } else {
      BeforeInside(rest, p, id, depth);
      RegroupThree(first + Listing(own, depth + 1), Before(rest, p, depth), tail);
    }
  }

  /** The lines after a node, seen from one of its ancestors. */
  lemma {:induction false} AfterInside(fs: seq<Node>, p: Id, id: Id, depth: nat)
    requires Unique(fs) && p in IdSet(fs)
    requires id in IdSet(Children(fs, p))
    ensures id in IdSet(fs)
    ensures After(fs, id, depth) == After(Children(fs, p), id, DepthOf(fs, p, depth) + 1) + After(fs, p, depth)
  {
    hide Listing, IdSet, Unique, Lookup, Children;
    WhereBelow(fs, p, id);
    var own, rest := fs[0].children, fs[1..];
    if fs[0].id == p {
    } else if p in IdSet(own) {
      var inner := After(Children(own, p), id, DepthOf(own, p, depth + 1) + 1);
      assert After(own, id, depth + 1) == inner + After(own, p, depth + 1) by { AfterInside(own, p, id, depth + 1); }
      RegroupThree(inner, After(own, p, depth + 1), Listing(rest, depth));
    } else {
      AfterInside(rest, p, id, depth);
    }
  }

  lemma RegroupThree<T>(a: seq<T>, b: seq<T>, c: seq<T>)
    ensures (a + b) + c == a + (b + c)
  {
  }

  /** Before and After of a root, written with the array index of that root. */
  lemma {:induction false} AroundRoot(fs: seq<Node>, i: nat, depth: nat)
    requires Unique(fs) && i < |fs|
    ensures fs[i].id in IdSet(fs)
    ensures DepthOf(fs, fs[i].id, depth) == depth
    ensures Before(fs, fs[i].id, depth) == Listing(fs[..i], depth)
    ensures After(fs, fs[i].id, depth) == Listing(fs[i + 1..], depth)
    ensures Lookup(fs, fs[i].id) == Some(fs[i])
  {
    if i > 0 {
      AroundRoot(fs[1..], i - 1, depth);
      LookupInside(fs[0].children, fs[i].id);
      assert fs[..i][1..] == fs[1..][..i - 1];
      assert fs[1..][i..] == fs[i + 1..];
    }
  }

  /** Lines of a listing that lie deeper than its base depth belong to the leading root. */
  lemma {:induction false} ListingDepths(fs: seq<Node>, depth: nat)
    ensures forall e :: e in Listing(fs, depth) ==> e.depth >= depth
    ensures fs != [] ==> |Listing(fs, depth)| > 0 && Listing(fs, depth)[0] == Entry(fs[0].id, depth)
  {
    if fs != [] {
      ListingDepths(fs[0].children, depth + 1);
      ListingDepths(fs[1..], depth);
    }
  }

  /** Two listings with depths are equal only for equal forests. */
  lemma {:induction false} ListingDeterminesForest(f: seq<Node>, g: seq<Node>, depth: nat)
    requires Listing(f, depth) == Listing(g, depth)
    ensures f == g
  {
    ListingDepths(f, depth);
    ListingDepths(g, depth);
    if f != [] && g != [] {
      SameParts(f, g, depth);
      ListingDeterminesForest(f[0].children, g[0].children, depth + 1);
      ListingDeterminesForest(f[1..], g[1..], depth);
      assert f == [f[0]] + f[1..] && g == [g[0]] + g[1..];
    }
  }

  lemma SameParts(f: seq<Node>, g: seq<Node>, depth: nat)
    requires f != [] && g != [] && Listing(f, depth) == Listing(g, depth)
    ensures f[0].id == g[0].id
    ensures Listing(f[0].children, depth + 1) == Listing(g[0].children, depth + 1)
    ensures Listing(f[1..], depth) == Listing(g[1..], depth)
  {
    var fk, fr := Listing(f[0].children, depth + 1), Listing(f[1..], depth);
    var gk, gr := Listing(g[0].children, depth + 1), Listing(g[1..], depth);
    assert fk + fr == Listing(f, depth)[1..];
    assert gk + gr == Listing(g, depth)[1..];
    ListingDepths(f, depth);
    ListingDepths(g, depth);
    ListingDepths(f[0].children, depth + 1);
    ListingDepths(g[0].children, depth + 1);
    ListingDepths(f[1..], depth);
    ListingDepths(g[1..], depth);
    SameSplit(fk, fr, gk, gr, depth);
  }

  function Deep(s: seq<Entry>, depth: nat): nat {
    if s == [] || s[0].depth <= depth then 0 else 1 + Deep(s[1..], depth)
  }

  lemma {:induction false} DeepRun(a: seq<Entry>, b: seq<Entry>, depth: nat)
    requires forall e :: e in a ==> e.depth > depth
    requires b != [] ==> b[0].depth == depth
    ensures Deep(a + b, depth) == |a|
  {
    if a == [] {
      assert a + b == b;
    } else {
      assert (a + b)[1..] == a[1..] + b;
      DeepRun(a[1..], b, depth);
    }
  }

  lemma SameSplit(a: seq<Entry>, b: seq<Entry>, c: seq<Entry>, d: seq<Entry>, depth: nat)
    requires a + b == c + d
    requires forall e :: e in a || e in c ==> e.depth > depth
    requires b != [] ==> b[0].depth == depth
    requires d != [] ==> d[0].depth == depth
    ensures a == c && b == d
  {
    var s := a + b;
    DeepRun(a, b, depth);
    DeepRun(c, d, depth);
    assert a == s[..|a|] && c == s[..|c|] && b == s[|a|..] && d == s[|c|..];
  }
}
