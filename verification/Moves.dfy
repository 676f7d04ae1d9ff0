/** Taking a subtree out of a forest and putting it back elsewhere, seen on the preorder listing. */
module Moves {
  import opened Forest
  import opened Checks

  /** The list without its entry `id`. */
  function Without(cc: seq<Node>, id: Id): seq<Node> {
    if cc == [] then [] else if cc[0].id == id then cc[1..] else [cc[0]] + Without(cc[1..], id)
  }

  /** The list with `items` put just before (or just after) its entry `ref`. */
  function Beside(cc: seq<Node>, ref: Id, before: bool, items: seq<Node>): seq<Node> {
    if cc == [] then []
    else if cc[0].id == ref then (if before then items + cc else [cc[0]] + items + cc[1..])
    else [cc[0]] + Beside(cc[1..], ref, before, items)
  }

  /** The forest without the subtree of `id`. */
  function Removed(fs: seq<Node>, id: Id): seq<Node> {
    match Parent(fs, id)
    case None => Without(fs, id)
    case Some(p) => PutChildren(fs, p.id, Without(p.children, id))
  }

  /** The forest with `items` as siblings next to `ref`. */
  function Inserted(fs: seq<Node>, ref: Id, before: bool, items: seq<Node>): seq<Node> {
    match Parent(fs, ref)
    case None => Beside(fs, ref, before, items)
    case Some(p) => PutChildren(fs, p.id, Beside(p.children, ref, before, items))
  }

  /** Where a dragged node is dropped: inside the target at the end, or next to it. */
  datatype Place = Inside | Top | Bottom

  function Dropped(fs: seq<Node>, target: Id, place: Place, n: Node): seq<Node> {
    match place
    case Inside => PutChildren(fs, target, Children(fs, target) + [n])
    case Top => Inserted(fs, target, true, [n])
    case Bottom => Inserted(fs, target, false, [n])
  }

  // ----- list positions -----

  lemma {:induction false} ListAt(cc: seq<Node>, id: Id, i: nat)
    requires i < |cc| && cc[i].id == id
    requires forall j :: 0 <= j < i ==> cc[j].id != id
    ensures Without(cc, id) == cc[..i] + cc[i + 1..]
  {
    if i == 0 {
    } else {
      var rest := cc[1..];
      ListAt(rest, id, i - 1);
      assert [cc[0]] + rest[..i - 1] == cc[..i] && rest[i..] == cc[i + 1..];
      RegroupThree([cc[0]], rest[..i - 1], rest[i..]);
    }
  }

  lemma {:induction false} BesideAt(cc: seq<Node>, id: Id, i: nat, before: bool, items: seq<Node>)
    requires i < |cc| && cc[i].id == id
    requires forall j :: 0 <= j < i ==> cc[j].id != id
    ensures var k := if before then i else i + 1;
            Beside(cc, id, before, items) == cc[..k] + items + cc[k..]
  {
    if i == 0 {
      assert cc[..0] + items + cc[0..] == items + cc;
      assert cc[..1] == [cc[0]];
    } else {
      var rest, k := cc[1..], if before then i else i + 1;
      BesideAt(rest, id, i - 1, before, items);
      assert [cc[0]] + rest[..k - 1] == cc[..k] && rest[k - 1..] == cc[k..];
      RegroupThree([cc[0]], rest[..k - 1], items);
      RegroupThree([cc[0]], rest[..k - 1] + items, rest[k - 1..]);
    }
  }

  /** In a list of distinct nodes the position of a root is the only one. */
  lemma {:induction false} RootIndex(cc: seq<Node>, id: Id) returns (i: nat)
    requires Unique(cc) && id in Roots(cc)
    ensures i < |cc| && cc[i].id == id
    ensures forall j :: 0 <= j < |cc| && j != i ==> cc[j].id != id
  {
    RootsInIdSet(cc[1..]);
    assert forall j :: 0 < j < |cc| ==> cc[j].id == cc[1..][j - 1].id && cc[j].id in Roots(cc[1..]);
    if cc[0].id == id {
      i := 0;
    } else {
      var k := RootIndex(cc[1..], id);
      i := k + 1;
      forall j | 0 < j < |cc| && j != i ensures cc[j].id != id {
        assert cc[1..][j - 1].id != id;
      }
    }
  }

  // ----- listings -----

  lemma WithoutListing(cc: seq<Node>, id: Id, depth: nat)
    requires Unique(cc) && id in Roots(cc)
    ensures id in IdSet(cc)
    ensures Listing(Without(cc, id), depth) == Before(cc, id, depth) + After(cc, id, depth)
  {
    var i := RootIndex(cc, id);
    AroundRoot(cc, i, depth);
    ListAt(cc, id, i);
    ListingConcat(cc[..i], cc[i + 1..], depth);
  }

  lemma BesideListing(cc: seq<Node>, ref: Id, before: bool, items: seq<Node>, depth: nat)
    requires Unique(cc) && ref in Roots(cc)
    ensures ref in IdSet(cc) && Lookup(cc, ref).Some?
    ensures var own := Listing([Lookup(cc, ref).value], depth);
            Listing(Beside(cc, ref, before, items), depth)
            == Before(cc, ref, depth)
               + (if before then Listing(items, depth) + own else own + Listing(items, depth))
               + After(cc, ref, depth)
  {
    hide Listing, Beside, Unique, Before, After, IdSet;
    var i := RootIndex(cc, ref);
    AroundRoot(cc, i, depth);
    BesideAt(cc, ref, i, before, items);
    var front, mid, back := cc[..i], [cc[i]], cc[i + 1..];
    if before {
      assert cc[..i] + items + cc[i..] == front + (items + mid) + back;
      ListingThree(front, items, mid, back, depth);
    } else {
      assert cc[..i + 1] + items + cc[i + 1..] == front + (mid + items) + back;
      ListingThree(front, mid, items, back, depth);
    }
  }

  lemma ListingThree(a: seq<Node>, b: seq<Node>, c: seq<Node>, d: seq<Node>, depth: nat)
    ensures Listing(a + (b + c) + d, depth)
         == Listing(a, depth) + (Listing(b, depth) + Listing(c, depth)) + Listing(d, depth)
  {
    ListingConcat(b, c, depth);
    ListingConcat(a, b + c, depth);
    ListingConcat(a + (b + c), d, depth);
  }

  /** Rewriting one child list around one of its entries shows in the whole listing around that entry. */
  lemma InsideListing(fs: seq<Node>, p: Id, id: Id, kids: seq<Node>, middle: seq<Entry>, depth: nat)
    requires Unique(fs) && p in IdSet(fs) && id in IdSet(Children(fs, p))
    requires var d := DepthOf(fs, p, depth) + 1;
             Listing(kids, d) == Before(Children(fs, p), id, d) + middle + After(Children(fs, p), id, d)
    ensures id in IdSet(fs)
    ensures Listing(PutChildren(fs, p, kids), depth) == Before(fs, id, depth) + middle + After(fs, id, depth)
  {
    hide Listing, PutChildren, IdSet, Before, After, Unique, DepthOf;
    DepthInside(fs, p, id, depth);
    BeforeInside(fs, p, id, depth);
    AfterInside(fs, p, id, depth);
    PutListing(fs, p, kids, depth);
    var d := DepthOf(fs, p, depth);
    RegroupInside(Before(fs, p, depth), [Entry(p, d)], Before(Children(fs, p), id, d + 1), middle,
                  After(Children(fs, p), id, d + 1), After(fs, p, depth));
  }

  lemma RegroupInside<T>(a: seq<T>, e: seq<T>, b: seq<T>, m: seq<T>, c: seq<T>, d: seq<T>)
    ensures a + (e + (b + m + c)) + d == (a + (e + b)) + m + (c + d)
  {
  }

  /** Removing a node takes its own lines, and no other, out of the listing. */
  lemma RemovedListing(fs: seq<Node>, id: Id)
    requires Unique(fs) && id in IdSet(fs)
    ensures Listing(Removed(fs, id), 0) == Before(fs, id, 0) + After(fs, id, 0)
  {
    hide Listing, PutChildren, IdSet, Before, After, Unique, DepthOf;
    ParentInside(fs, id);
    match Parent(fs, id) {
      case None =>
        WithoutListing(fs, id, 0);
      case Some(p) =>
        RootsInIdSet(p.children);
        var d := DepthOf(fs, p.id, 0) + 1;
        WithoutListing(p.children, id, d);
        assert Before(p.children, id, d) + [] == Before(p.children, id, d);
        InsideListing(fs, p.id, id, Without(p.children, id), [], 0);
        assert Before(fs, id, 0) + [] == Before(fs, id, 0);
    }
  }

  /** Inserting next to a node puts the new lines just before it, or just after its subtree. */
  lemma InsertedListing(fs: seq<Node>, ref: Id, before: bool, items: seq<Node>)
    requires Unique(fs) && ref in IdSet(fs)
    ensures Lookup(fs, ref).Some?
    ensures var d := DepthOf(fs, ref, 0);
            var own := Listing([Lookup(fs, ref).value], d);
            Listing(Inserted(fs, ref, before, items), 0)
            == Before(fs, ref, 0)
               + (if before then Listing(items, d) + own else own + Listing(items, d))
               + After(fs, ref, 0)
  {
    hide Listing, PutChildren, IdSet, Before, After, Unique, DepthOf;
    ParentInside(fs, ref);
    LookupInside(fs, ref);
    match Parent(fs, ref) {
      case None =>
        BesideListing(fs, ref, before, items, 0);
        var i := RootIndex(fs, ref);
        AroundRoot(fs, i, 0);
      case Some(p) =>
        RootsInIdSet(p.children);
        var d := DepthOf(fs, p.id, 0) + 1;
        BesideListing(p.children, ref, before, items, d);
        DepthInside(fs, p.id, ref, 0);
        var i := RootIndex(p.children, ref);
        AroundRoot(p.children, i, d);
        LookupInChildren(fs, p.id, ref);
        var own := Listing([Lookup(fs, ref).value], d);
        InsideListing(fs, p.id, ref, Beside(p.children, ref, before, items),
                      if before then Listing(items, d) + own else own + Listing(items, d), 0);
    }
  }

  lemma {:induction false} LookupInChildren(fs: seq<Node>, p: Id, id: Id)
    requires Unique(fs) && p in IdSet(fs) && id in IdSet(Children(fs, p))
    ensures Lookup(fs, id) == Lookup(Children(fs, p), id)
  {
    var own, rest := fs[0].children, fs[1..];
    LookupInside(fs, p);
    LookupInside(own, p);
    LookupInside(rest, p);
    LookupInside(own, id);
    LookupInside(rest, id);
    if fs[0].id == p {
    } else if p in IdSet(own) {
      LookupInChildren(own, p, id);
    } else {
      LookupInChildren(rest, p, id);
    }
  }

  /** Appending below a node puts the new lines just after its subtree, one deeper. */
  lemma AppendedListing(fs: seq<Node>, p: Id, items: seq<Node>)
    requires Unique(fs) && p in IdSet(fs)
    ensures Lookup(fs, p).Some?
    ensures var d := DepthOf(fs, p, 0);
            Listing(PutChildren(fs, p, Children(fs, p) + items), 0)
            == Before(fs, p, 0) + (Listing([Lookup(fs, p).value], d) + Listing(items, d + 1)) + After(fs, p, 0)
  {
    hide Listing, PutChildren, IdSet, Before, After, Unique, DepthOf;
    LookupInside(fs, p);
    var own, d := Children(fs, p), DepthOf(fs, p, 0);
    PutListing(fs, p, own + items, 0);
    ListingConcat(own, items, d + 1);
    ListingCons(Lookup(fs, p).value, [], d);
    EmptyListing(d);
    assert [Lookup(fs, p).value] + [] == [Lookup(fs, p).value];
  }

  lemma EmptyListing(depth: nat)
    ensures Listing([], depth) == []
  {
  }

  // ----- identities after a removal -----

  lemma RemovedRest(fs: seq<Node>, id: Id)
    requires Unique(fs) && id in IdSet(fs)
    ensures Lookup(fs, id).Some?
    ensures Unique(Removed(fs, id)) && IdSet(Removed(fs, id)) == IdSet(fs) - IdSet([Lookup(fs, id).value])
    ensures Unique([Lookup(fs, id).value]) && IdSet([Lookup(fs, id).value]) <= IdSet(fs)
  {
    LookupInside(fs, id);
    ParentInside(fs, id);
    match Parent(fs, id) {
      case None =>
        var i := RootIndex(fs, id);
        ListAt(fs, id, i);
        AroundRoot(fs, i, 0);
        SplitList(fs, i);
      case Some(p) =>
        var i := RootIndex(p.children, id);
        ListAt(p.children, id, i);
        AroundRoot(p.children, i, 0);
        RootsInIdSet(p.children);
        LookupInChildren(fs, p.id, id);
        RemovedIds(fs, p.id, i);
    }
  }

  /** The lines in front of the place where a drop puts the node. */
  function FrontOf(fs: seq<Node>, target: Id, place: Place): seq<Entry>
    requires target in IdSet(fs) && Lookup(fs, target).Some?
  {
    Before(fs, target, 0)
    + if place == Top then [] else Listing([Lookup(fs, target).value], DepthOf(fs, target, 0))
  }

  function BackOf(fs: seq<Node>, target: Id, place: Place): seq<Entry>
    requires target in IdSet(fs) && Lookup(fs, target).Some?
  {
    (if place == Top then Listing([Lookup(fs, target).value], DepthOf(fs, target, 0)) else [])
    + After(fs, target, 0)
  }

  /** A drag and drop moves one contiguous block of the listing: the lines of the dragged subtree are
      cut out and come back, shifted in depth as one, in front of the target, or behind its subtree. */
  lemma MoveIsBlockMove(fs: seq<Node>, id: Id, target: Id, place: Place)
    requires Unique(fs) && id in IdSet(fs) && target in IdSet(fs)
    requires Lookup(fs, id).Some? && target !in IdSet([Lookup(fs, id).value])
    ensures var n, rest := Lookup(fs, id).value, Removed(fs, id);
            && target in IdSet(rest) && Lookup(rest, target).Some?
            && Listing(fs, 0) == Before(fs, id, 0) + Listing([n], DepthOf(fs, id, 0)) + After(fs, id, 0)
            && Before(fs, id, 0) + After(fs, id, 0)
               == FrontOf(rest, target, place) + BackOf(rest, target, place)
            && Listing(Dropped(rest, target, place, n), 0)
               == FrontOf(rest, target, place)
                  + Listing([n], DepthOf(rest, target, 0) + if place == Inside then 1 else 0)
                  + BackOf(rest, target, place)
    ensures var rest := Removed(fs, id);
            && target in IdSet(rest) && Lookup(rest, target).Some?
            && var own := Listing([Lookup(rest, target).value], DepthOf(rest, target, 0));
               && FrontOf(rest, target, Top) == Before(rest, target, 0)
               && FrontOf(rest, target, Bottom) == FrontOf(rest, target, Inside) == Before(rest, target, 0) + own
  {
    hide Listing, PutChildren, IdSet, Before, After, Unique, DepthOf;
    var n, rest := Lookup(fs, id).value, Removed(fs, id);
    ListingAround(fs, id, 0);
    RemovedRest(fs, id);
    assert Listing(rest, 0) == Before(fs, id, 0) + After(fs, id, 0) by { RemovedListing(fs, id); }
    ListingAround(rest, target, 0);
    var a, o, b := Before(rest, target, 0), Listing([Lookup(rest, target).value], DepthOf(rest, target, 0)),
                   After(rest, target, 0);
    assert Listing(rest, 0) == a + o + b;
    Glue(a, o, b, []);
    DroppedListing(rest, target, place, n);
  }

  lemma DroppedListing(rest: seq<Node>, target: Id, place: Place, n: Node)
    requires Unique(rest) && target in IdSet(rest)
    ensures Lookup(rest, target).Some?
    ensures Listing(Dropped(rest, target, place, n), 0)
         == FrontOf(rest, target, place)
            + Listing([n], DepthOf(rest, target, 0) + if place == Inside then 1 else 0)
            + BackOf(rest, target, place)
  {
    hide Listing, PutChildren, IdSet, Before, After, Unique, DepthOf;
    LookupInside(rest, target);
    var d := DepthOf(rest, target, 0);
    var a, o, b := Before(rest, target, 0), Listing([Lookup(rest, target).value], d), After(rest, target, 0);
    var x := Listing([n], d + if place == Inside then 1 else 0);
    if place == Inside {
      assert Listing(Dropped(rest, target, place, n), 0) == a + (o + x) + b by { AppendedListing(rest, target, [n]); }
    } else if place == Top {
      assert Listing(Dropped(rest, target, place, n), 0) == a + (x + o) + b by {
        InsertedListing(rest, target, true, [n]);
      }
    } else {
      assert Listing(Dropped(rest, target, place, n), 0) == a + (o + x) + b by {
        InsertedListing(rest, target, false, [n]);
      }
    }
    Glue(a, o, b, x);
  }

  lemma Glue<T>(a: seq<T>, o: seq<T>, b: seq<T>, x: seq<T>)
    ensures a + o + b == (a + []) + (o + b) && a + o + b == (a + o) + ([] + b)
    ensures a + (o + x) + b == (a + o) + x + ([] + b)
    ensures a + (x + o) + b == (a + []) + x + (o + b)
  {
  }
}
