/** The tree widget: its node data and the checkbox state of its rendered nodes. */
module Trees {
  import opened Forest
  import opened Checks
  import opened Moves
  import opened Wrappers

  /** The calls a traversal makes: all of `ns`, or up to the first one that answers false. */
  function UpTo(ns: seq<Node>, stop: Id -> bool): seq<Node> {
    if ns == [] then [] else if stop(ns[0].id) then [ns[0]] else [ns[0]] + UpTo(ns[1..], stop)
  }

  lemma {:induction false} UpToSplit(a: seq<Node>, b: seq<Node>, stop: Id -> bool)
    requires forall n :: n in a ==> !stop(n.id)
    ensures UpTo(a + b, stop) == a + UpTo(b, stop)
  {
    if a == [] {
      assert a + b == b;
    } else {
      assert (a + b)[1..] == a[1..] + b;
      UpToSplit(a[1..], b, stop);
    }
  }

  lemma PreorderPop(fs: seq<Node>)
    requires fs != []
    ensures Preorder(fs) == [fs[0]] + Preorder(fs[0].children + fs[1..])
    ensures Size(fs) == 1 + Size(fs[0].children + fs[1..])
  {
    PreorderConcat(fs[0].children, fs[1..]);
    SizeConcat(fs[0].children, fs[1..]);
  }

  /** Visits the nodes with a stack; `stop` tells for which nodes the callback answers false. */
  method Walk(fs: seq<Node>, stop: Id -> bool) returns (seen: seq<Node>)
    ensures seen == UpTo(Preorder(fs), stop)
  {
    hide Preorder, Size, UpTo;
    var stack := [];
    for i := 0 to |fs|
      invariant stack == fs[..i]
    {
      stack := stack + [fs[i]];
    }
    assert stack == fs && Preorder(fs) == [] + Preorder(stack);
    seen := [];
    while stack != []
      invariant Preorder(fs) == seen + Preorder(stack)
      invariant forall n :: n in seen ==> !stop(n.id)
      decreases Size(stack)
    {
      PreorderPop(stack);
      var node := stack[0];
      ghost var before, rest := seen, Preorder(node.children + stack[1..]);
      stack := stack[1..];
      seen := seen + [node];
      assert Preorder(fs) == before + ([node] + rest) == seen + rest;
      if stop(node.id) {
        UpToSplit(before, [node] + rest, stop);
        UpToEnds(node, rest, stop);
        return;
      }
      ghost var tail := stack;
      var i := |node.children|;
      while i > 0
        invariant 0 <= i <= |node.children|
        invariant stack == node.children[i..] + tail
      {
        i := i - 1;
        stack := [node.children[i]] + stack;
      }
    }
    UpToSplit(seen, [], stop);
    NothingLeft(stop);
    assert Preorder(fs) == seen;
    assert seen + [] == seen;
  }

  lemma UpToEnds(n: Node, rest: seq<Node>, stop: Id -> bool)
    requires stop(n.id)
    ensures UpTo([n] + rest, stop) == [n]
  {
  }

  lemma NothingLeft(stop: Id -> bool)
    ensures Preorder([]) == [] && UpTo([], stop) == []
  {
  }

  /** A traversal whose callback never answers false. */
  method WalkAll(fs: seq<Node>) returns (seen: seq<Node>)
    ensures seen == Preorder(fs)
  {
    seen := Walk(fs, x => false);
    UpToSplit(Preorder(fs), [], x => false);
    assert Preorder(fs) + [] == Preorder(fs);
  }

  /** The structural lookup is the first match in preorder. */
  lemma {:induction false} LookupIsFirst(fs: seq<Node>, id: Id)
    ensures Lookup(fs, id) == FirstWith(Preorder(fs), id)
  {
    if fs != [] {
      LookupIsFirst(fs[0].children, id);
      LookupIsFirst(fs[1..], id);
      FirstWithConcat(Preorder(fs[0].children), Preorder(fs[1..]), id);
      var tail := Preorder(fs[0].children) + Preorder(fs[1..]);
      assert Preorder(fs) == [fs[0]] + tail;
      assert Preorder(fs)[1..] == tail;
    }
  }

  function FirstWith(ns: seq<Node>, id: Id): Option<Node> {
    if ns == [] then None else if ns[0].id == id then Some(ns[0]) else FirstWith(ns[1..], id)
  }

  lemma {:induction false} FirstWithConcat(a: seq<Node>, b: seq<Node>, id: Id)
    ensures FirstWith(a + b, id) == if FirstWith(a, id).Some? then FirstWith(a, id) else FirstWith(b, id)
  {
    if a == [] {
      assert a + b == b;
    } else {
      assert (a + b)[1..] == a[1..] + b;
      FirstWithConcat(a[1..], b, id);
    }
  }

  lemma {:induction false} LastSeenIsFirst(ns: seq<Node>, id: Id)
    ensures var seen := UpTo(ns, x => x == id);
            FirstWith(ns, id) == if seen != [] && seen[|seen| - 1].id == id then Some(seen[|seen| - 1]) else None
  {
    if ns != [] && ns[0].id != id {
      LastSeenIsFirst(ns[1..], id);
    }
  }

  // ----- the fields that a check leaves behind -----

  /** The fields after a check of all nodes in `ids`. */
  function Marks(asked: map<Id, bool>, ids: set<Id>): map<Id, bool> {
    map i | i in asked.Keys + ids :: i in ids || asked[i]
  }

  lemma MarksOne(asked: map<Id, bool>, ids: set<Id>, i: Id)
    ensures Marks(asked, ids)[i := true] == Marks(asked, ids + {i})
    ensures Marks(asked, {}) == asked
  {
  }

  /** The first root without the checked flag. */
  function FirstUnmarked(items: seq<Node>, checked: set<Id>): Option<Id> {
    if items == [] then None
    else if items[0].id !in checked then Some(items[0].id)
    else FirstUnmarked(items[1..], checked)
  }

  /** The fields after a load: the first root without the flag is unchecked, then all nodes with it are checked. */
  function Flagged(asked: map<Id, bool>, items: seq<Node>, checked: set<Id>): map<Id, bool> {
    var first := FirstUnmarked(items, checked);
    Marks(if first.Some? then asked[first.value := false] else asked, IdSet(items) * checked)
  }

  /** Root `k` is the first without the flag. */
  predicate IsFirst(items: seq<Node>, checked: set<Id>, k: nat)
    requires k < |items|
  {
    items[k].id !in checked && forall j :: 0 <= j < k ==> items[j].id in checked
  }

  /** What that says of one node. */
  lemma FlaggedIs(asked: map<Id, bool>, items: seq<Node>, checked: set<Id>, i: Id)
    ensures var now := Flagged(asked, items, checked);
            if i in IdSet(items) && i in checked then i in now && now[i]
            else if exists k :: 0 <= k < |items| && items[k].id == i && IsFirst(items, checked, k)
            then i in now && !now[i]
            else (i in now <==> i in asked) && (i in now ==> now[i] == asked[i])
  {
    FirstUnmarkedIs(items, checked);
  }

  lemma {:induction false} FirstUnmarkedIs(items: seq<Node>, checked: set<Id>)
    ensures forall k :: 0 <= k < |items| && IsFirst(items, checked, k) ==>
              FirstUnmarked(items, checked) == Some(items[k].id)
    ensures FirstUnmarked(items, checked).Some? ==>
              exists k :: 0 <= k < |items| && items[k].id == FirstUnmarked(items, checked).value && IsFirst(items, checked, k)
  {
    if items != [] {
      FirstUnmarkedIs(items[1..], checked);
      forall k | 0 < k < |items| && IsFirst(items, checked, k)
        ensures items[0].id in checked && IsFirst(items[1..], checked, k - 1) && items[1..][k - 1] == items[k]
      {
        assert items[0].id in checked;
      }
      if items[0].id in checked && FirstUnmarked(items, checked).Some? {
        var k :| 0 <= k < |items| - 1 && items[1..][k].id == FirstUnmarked(items, checked).value
                 && IsFirst(items[1..], checked, k);
        forall j | 0 <= j < k + 1 ensures items[j].id in checked {
          assert j > 0 ==> items[1..][j - 1] == items[j];
        }
        assert IsFirst(items, checked, k + 1);
      } else if FirstUnmarked(items, checked).Some? {
        assert IsFirst(items, checked, 0);
      }
    }
  }

  lemma {:induction false} FirstUnmarkedSplit(a: seq<Node>, b: seq<Node>, checked: set<Id>)
    ensures FirstUnmarked(a + b, checked)
            == if FirstUnmarked(a, checked).Some? then FirstUnmarked(a, checked) else FirstUnmarked(b, checked)
  {
    if a == [] {
      assert a + b == b;
    } else {
      assert (a + b)[1..] == a[1..] + b;
      FirstUnmarkedSplit(a[1..], b, checked);
    }
  }

  /** The fields after a decision about `p` with children `kids`, whose box goes from `before` to `after`. */
  function Settled(asked: map<Id, bool>, p: Id, kids: seq<Node>, before: Tri, after: Tri): map<Id, bool> {
    if kids == [] || before == On || (before == Mixed && after != Mixed) then asked[p := after == On] else asked
  }

  /** The fields after an append: those of the load, and that of the parent, if it is checked. */
  function AppendMarks(asked: map<Id, bool>, parent: Option<Id>, items: seq<Node>, checked: set<Id>, box: Boxes)
    : map<Id, bool>
  {
    var loaded := Flagged(asked, items, checked);
    if parent.Some? && At(box, parent.value) == On then loaded[parent.value := true] else loaded
  }

  function ParentId(fs: seq<Node>, id: Id): Option<Id> {
    match Parent(fs, id) case None => None case Some(p) => Some(p.id)
  }

  /** The node that the dropped one gets as parent. */
  function NewParent(fs: seq<Node>, target: Id, place: Place): Option<Id> {
    if place == Inside then Some(target) else ParentId(fs, target)
  }

  lemma NewParentOutside(fs: seq<Node>, id: Id, target: Id, place: Place)
    requires Unique(fs) && id in IdSet(fs) && target in IdSet(Removed(fs, id)) && Lookup(fs, id).Some?
    ensures var p := NewParent(Removed(fs, id), target, place);
            p.Some? ==> p.value !in IdSet([Lookup(fs, id).value])
  {
    hide Removed, IdSet, Unique;
    RemovedRest(fs, id);
    ParentInside(Removed(fs, id), target);
  }

  /** A drop leaves a field on the moved nodes that were checked, on the moved node itself, and perhaps on the
      parents; all other fields stay. */
  ghost predicate DropMarks(was: map<Id, bool>, now: map<Id, bool>, node: Node, box: Boxes, from: Option<Node>, to: Option<Id>) {
    && (forall i :: i in IdSet([node]) && At(box, i) == On ==> i in now && now[i])
    && (At(box, node.id) != On ==> node.id in now && !now[node.id])
    && (forall i :: (i in IdSet([node]) ==> i != node.id && At(box, i) != On)
                    && (from.Some? ==> i != from.value.id) && (to.Some? ==> i != to.value) ==>
          (i in now <==> i in was) && (i in now ==> now[i] == was[i]))
  }

  lemma DroppedMarks(was: map<Id, bool>, popped: map<Id, bool>, now: map<Id, bool>, fs: seq<Node>, box: Boxes,
                     rest: seq<Node>, node: Node, checked: set<Id>, target: Id, place: Place, after: Boxes)
    requires checked == OnIn(IdSet([node]), box)
    requires NewParent(rest, target, place).Some? ==> NewParent(rest, target, place).value !in IdSet([node])
    requires forall i :: (Parent(fs, node.id).Some? ==> i != Parent(fs, node.id).value.id) ==>
               (i in popped <==> i in was) && (i in popped ==> popped[i] == was[i])
    requires now == AppendMarks(popped, NewParent(rest, target, place), [node], checked, after)
    ensures DropMarks(was, now, node, box, Parent(fs, node.id), NewParent(rest, target, place))
  {
    hide IdSet, Flagged;
    SubtreeIds(node);
    FlaggedOne(popped, node, checked);
  }

  /** The fields after a load of one subtree. */
  lemma FlaggedOne(asked: map<Id, bool>, node: Node, checked: set<Id>)
    requires checked <= IdSet([node])
    ensures forall i :: var now := Flagged(asked, [node], checked);
                        if i in checked then i in now && now[i]
                        else if i == node.id then i in now && !now[i]
                        else (i in now <==> i in asked) && (i in now ==> now[i] == asked[i])
  {
    hide IdSet, Flagged;
    forall i ensures var now := Flagged(asked, [node], checked);
                     if i in checked then i in now && now[i]
                     else if i == node.id then i in now && !now[i]
                     else (i in now <==> i in asked) && (i in now ==> now[i] == asked[i])
    {
      FlaggedIs(asked, [node], checked, i);
      assert IsFirst([node], checked, 0) <==> node.id !in checked;
    }
  }

  lemma AppendedChildren(fs: seq<Node>, p: Id, items: seq<Node>)
    requires Unique(fs) && p in IdSet(fs) && items != []
    ensures Children(Loaded(fs, Some(p), items, true), p) != []
  {
    hide IdSet, Unique, PutChildren, Lookup;
    PutLookup(fs, p, Children(fs, p) + items);
  }

  lemma MarkedIds(items: seq<Node>, marked: seq<Node>, checked: set<Id>)
    requires forall n :: n in marked <==> n in Preorder(items) && n.id in checked
    ensures IdsOf(marked) == IdSet(items) * checked
  {
    hide IdSet, Preorder;
    PreorderIds(items);
    forall i | i in IdSet(items) * checked ensures i in IdsOf(marked) {
      var n :| n in Preorder(items) && n.id == i;
      assert n in marked;
    }
  }

  class Tree {
    /** The forest of node objects. */
    var data: seq<Node>
    /** The checkbox class of each rendered node. */
    var box: Boxes
    /** The `_checked` field that a check leaves on a node object. */
    var asked: map<Id, bool>

    ghost predicate Rendered()
      reads this
    {
      Unique(data) && box.Keys == IdSet(data)
    }

    ghost predicate Valid()
      reads this
    {
      Rendered() && Consistent(data, box)
    }

    constructor ()
      ensures Valid() && data == []
    {
      data, box, asked := [], map[], map[];
    }

    method Find(id: Id) returns (found: Option<Node>)
      ensures found == Lookup(data, id)
    {
      var seen := Walk(data, x => x == id);
      LookupIsFirst(data, id);
      LastSeenIsFirst(Preorder(data), id);
      if seen != [] && seen[|seen| - 1].id == id {
        return Some(seen[|seen| - 1]);
      }
      return None;
    }

    /** Whether node `id` and all its siblings have class `t`. */
    method SiblingsAre(id: Id, siblings: seq<Node>, t: Tri) returns (b: bool)
      requires exists n :: n in siblings && n.id == id
      ensures b == AllAre(siblings, box, t)
    {
      if At(box, id) != t {
        return false;
      }
      for i := 0 to |siblings|
        invariant forall n :: n in siblings[..i] ==> At(box, n.id) == t
      {
        if siblings[i].id != id && At(box, siblings[i].id) != t {
          assert siblings[i] in siblings;
          return false;
        }
      }
      assert siblings[..|siblings|] == siblings;
      return true;
    }

    /** Recomputes the ancestors of `id`, nearest first. */
    method Climb(id: Id)
      requires Rendered() && id in box
      requires OkOutside(data, box, id) && Lookup(data, id).Some? && Consistent([Lookup(data, id).value], box)
      modifies this`box
      ensures Valid()
      ensures forall i :: i in box && i !in Ancestors(data, id) ==> box[i] == old(box)[i]
      decreases |Ancestors(data, id)|
    {
      ParentInside(data, id);
      AncestorsOfParent(data, id);
      var p := Parent(data, id);
      if p.Some? {
        var kids := p.value.children;
        var i :| 0 <= i < |kids| && kids[i].id == id;
        assert kids[i] in kids;
        var t;
        var all1 := SiblingsAre(id, kids, On);
        if all1 {
          t := On;
        } else {
          var all0 := SiblingsAre(id, kids, Off);
          t := if all0 then Off else Mixed;
        }
        ghost var before := box;
        box := box[p.value.id := t];
        ClimbStep(data, before, box, id);
        Climb(p.value.id);
      } else {
        ClimbDone(data, box, id);
      }
    }

    /** The check and uncheck methods, and the toggle of a click when `want` is absent.  Whatever
        state the subtree and the ancestors of `id` were in, all is consistent afterwards. */
    method Check(id: Id, want: Option<bool>) returns (on: bool)
      requires Rendered() && id in box && OkOutside(data, box, id)
      modifies this`box, this`asked
      ensures Valid()
      ensures on == match want
                    case Some(w) => w
                    case None => match old(box)[id]
                                 case On => false
                                 case Off => true
                                 case Mixed => !(id in old(asked) && old(asked)[id])
      ensures asked == old(asked)[id := on]
      ensures Lookup(data, id).Some?
      ensures forall i :: i in IdSet([Lookup(data, id).value]) ==> i in box && box[i] == if on then On else Off
      ensures forall i :: i in box && i !in IdSet([Lookup(data, id).value]) && i !in Ancestors(data, id)
                          ==> box[i] == old(box)[i]
      ensures OnLeaves(data, box) == if on then OnLeaves(data, old(box)) + Leaves([Lookup(data, id).value])
                                     else OnLeaves(data, old(box)) - Leaves([Lookup(data, id).value])
    {
      hide IdSet, Unique, OkOutside, Consistent, Lookup, Ancestors, Leaves;
      LookupInside(data, id);
      var found := Find(id);
      var node := found.value;
      if want.Some? {
        on := want.value;
      } else if box[id] == On {
        on := false;
      } else if box[id] == Off {
        on := true;
      } else {
        if id !in asked {
          asked := asked[id := box[id] == On];
        }
        on := !asked[id];
      }
      asked := asked[id := on];
      var t := if on then On else Off;
      ghost var before := box;
      Paint(node, t);
      PaintSubtree(data, before, box, id, t);
      ghost var painted := box;
      Climb(id);
      AncestorsAreOutside(data, id);
      assert SameOn(IdSet(data) - IdSet([node]) - (set i | i in Ancestors(data, id)), before, box);
      PaintedLeaves(data, before, box, id, t);
    }

    /** Gives a node and everything below it the class `t`. */
    method Paint(node: Node, t: Tri)
      requires IdSet([node]) <= box.Keys
      modifies this`box
      ensures box.Keys == old(box.Keys)
      ensures forall i :: i in IdSet([node]) ==> box[i] == t
      ensures forall i :: i in box && i !in IdSet([node]) ==> box[i] == old(box)[i]
    {
      hide Preorder, IdSet, IdsOf;
      var below := WalkAll(node.children);
      ghost var painted := {node.id};
      SubtreeIds(node);
      box := box[node.id := t];
      for k := 0 to |below|
        invariant painted == {node.id} + IdsOf(below[..k])
        invariant box.Keys == old(box.Keys)
        invariant forall i :: i in box ==> box[i] == if i in painted then t else old(box)[i]
      {
        IdsOfTake(below, k);
        box := box[below[k].id := t];
        painted := painted + {below[k].id};
      }
      assert below[..|below|] == below;
    }

    /** Decides afresh about a parent whose children have changed. */
    method Recheck(p: Id)
      requires Rendered() && p in box && OkExcept(data, box, p)
      requires box[p] == On ==> AllAre(Children(data, p), box, On)
      requires box[p] == Off ==> AllAre(Children(data, p), box, Off)
      modifies this`box, this`asked
      ensures Valid() && OnLeaves(data, box) == OnLeaves(data, old(box))
      ensures p in box && asked == Settled(old(asked), p, Children(data, p), old(box)[p], box[p])
    {
      hide Leaves, OkExcept, OkOutside, Unique;
      BelowParent(data, box, p);
      ExceptIsOutside(data, box, p);
      var found := Find(p);
      var node := found.value;
      LookupId(data, p);
      var on;
      if node.children == [] {
        RecheckLeaf(p);
      } else if box[p] == On {
        on := Check(p, Some(true));
      } else if box[p] == Mixed {
        var all, none := Census(node.children);
        if all {
          assert AllAre(node.children, box, On) by { MemberInIdSet(node.children); }
          on := Check(p, Some(true));
        } else if !none {
          var x :| x in IdSet(node.children) && At(box, x) == On;
          var y :| y in IdSet(node.children) && At(box, y) != On;
          MixedParent(node.children, box, x, y);
        }
        if none {
          on := Check(p, Some(false));
        }
      } else {
        assert node.children[0] in node.children;
      }
    }

    /** The same for a parent that has no children any more: it stays checked, or becomes unchecked. */
    method RecheckLeaf(p: Id)
      requires Rendered() && p in box && OkExcept(data, box, p) && Children(data, p) == []
      modifies this`box, this`asked
      ensures Valid() && OnLeaves(data, box) == OnLeaves(data, old(box))
      ensures p in box && asked == old(asked)[p := box[p] == On] && (box[p] == On <==> old(box)[p] == On)
    {
      hide OkExcept, OkOutside, Unique, Consistent;
      BelowParent(data, box, p);
      ExceptIsOutside(data, box, p);
      LookupId(data, p);
      LeafIsBare(data, p);
      var on;
      if box[p] == On {
        on := Check(p, Some(true));
      } else {
        on := Check(p, Some(false));
      }
    }

    /** Whether all, and whether none, of the descendants in `kids` are checked. */
    method Census(kids: seq<Node>) returns (all: bool, none: bool)
      requires kids != []
      ensures all <==> forall i :: i in IdSet(kids) ==> At(box, i) == On
      ensures none <==> forall i :: i in IdSet(kids) ==> At(box, i) != On
      ensures !(all && none)
    {
      all, none := true, true;
      var below := WalkAll(kids);
      for k := 0 to |below|
        invariant all == AllAre(below[..k], box, On)
        invariant none == NoneOn(below[..k], box)
      {
        assert below[..k + 1] == below[..k] + [below[k]];
        if At(box, below[k].id) == On {
          none := false;
        } else {
          all := false;
        }
      }
      assert below[..|below|] == below;
      PreorderIds(kids);
      CensusIds(below, box);
      assert below[0] in below;
    }

    /** Puts `items` into the data and renders them with empty checkboxes. */
    method Place(parent: Option<Id>, items: seq<Node>, append: bool)
      requires Valid() && (parent.Some? ==> parent.value in box)
      requires Unique(items) && IdSet(items) !! IdSet(data)
      modifies this`data, this`box
      ensures data == Loaded(old(data), parent, items, append)
      ensures Rendered()
      ensures SameOn(Kept(old(data), parent, append), old(box), box)
      ensures forall i :: i in IdSet(items) ==> At(box, i) == Off
    {
      LoadedIds(data, parent, items, append);
      if parent.Some? {
        var p := parent.value;
        LookupInside(data, p);
        var found := Find(p);
        var own := found.value.children;
        data := PutChildren(data, p, (if append then own else []) + items);
        if !append {
          box := box - IdSet(own);
        }
      } else {
        data := (if append then data else []) + items;
        if !append {
          box := map[];
        }
      }
      assert box.Keys == Kept(old(data), parent, append);
      Render(items);
    }

    /** Gives every node of `items` an empty checkbox. */
    method Render(items: seq<Node>)
      modifies this`box
      ensures box.Keys == old(box.Keys) + IdSet(items)
      ensures forall i :: i in box ==> box[i] == if i in IdSet(items) then Off else old(box)[i]
    {
      var all := WalkAll(items);
      PreorderIds(items);
      for k := 0 to |all|
        invariant box.Keys == old(box.Keys) + IdsOf(all[..k])
        invariant forall i :: i in box ==> box[i] == if i in IdsOf(all[..k]) then Off else old(box)[i]
      {
        IdsOfTake(all, k);
        box := box[all[k].id := Off];
      }
      assert all[..|all|] == all;
    }

    /** Loads `items`, of which those in `checked` carry the checked flag, below `parent`, in place of
        what is there or after it. */
    method Load(parent: Option<Id>, items: seq<Node>, checked: set<Id>, append: bool)
      requires Valid() && (parent.Some? ==> parent.value in box)
      requires Unique(items) && IdSet(items) !! IdSet(data)
      modifies this
      ensures Rendered() && data == Loaded(old(data), parent, items, append)
      ensures items != [] ==>
                && Consistent(data, box)
                && OnLeaves(data, box) == OnLeaves(old(data), old(box)) * Leaves(data) + CheckedLeaves(items, checked)
      ensures asked == if items == [] then old(asked) else Flagged(old(asked), items, checked)
      ensures items != [] ==> Leaves(items) <= Leaves(data) <= Leaves(old(data)) + Leaves(items)
      ensures items == [] ==>
                && SameOn(box.Keys, old(box), box)
                && (Consistent(data, box) <==> append || parent.None? || old(box)[parent.value] != Mixed)
    {
      Place(parent, items, append);
      LoadedIds(old(data), parent, items, append);
      if items == [] {
        EmptyLoad(old(data), old(box), box, parent, append);
        return;
      }
      LoadedLeaves(old(data), old(box), box, parent, items, append);
      forall n | n in Preorder(items) ensures Lookup(data, n.id) == Some(n) {
        LoadedItems(old(data), parent, items, append, n);
      }
      forall c | c in IdSet(items) ensures OkOutside(data, box, c) {
        LoadedOk(old(data), old(box), box, parent, items, append, c);
      }
      ApplyFlags(items, checked);
    }

    /** Unchecks the first unchecked root of freshly rendered `items`, then checks every node that
        carries the flag. */
    method ApplyFlags(items: seq<Node>, checked: set<Id>)
      requires Rendered() && items != []
      requires forall n :: n in Preorder(items) ==> Lookup(data, n.id) == Some(n)
      requires forall i :: i in IdSet(items) ==> At(box, i) == Off && OkOutside(data, box, i)
      modifies this`box, this`asked
      ensures Valid()
      ensures OnLeaves(data, box) == OnLeaves(data, old(box)) + CheckedLeaves(items, checked)
      ensures asked == Flagged(old(asked), items, checked)
    {
      var unchecked := Unmarked(items, checked);
      var marked := Marked(items, checked);
      forall n | n in items ensures n.id in IdSet(items) && Lookup(data, n.id) == Some(n) {
        RootInPreorder(items, n);
      }
      assert items[0] in items;
      forall n | n in marked ensures n.id in IdSet(items) {
        PreorderIds(items);
      }
      hide Preorder, IdSet, Lookup, OkOutside, Unique, Consistent, Leaves;
      if unchecked != [] {
        var first := unchecked[0];
        LookupInside(data, first.id);
        NewLeavesOff(data, box, first, items);
        var on := Check(first.id, Some(false));
      }
      if marked != [] && unchecked != [] {
        ConsistentIsOutside(data, box, marked[0].id);
      }
      CheckAll(marked);
      assert LeavesOf(marked) == CheckedLeaves(items, checked);
      MarkedIds(items, marked, checked);
    }

    /** The roots of `items` without the checked flag. */
    method Unmarked(items: seq<Node>, checked: set<Id>) returns (unchecked: seq<Node>)
      ensures forall n :: n in unchecked <==> n in items && n.id !in checked
      ensures (if unchecked == [] then None else Some(unchecked[0].id)) == FirstUnmarked(items, checked)
    {
      unchecked := [];
      for i := 0 to |items|
        invariant forall n :: n in unchecked <==> n in items[..i] && n.id !in checked
        invariant (if unchecked == [] then None else Some(unchecked[0].id)) == FirstUnmarked(items[..i], checked)
      {
        assert items[..i + 1] == items[..i] + [items[i]];
        FirstUnmarkedSplit(items[..i], [items[i]], checked);
        if items[i].id !in checked {
          unchecked := unchecked + [items[i]];
        }
      }
      assert items[..|items|] == items;
    }

    /** Checks the given nodes one after the other. */
    method CheckAll(marked: seq<Node>)
      requires Rendered()
      requires forall n :: n in marked ==> Lookup(data, n.id) == Some(n)
      requires if marked == [] then Consistent(data, box) else OkOutside(data, box, marked[0].id)
      modifies this`box, this`asked
      ensures Valid()
      ensures OnLeaves(data, box) == OnLeaves(data, old(box)) + LeavesOf(marked)
      ensures asked == Marks(old(asked), IdsOf(marked))
    {
      hide Marks, IdsOf, OkOutside, Consistent, Leaves;
      MarksOne(asked, {}, 0);
      NoIds();
      assert marked[..0] == [];
      for k := 0 to |marked|
        invariant Rendered()
        invariant if k == 0 && marked != [] then OkOutside(data, box, marked[0].id) else Consistent(data, box)
        invariant OnLeaves(data, box) == OnLeaves(data, old(box)) + LeavesOf(marked[..k])
        invariant asked == Marks(old(asked), IdsOf(marked[..k]))
      {
        LeavesOfTake(marked, k);
        IdsOfTake(marked, k);
        MarksOne(old(asked), IdsOf(marked[..k]), marked[k].id);
        var node := marked[k];
        LookupInside(data, node.id);
        if k > 0 {
          ConsistentIsOutside(data, box, node.id);
        }
        var on := Check(node.id, Some(true));
      }
      assert marked[..|marked|] == marked;
    }

    /** The nodes of `items` with the checked flag, in preorder. */
    method Marked(items: seq<Node>, checked: set<Id>) returns (marked: seq<Node>)
      ensures forall n :: n in marked <==> n in Preorder(items) && n.id in checked
      ensures items != [] && items[0].id in checked ==> marked != [] && marked[0] == items[0]
    {
      marked := [];
      var all := WalkAll(items);
      for k := 0 to |all|
        invariant forall n :: n in marked <==> n in all[..k] && n.id in checked
        invariant k > 0 && all[0].id in checked ==> marked != [] && marked[0] == all[0]
      {
        assert all[..k + 1] == all[..k] + [all[k]];
        if all[k].id in checked {
          marked := marked + [all[k]];
        }
      }
      assert all[..|all|] == all;
    }

    /** The append method. */
    method Append(parent: Option<Id>, items: seq<Node>, checked: set<Id>)
      requires Valid() && (parent.Some? ==> parent.value in box)
      requires Unique(items) && IdSet(items) !! IdSet(data)
      modifies this
      ensures Valid()
      ensures items == [] ==> data == old(data) && box == old(box)
      ensures items != [] ==> data == Loaded(old(data), parent, items, true)
      ensures OnLeaves(data, box) == OnLeaves(old(data), old(box)) * Leaves(data) + CheckedLeaves(items, checked)
      ensures asked == if items == [] then old(asked)
                       else AppendMarks(old(asked), parent, items, checked, box)
      ensures items != [] ==> Leaves(items) <= Leaves(data) <= Leaves(old(data)) + Leaves(items)
    {
      if items == [] {
        return;
      }
      Load(parent, items, checked, true);
      LoadedIds(old(data), parent, items, true);
      if parent.Some? {
        var p := parent.value;
        ConsistentIsExcept(data, box, p);
        BelowParent(data, box, p);
        ghost var between := box;
        Recheck(p);
        LeavesDetermine(data, between, box);
        AppendedChildren(old(data), p, items);
      }
    }

    /** The insert method: `items` are appended, then moved next to `ref` in the array. */
    method Insert(ref: Id, before: bool, items: seq<Node>, checked: set<Id>)
      requires Valid() && ref in box
      requires Unique(items) && IdSet(items) !! IdSet(data)
      modifies this
      ensures Valid()
      ensures data == if items == [] then old(data) else Inserted(old(data), ref, before, items)
      ensures OnLeaves(data, box) == OnLeaves(old(data), old(box)) * Leaves(data) + CheckedLeaves(items, checked)
      ensures asked == if items == [] then old(asked)
                       else AppendMarks(old(asked), ParentId(old(data), ref), items, checked, box)
      ensures items != [] ==> Leaves(items) <= Leaves(data) <= Leaves(old(data)) + Leaves(items)
    {
      if items == [] {
        return;
      }
      hide IdSet, Unique, Leaves, Consistent, PutChildren, Lookup, Beside, CheckedLeaves, Parent;
      ParentInside(data, ref);
      var parent := Parent(data, ref);
      var own := if parent.Some? then parent.value.children else data;
      var i := RefIndex(own, ref);
      BesideAt(own, ref, i, before, items);
      if parent.Some? {
        InsertBelow(parent.value.id, own, if before then i else i + 1, items, checked);
      } else {
        InsertAtTop(if before then i else i + 1, items, checked);
      }
    }

    method InsertBelow(p: Id, own: seq<Node>, k: nat, items: seq<Node>, checked: set<Id>)
      requires Valid() && Lookup(data, p) == Some(Node(p, own)) && k <= |own|
      requires Unique(items) && IdSet(items) !! IdSet(data) && items != []
      modifies this
      ensures Valid()
      ensures data == PutChildren(old(data), p, own[..k] + items + own[k..])
      ensures OnLeaves(data, box) == OnLeaves(old(data), old(box)) * Leaves(data) + CheckedLeaves(items, checked)
      ensures asked == AppendMarks(old(asked), Some(p), items, checked, box)
      ensures Leaves(items) <= Leaves(data) <= Leaves(old(data)) + Leaves(items)
    {
      ghost var fs := data;
      assert p in box && p !in IdSet(items) && Children(data, p) == own by { LookupInside(data, p); }
      hide *;
      Append(Some(p), items, checked);
      ShiftBelow(fs, p, own, k, items);
    }

    /** Moves freshly appended children of `p` from the end of the list to position `k`. */
    method ShiftBelow(ghost fs: seq<Node>, p: Id, ghost own: seq<Node>, k: nat, items: seq<Node>)
      requires Unique(fs) && p in IdSet(fs) && p !in IdSet(items) && own == Children(fs, p) && k <= |own|
      requires Valid() && data == Loaded(fs, Some(p), items, true)
      modifies this`data
      ensures Valid()
      ensures data == PutChildren(fs, p, own[..k] + items + own[k..])
      ensures Leaves(data) == Leaves(old(data)) && OnLeaves(data, box) == OnLeaves(old(data), box)
    {
      hide IdSet, Unique, Leaves, Consistent, PutChildren, Lookup, Loaded, OnLeaves, Children;
      ShiftedBelow(fs, data, box, p, items, k);
      var found := Find(p);
      var af := MoveTail(found.value.children, k, items, own);
      data := PutChildren(data, p, af);
    }

    method InsertAtTop(k: nat, items: seq<Node>, checked: set<Id>)
      requires Valid() && k <= |data|
      requires Unique(items) && IdSet(items) !! IdSet(data) && items != []
      modifies this
      ensures Valid()
      ensures data == old(data)[..k] + items + old(data)[k..]
      ensures OnLeaves(data, box) == OnLeaves(old(data), old(box)) * Leaves(data) + CheckedLeaves(items, checked)
      ensures asked == AppendMarks(old(asked), None, items, checked, box)
      ensures Leaves(items) <= Leaves(data) <= Leaves(old(data)) + Leaves(items)
    {
      hide IdSet, Unique, Leaves, Consistent, CheckedLeaves;
      ghost var fs := data;
      Append(None, items, checked);
      ShiftedAtTop(fs, box, items, k);
      data := MoveTail(data, k, items, fs);
    }

    /** The remove method. */
    method Remove(id: Id)
      requires Valid() && id in box
      modifies this
      ensures Valid()
      ensures data == Removed(old(data), id)
      ensures OnLeaves(data, box) == OnLeaves(old(data), old(box)) * Leaves(data) + Bared(old(data), old(box), id)
      ensures asked == match Parent(old(data), id)
                       case None => old(asked)
                       case Some(p) =>
                         Settled(old(asked), p.id, Children(data, p.id), At(old(box), p.id), At(box, p.id))
    {
      RemovedRest(data, id);
      ParentInside(data, id);
      var found := Find(id);
      var gone := found.value;
      var parent := Parent(data, id);
      if parent.Some? {
        var p, own := parent.value.id, parent.value.children;
        var i := RefIndex(own, id);
        RemovedBelow(data, box, p, id, i);
        data := PutChildren(data, p, own[..i] + own[i + 1..]);
        box := box - IdSet([gone]);
        Recheck(p);
      } else {
        var i := RefIndex(data, id);
        RemovedAtTop(data, box, id, i);
        data := data[..i] + data[i + 1..];
        box := box - IdSet([gone]);
      }
    }

    /** The pop method: the removed subtree, and which of its nodes carry the checked flag. */
    method Pop(id: Id) returns (node: Node, checked: set<Id>)
      requires Valid() && id in box
      modifies this
      ensures Lookup(old(data), id) == Some(node) && checked == OnIn(IdSet([node]), old(box))
      ensures Valid()
      ensures data == Removed(old(data), id)
      ensures OnLeaves(data, box) == OnLeaves(old(data), old(box)) * Leaves(data) + Bared(old(data), old(box), id)
      ensures asked == match Parent(old(data), id)
                       case None => old(asked)
                       case Some(p) =>
                         Settled(old(asked), p.id, Children(data, p.id), At(old(box), p.id), At(box, p.id))
    {
      LookupInside(data, id);
      var found := Find(id);
      node := found.value;
      checked := CheckedIn(node);
      Remove(id);
    }

    /** The checked flags that getData refreshes on a node and its descendants. */
    method CheckedIn(node: Node) returns (checked: set<Id>)
      ensures checked == OnIn(IdSet([node]), box)
    {
      checked := if At(box, node.id) == On then {node.id} else {};
      var below := WalkAll(node.children);
      PreorderIds(node.children);
      assert IdSet([node]) == {node.id} + IdsOf(below);
      hide IdSet, Preorder;
      ghost var ids := {node.id};
      for k := 0 to |below|
        invariant ids == {node.id} + IdsOf(below[..k])
        invariant checked == OnIn(ids, box)
      {
        IdsOfTake(below, k);
        ids := ids + {below[k].id};
        if At(box, below[k].id) == On {
          checked := checked + {below[k].id};
        }
      }
      assert below[..|below|] == below;
    }

    /** A drag and drop: the dragged subtree is popped and then appended to, or inserted next to, the
        target.  The boxes stay consistent, and apart from a parent that is left without children
        every leaf keeps its state, in the moved subtree as elsewhere. */
    method Drop(id: Id, target: Id, place: Place)
      requires Valid() && id in box && target in box
      requires Lookup(data, id).Some? ==> target !in IdSet([Lookup(data, id).value])
      modifies this
      ensures Valid()
      ensures Lookup(old(data), id).Some?
      ensures data == Dropped(Removed(old(data), id), target, place, Lookup(old(data), id).value)
      ensures OnLeaves(data, box) == (OnLeaves(old(data), old(box)) + Bared(old(data), old(box), id)) * Leaves(data)
      ensures DropMarks(old(asked), asked, Lookup(old(data), id).value, old(box), Parent(old(data), id),
                        NewParent(Removed(old(data), id), target, place))
    {
      RemovedRest(data, id);
      hide IdSet, Unique, Leaves, Consistent, CheckedLeaves, Removed, Lookup, OnLeaves;
      hide DropMarks, AppendMarks, Parent, OnIn;
      ghost var fs, was, asked0 := data, box, asked;
      var node, checked := Pop(id);
      ghost var rest, popped := data, asked;
      if place == Inside {
        Append(Some(target), [node], checked);
      } else {
        Insert(target, place == Top, [node], checked);
      }
      LookupId(fs, id);
      DroppedLeaves(fs, was, rest, node, checked, OnLeaves(data, box), Leaves(data), Bared(fs, was, id));
      NewParentOutside(fs, id, target, place);
      DroppedMarks(asked0, popped, asked, fs, was, rest, node, checked, target, place, box);
    }

    /** The index of entry `ref`, found by a scan from the front. */
    static method RefIndex(list: seq<Node>, ref: Id) returns (i: nat)
      requires ref in Roots(list)
      ensures i < |list| && list[i].id == ref && forall j :: 0 <= j < i ==> list[j].id != ref
    {
      i := 0;
      while list[i].id != ref
        invariant i < |list|
        invariant forall j :: 0 <= j < i ==> list[j].id != ref
        decreases |list| - i
      {
        i := i + 1;
      }
    }

    /** Copies `items`, the last entries of the list, to position `k` and cuts them off the end. */
    static method MoveTail(list: seq<Node>, k: nat, items: seq<Node>, ghost own: seq<Node>) returns (af: seq<Node>)
      requires list == own + items && k <= |own|
      ensures af == own[..k] + items + own[k..]
    {
      af := list;
      var j := |items|;
      while j > 0
        invariant 0 <= j <= |items|
        invariant af == list[..k] + (items[j..] + list[k..])
      {
        j := j - 1;
        SpliceIn(list[..k], items[j], items[j + 1..], list[k..]);
        assert items[j..] == [items[j]] + items[j + 1..];
        af := af[..k] + [items[j]] + af[k..];
      }
      var n := |af| - |items|;
      CutTail(list[..k], items, list[k..], |items|);
      assert list[..k] == own[..k] && list[k..][..|list| - k - |items|] == own[k..];
      af := af[..n] + af[n + |items|..];
    }
  }

  function OnIn(ids: set<Id>, box: Boxes): set<Id> {
    set i | i in ids && At(box, i) == On
  }

  /** The parent that loses its only child `id`, if that parent was checked. */
  function Bared(fs: seq<Node>, box: Boxes, id: Id): set<Id> {
    match Parent(fs, id)
    case None => {}
    case Some(p) => if |p.children| == 1 && At(box, p.id) == On then {p.id} else {}
  }

  lemma RemovedBelow(fs: seq<Node>, box: Boxes, p: Id, id: Id, i: nat)
    requires Unique(fs) && Consistent(fs, box) && box.Keys == IdSet(fs)
    requires Parent(fs, id).Some? && Parent(fs, id).value.id == p && Lookup(fs, id).Some?
    requires i < |Parent(fs, id).value.children| && Parent(fs, id).value.children[i].id == id
    requires forall j :: 0 <= j < i ==> Parent(fs, id).value.children[j].id != id
    ensures var own := Parent(fs, id).value.children;
            var kids := own[..i] + own[i + 1..];
            var out, b := PutChildren(fs, p, kids), box - IdSet([Lookup(fs, id).value]);
            && out == Removed(fs, id) && Children(out, p) == kids
            && p in b && OkExcept(out, b, p)
            && (At(b, p) == On ==> AllAre(kids, b, On)) && (At(b, p) == Off ==> AllAre(kids, b, Off))
            && OnLeaves(out, b) == OnLeaves(fs, box) * Leaves(out) + Bared(fs, box, id)
  {
    ParentInside(fs, id);
    LookupInside(fs, p);
    var own := Parent(fs, id).value.children;
    assert own == Children(fs, p);
    ListAt(own, id, i);
    AroundRoot(own, i, 0);
    RootsInIdSet(own);
    LookupInChildren(fs, p, id);
    hide IdSet, Unique, Consistent, Leaves, PutChildren, Lookup, Parent, OkExcept;
    assert Lookup(fs, id) == Some(own[i]);
    var b := box - IdSet([own[i]]);
    RemovedIds(fs, p, i);
    ChildrenInside(fs, p);
    assert p !in IdSet([own[i]]);
    RemovedChild(fs, box, b, p, i);
    RemainingChildren(fs, box, b, p, i);
  }

  lemma RemovedAtTop(fs: seq<Node>, box: Boxes, id: Id, i: nat)
    requires Unique(fs) && Consistent(fs, box) && box.Keys == IdSet(fs)
    requires Parent(fs, id).None? && Lookup(fs, id).Some?
    requires i < |fs| && fs[i].id == id && forall j :: 0 <= j < i ==> fs[j].id != id
    ensures var out, b := fs[..i] + fs[i + 1..], box - IdSet([Lookup(fs, id).value]);
            && out == Removed(fs, id) && Consistent(out, b)
            && OnLeaves(out, b) == OnLeaves(fs, box) * Leaves(out) + Bared(fs, box, id)
  {
    hide IdSet, Unique, Leaves, OnLeaves, Parent, Consistent, Lookup;
    ListAt(fs, id, i);
    AroundRoot(fs, i, 0);
    RootConsistent(fs, box, i);
    RootLeaves(fs, box, i);
  }

  /** Without one of the roots the boxes stay consistent. */
  lemma RootConsistent(fs: seq<Node>, box: Boxes, i: nat)
    requires Unique(fs) && Consistent(fs, box) && i < |fs|
    ensures Consistent(fs[..i] + fs[i + 1..], box - IdSet([fs[i]]))
  {
    hide IdSet, Unique, Consistent;
    SplitList(fs, i);
    var out := fs[..i] + fs[i + 1..];
    assert fs == fs[..i] + ([fs[i]] + fs[i + 1..]);
    ConsistentConcat(fs[..i], [fs[i]] + fs[i + 1..], box, 0);
    ConsistentConcat([fs[i]], fs[i + 1..], box, 0);
    ConsistentConcat(fs[..i], fs[i + 1..], box, 0);
    Frame(out, box, box - IdSet([fs[i]]), 0);
  }

  /** Without one of the roots the checked leaves are those that are left. */
  lemma RootLeaves(fs: seq<Node>, box: Boxes, i: nat)
    requires Unique(fs) && i < |fs|
    ensures var out := fs[..i] + fs[i + 1..]; OnLeaves(out, box - IdSet([fs[i]])) == OnLeaves(fs, box) * Leaves(out)
  {
    hide IdSet, Unique, Leaves;
    SplitList(fs, i);
    LeavesInside(fs[..i] + fs[i + 1..]);
  }

  /** Re-applying the checked flags of a consistent subtree gives its leaves back their state. */
  lemma FlagsKeepLeaves(node: Node, box: Boxes)
    requires Unique([node]) && Consistent([node], box)
    ensures CheckedLeaves([node], OnIn(IdSet([node]), box)) == OnLeaves([node], box)
  {
    var flags := OnIn(IdSet([node]), box);
    forall l | l in CheckedLeaves([node], flags) ensures l in OnLeaves([node], box) {
      var n :| n in Preorder([node]) && n.id in flags && l in Leaves([n]);
      PreorderLookup([node], n);
      BoxMeaning([node], box, n.id);
      LookupInside([node], n.id);
      SubtreeLeaves([node], n.id);
    }
    forall l | l in OnLeaves([node], box) ensures l in CheckedLeaves([node], flags) {
      LeafInPreorder([node], l);
      LeavesInside([node]);
    }
  }

  lemma {:induction false} LeafInPreorder(fs: seq<Node>, l: Id)
    requires l in Leaves(fs)
    ensures Node(l, []) in Preorder(fs) && l in Leaves([Node(l, [])])
  {
    var kids, rest := fs[0].children, fs[1..];
    if kids == [] && fs[0].id == l {
      assert fs[0] == Node(l, []);
    } else if kids != [] && l in Leaves(kids) {
      LeafInPreorder(kids, l);
    } else {
      LeafInPreorder(rest, l);
    }
  }

  lemma DroppedLeaves(fs: seq<Node>, box: Boxes, rest: seq<Node>, node: Node, checked: set<Id>,
                      on: set<Id>, leaves: set<Id>, bared: set<Id>)
    requires Unique(fs) && Consistent(fs, box) && Lookup(fs, node.id) == Some(node)
    requires checked == OnIn(IdSet([node]), box)
    requires Leaves([node]) <= leaves <= Leaves(rest) + Leaves([node])
    requires on == (OnLeaves(fs, box) * Leaves(rest) + bared) * leaves + CheckedLeaves([node], checked)
    ensures on == (OnLeaves(fs, box) + bared) * leaves
  {
    ConsistentLookup(fs, box, node.id);
    LookupInside(fs, node.id);
    FlagsKeepLeaves(node, box);
    SubtreeLeaves(fs, node.id);
    assert OnLeaves([node], box) == OnLeaves(fs, box) * Leaves([node]);
  }

  lemma SpliceIn<T>(front: seq<T>, x: T, mid: seq<T>, back: seq<T>)
    ensures var s := front + (mid + back);
            s[..|front|] + [x] + s[|front|..] == front + (([x] + mid) + back)
  {
  }

  lemma CutTail<T>(front: seq<T>, mid: seq<T>, back: seq<T>, n: nat)
    requires n <= |back|
    ensures var s := front + (mid + back);
            s[..|s| - n] + s[|s| - n + n..] == front + mid + back[..|back| - n]
  {
  }

  /** Moving appended children forward within their list leaves every box right. */
  lemma ShiftedBelow(fs: seq<Node>, now: seq<Node>, box: Boxes, p: Id, items: seq<Node>, k: nat)
    requires Unique(fs) && p in IdSet(fs) && p !in IdSet(items) && k <= |Children(fs, p)|
    requires now == Loaded(fs, Some(p), items, true) && Unique(now) && Consistent(now, box)
    ensures var own := Children(fs, p);
            var af := own[..k] + items + own[k..];
            var out := PutChildren(now, p, af);
            && out == PutChildren(fs, p, af)
            && Unique(out) && IdSet(out) == IdSet(now) && Leaves(out) == Leaves(now) && Consistent(out, box)
            && OnLeaves(out, box) == OnLeaves(now, box)
            && Lookup(now, p) == Some(Node(p, own + items))
  {
    hide IdSet, Unique, Leaves, Consistent, PutChildren, Lookup;
    var own := Children(fs, p);
    ChildrenInside(fs, p);
    IdSetConcat(own, items);
    PutPut(fs, p, own + items, own[..k] + items + own[k..]);
    PutLookup(fs, p, own + items);
    LookupInside(now, p);
    assert own + items == own[..k] + own[k..] + items;
    Reordered(now, box, p, own[..k], items, own[k..]);
  }

  lemma ShiftedAtTop(fs: seq<Node>, box: Boxes, items: seq<Node>, k: nat)
    requires k <= |fs|
    ensures var was, now := fs + items, fs[..k] + items + fs[k..];
            && IdSet(now) == IdSet(was) && Leaves(now) == Leaves(was)
            && (Unique(now) <==> Unique(was)) && (Consistent(now, box) <==> Consistent(was, box))
  {
    assert fs + items == fs[..k] + fs[k..] + items;
    SameSiblings(fs[..k], items, fs[k..], box);
  }

  /** The leaves of the subtrees of `ns`. */
  function LeavesOf(ns: seq<Node>): set<Id> {
    set n, l | n in ns && l in Leaves([n]) :: l
  }

  lemma LeavesOfTake(ns: seq<Node>, k: nat)
    requires k < |ns|
    ensures LeavesOf(ns[..k + 1]) == LeavesOf(ns[..k]) + Leaves([ns[k]])
    ensures ns[k] in ns
  {
    assert ns[..k + 1] == ns[..k] + [ns[k]];
    assert forall n :: n in ns[..k + 1] <==> n in ns[..k] || n == ns[k];
  }

  lemma {:induction false} RootInPreorder(fs: seq<Node>, n: Node)
    requires n in fs
    ensures n in Preorder(fs)
    ensures IdSet([n]) <= IdSet(fs)
  {
    if n != fs[0] {
      RootInPreorder(fs[1..], n);
    }
  }

  /** Unchecking a freshly rendered node takes no leaf away. */
  lemma NewLeavesOff(fs: seq<Node>, box: Boxes, n: Node, items: seq<Node>)
    requires n in items
    requires forall i :: i in IdSet(items) ==> At(box, i) == Off
    ensures OnLeaves(fs, box) - Leaves([n]) == OnLeaves(fs, box)
  {
    RootInPreorder(items, n);
    LeavesInside([n]);
  }

  /** Reloading a half-checked node with an empty list does break the invariant: nothing is checked, and the
      node, now a leaf, keeps its mixed mark. */
  lemma EmptyReloadBreaks()
    ensures var fs := [Node(0, [Node(1, []), Node(2, [])])];
            var box := map[0 := Mixed, 1 := On, 2 := Off];
            Unique(fs) && Consistent(fs, box) && !Consistent(Loaded(fs, Some(0), [], false), box)
  {
    var kids := [Node(1, []), Node(2, [])];
    var box := map[0 := Mixed, 1 := On, 2 := Off];
    assert kids[0] in kids && kids[1] in kids;
    assert Aggregate(kids, box) == Mixed;
    var two := kids[1..];
    assert two == [Node(2, [])];
    assert NodeOk(two[0], box) && Consistent(two[0].children, box) && Consistent(two[1..], box);
    assert Consistent(two, box);
    assert NodeOk(kids[0], box) && Consistent(kids[0].children, box);
    assert Consistent(kids, box);
    var fs := [Node(0, kids)];
    assert fs[1..] == [];
    assert Consistent(fs, box);
    assert Lookup(fs, 0) == Some(fs[0]);
    assert IdSet(two) == {2} && IdSet(kids) == {1, 2};
    assert Unique(two) && Unique(kids) && Unique(fs);
    var emptied := PutChildren(fs, 0, []);
    assert emptied[0] == Node(0, []) && !NodeOk(emptied[0], box);
    assert Loaded(fs, Some(0), [], false) == emptied;
  }

  lemma EmptyLoad(fs: seq<Node>, a: Boxes, b: Boxes, parent: Option<Id>, append: bool)
    requires Unique(fs) && Consistent(fs, a) && (parent.Some? ==> parent.value in IdSet(fs))
    requires SameOn(Kept(fs, parent, append), a, b)
    ensures Consistent(Loaded(fs, parent, [], append), b)
            <==> append || parent.None? || At(a, parent.value) != Mixed
  {
    match parent {
      case None =>
        assert fs + [] == fs;
        Frame(if append then fs else [], a, b, 0);
      case Some(p) =>
        LookupInside(fs, p);
        LookupId(fs, p);
        ConsistentLookup(fs, a, p);
        var own := if append then Children(fs, p) else [];
        assert own + [] == own;
        ChildrenInside(fs, p);
        Frame(own, a, b, p);
        PutOkExcept(fs, a, b, p, own);
        PutIds(fs, p, own);
        PutLookup(fs, p, own);
        ExceptMended(PutChildren(fs, p, own), b, p);
        assert NodeOk(Lookup(fs, p).value, a);
    }
  }

  predicate NoneOn(ns: seq<Node>, box: Boxes) {
    forall n :: n in ns ==> At(box, n.id) != On
  }

  lemma CensusIds(ns: seq<Node>, box: Boxes)
    ensures AllAre(ns, box, On) <==> forall i :: i in IdsOf(ns) ==> At(box, i) == On
    ensures NoneOn(ns, box) <==> forall i :: i in IdsOf(ns) ==> At(box, i) != On
  {
    assert forall n :: n in ns ==> n.id in IdsOf(ns);
  }

  function IdsOf(ns: seq<Node>): set<Id> {
    set n | n in ns :: n.id
  }

  lemma SubtreeIds(n: Node)
    ensures IdSet([n]) == {n.id} + IdsOf(Preorder(n.children)) && n.id in IdSet([n])
    ensures IdsOf(Preorder(n.children)[..0]) == {}
  {
    PreorderIds(n.children);
  }

  lemma {:induction false} PreorderIds(fs: seq<Node>)
    ensures IdsOf(Preorder(fs)) == IdSet(fs)
  {
    if fs != [] {
      var a, b := Preorder(fs[0].children), Preorder(fs[1..]);
      assert IdsOf(a) == IdSet(fs[0].children) && IdsOf(b) == IdSet(fs[1..]) by {
        PreorderIds(fs[0].children);
        PreorderIds(fs[1..]);
      }
      assert IdsOf([fs[0]] + a + b) == {fs[0].id} + IdsOf(a) + IdsOf(b) by {
        IdsOfConcat([fs[0]] + a, b);
        IdsOfConcat([fs[0]], a);
      }
    }
  }

  lemma NoIds()
    ensures IdsOf([]) == {}
  {
  }

  lemma IdsOfTake(ns: seq<Node>, k: nat)
    requires k < |ns|
    ensures IdsOf(ns[..k + 1]) == IdsOf(ns[..k]) + {ns[k].id}
    ensures ns[k].id in IdsOf(ns)
  {
    assert ns[..k + 1] == ns[..k] + [ns[k]];
    assert ns[k] in ns;
    IdsOfConcat(ns[..k], [ns[k]]);
  }

  lemma IdsOfConcat(a: seq<Node>, b: seq<Node>)
    ensures IdsOf(a + b) == IdsOf(a) + IdsOf(b)
  {
    assert forall n :: n in a + b <==> n in a || n in b;
  }

  lemma {:induction false} AncestorsAreOutside(fs: seq<Node>, id: Id)
    requires Unique(fs) && Lookup(fs, id).Some?
    ensures forall a :: a in Ancestors(fs, id) ==> a !in IdSet([Lookup(fs, id).value])
  {
    LookupInside(fs, id);
    LookupInside(fs[0].children, id);
    LookupInside(fs[1..], id);
    if fs[0].id != id {
      if id in IdSet(fs[0].children) {
        AncestorsAreOutside(fs[0].children, id);
      } else {
        AncestorsAreOutside(fs[1..], id);
      }
    }
  }
}
