/** The treegrid: rows that know their parent by id, and queries that search the whole forest by id. */
module TreeGrids {
  import opened Forest
  import Moves
  import Checks
  import opened FlatForests
  import Transfers
  import opened Wrappers

  /** A parent id that is not there: `null`, or any falsy value. */
  const NO_ID: Id := 0

  /** Every row's parent id is the id of the row that holds it, or `holder` for the roots. */
  predicate Linked(fs: seq<Node>, holder: Id, parentId: map<Id, Id>) {
    fs == [] ||
    (&& fs[0].id in parentId && parentId[fs[0].id] == holder
     && Linked(fs[0].children, fs[0].id, parentId)
     && Linked(fs[1..], holder, parentId))
  }

  // ----- what the parent ids say -----

  lemma {:induction false} LinkedAt(fs: seq<Node>, holder: Id, pid: map<Id, Id>, id: Id)
    requires Unique(fs) && Linked(fs, holder, pid) && id in IdSet(fs)
    ensures id in pid
    ensures pid[id] == match Parent(fs, id) case None => holder case Some(p) => p.id
    ensures Linked(Children(fs, id), id, pid)
  {
    var kids, rest := fs[0].children, fs[1..];
    RootsInIdSet(kids);
    ParentInside(kids, id);
    ParentInside(rest, id);
    LookupInside(kids, id);
    LookupInside(rest, id);
    if id in IdSet(kids) {
      LinkedAt(kids, fs[0].id, pid, id);
      LinkedRoots(kids, fs[0].id, pid);
    } else if id in IdSet(rest) {
      LinkedAt(rest, holder, pid, id);
    } else {
      assert id !in Roots(kids) && Parent(rest, id).None?;
    }
  }

  lemma {:induction false} LinkedRoots(fs: seq<Node>, holder: Id, pid: map<Id, Id>)
    requires Linked(fs, holder, pid)
    ensures forall i :: i in Roots(fs) ==> i in pid && pid[i] == holder
  {
    if fs != [] {
      LinkedRoots(fs[1..], holder, pid);
      assert forall i :: 0 < i < |fs| ==> fs[i].id == fs[1..][i - 1].id && fs[i].id in Roots(fs[1..]);
    }
  }

  lemma {:induction false} LinkedFrame(fs: seq<Node>, holder: Id, pid: map<Id, Id>, pid': map<Id, Id>)
    requires Linked(fs, holder, pid)
    requires forall i :: i in IdSet(fs) && i in pid ==> i in pid' && pid'[i] == pid[i]
    ensures Linked(fs, holder, pid')
  {
    if fs != [] {
      LinkedFrame(fs[0].children, fs[0].id, pid, pid');
      LinkedFrame(fs[1..], holder, pid, pid');
    }
  }

  lemma {:induction false} LinkedConcat(a: seq<Node>, b: seq<Node>, holder: Id, pid: map<Id, Id>)
    ensures Linked(a + b, holder, pid) <==> Linked(a, holder, pid) && Linked(b, holder, pid)
  {
    if a == [] {
      assert a + b == b;
    } else {
      assert (a + b)[1..] == a[1..] + b;
      LinkedConcat(a[1..], b, holder, pid);
    }
  }

  /** Giving row `p` new children whose parent ids say so keeps the parent ids right. */
  lemma {:induction false} LinkedPut(fs: seq<Node>, holder: Id, pid: map<Id, Id>, pid': map<Id, Id>, p: Id,
                                     kids: seq<Node>)
    requires Unique(fs) && p in IdSet(fs) && Linked(fs, holder, pid) && Linked(kids, p, pid')
    requires forall i :: i in IdSet(fs) - IdSet(Children(fs, p)) && i in pid ==> i in pid' && pid'[i] == pid[i]
    ensures Linked(PutChildren(fs, p, kids), holder, pid')
  {
    var own, rest := fs[0].children, fs[1..];
    LookupInside(own, p);
    LookupInside(rest, p);
    var out := PutChildren(fs, p, kids);
    assert out[1..] == PutChildren(rest, p, kids);
    if fs[0].id == p {
      PutAbsent(rest, p, kids);
      LinkedFrame(rest, holder, pid, pid');
    } else if p in IdSet(own) {
      PutAbsent(rest, p, kids);
      LinkedFrame(rest, holder, pid, pid');
      LinkedPut(own, fs[0].id, pid, pid', p, kids);
    } else {
      PutAbsent(own, p, kids);
      LinkedFrame(own, fs[0].id, pid, pid');
      LinkedPut(rest, holder, pid, pid', p, kids);
    }
  }

  lemma {:induction false} LinkedBeside(cc: seq<Node>, ref: Id, before: bool, items: seq<Node>, holder: Id,
                                        pid: map<Id, Id>)
    requires Linked(cc, holder, pid) && Linked(items, holder, pid)
    ensures Linked(Moves.Beside(cc, ref, before, items), holder, pid)
  {
    if cc != [] {
      var tail := Moves.Beside(cc[1..], ref, before, items);
      if cc[0].id != ref {
        LinkedBeside(cc[1..], ref, before, items, holder, pid);
        assert ([cc[0]] + tail)[1..] == tail;
      } else if before {
        LinkedConcat(items, cc, holder, pid);
      } else {
        LinkedConcat(items, cc[1..], holder, pid);
        assert ([cc[0]] + items + cc[1..])[1..] == items + cc[1..];
      }
    }
  }

  lemma {:induction false} LinkedWithout(cc: seq<Node>, id: Id, holder: Id, pid: map<Id, Id>)
    requires Linked(cc, holder, pid)
    ensures Linked(Moves.Without(cc, id), holder, pid)
  {
    if cc != [] && cc[0].id != id {
      LinkedWithout(cc[1..], id, holder, pid);
      assert ([cc[0]] + Moves.Without(cc[1..], id))[1..] == Moves.Without(cc[1..], id);
    }
  }

  // ----- the breadth-first search -----

  function Concat(cc: seq<seq<Node>>): seq<Node> {
    if cc == [] then [] else cc[0] + Concat(cc[1..])
  }

  lemma {:induction false} ConcatLast(cc: seq<seq<Node>>, c: seq<Node>)
    ensures Concat(cc + [c]) == Concat(cc) + c
  {
    if cc == [] {
      assert cc + [c] == [c] && [c][1..] == [];
    } else {
      assert (cc + [c])[1..] == cc[1..] + [c];
      ConcatLast(cc[1..], c);
    }
  }

  lemma {:induction false} LookupConcat(a: seq<Node>, b: seq<Node>, id: Id)
    ensures Lookup(a + b, id) == if Lookup(a, id).Some? then Lookup(a, id) else Lookup(b, id)
  {
    if a == [] {
      assert a + b == b;
    } else {
      assert (a + b)[1..] == a[1..] + b;
      LookupConcat(a[1..], b, id);
    }
  }

  /** Searching the children later instead of at once finds the same row, since ids are unique. */
  lemma Postponed(n: Node, rest: seq<Node>, id: Id)
    requires Unique([n] + rest) && n.id != id
    ensures Unique(rest + n.children) && Lookup(rest + n.children, id) == Lookup([n] + rest, id)
    ensures Size(rest + n.children) < Size([n] + rest)
  {
    assert ([n] + rest)[1..] == rest;
    IdSetCons(n, rest);
    UniqueConcat(rest, n.children);
    LookupConcat(rest, n.children, id);
    LookupInside(rest, id);
    LookupInside(n.children, id);
    SizeConcat(rest, n.children);
  }

  /** The function `_37`: the search by id over a queue of row lists. */
  method Find(data: seq<Node>, id: Id) returns (r: Option<Node>)
    requires Unique(data)
    ensures r == Lookup(data, id)
  {
    hide Unique, Lookup, Size;
    var cc := [data];
    assert cc[1..] == [] && data + [] == data;
    while |cc| > 0
      invariant Unique(Concat(cc)) && Lookup(Concat(cc), id) == Lookup(data, id)
      decreases Size(Concat(cc)), |cc|
    {
      ghost var size, length := Size(Concat(cc)), |cc|;
      var c := cc[0];
      cc := cc[1..];
      assert c[0..] == c;
      for i := 0 to |c|
        invariant Unique(c[i..] + Concat(cc)) && Lookup(c[i..] + Concat(cc), id) == Lookup(data, id)
        invariant Size(c[i..] + Concat(cc)) + (if i > 0 then 1 else 0) <= size
        invariant i == 0 ==> |cc| == length - 1
      {
        var n, rest := c[i], c[i + 1..] + Concat(cc);
        assert c[i..] + Concat(cc) == [n] + rest;
        if n.id == id {
          FoundFirst(n, rest);
          return Some(n);
        }
        Postponed(n, rest, id);
        ConcatLast(cc, n.children);
        assert rest + n.children == c[i + 1..] + Concat(cc + [n.children]);
        cc := cc + [n.children];
      }
      assert c[|c|..] + Concat(cc) == Concat(cc);
    }
    NothingThere(id);
    return None;
  }

  lemma FoundFirst(n: Node, rest: seq<Node>)
    ensures Lookup([n] + rest, n.id) == Some(n)
  {
  }

  lemma NothingThere(id: Id)
    ensures Lookup([], id) == None
  {
  }

  // ----- the grid -----

  /** Sets the parent ids of a list of rows and of everything below. */
  function Marked(pid: map<Id, Id>, items: seq<Node>, holder: Id): map<Id, Id>
    decreases items
  {
    if items == [] then pid
    else Marked(Marked(pid[items[0].id := holder], items[0].children, items[0].id), items[1..], holder)
  }

  lemma {:induction false} MarkedLinks(pid: map<Id, Id>, items: seq<Node>, holder: Id)
    requires Unique(items)
    ensures Linked(items, holder, Marked(pid, items, holder))
    ensures forall i :: i !in IdSet(items) ==>
              (i in Marked(pid, items, holder) <==> i in pid) &&
              (i in pid ==> Marked(pid, items, holder)[i] == pid[i])
    decreases items
  {
    if items != [] {
      var n, rest := items[0], items[1..];
      var one := pid[n.id := holder];
      var two := Marked(one, n.children, n.id);
      var all := Marked(two, rest, holder);
      MarkedLinks(one, n.children, n.id);
      MarkedLinks(two, rest, holder);
      LinkedFrame(n.children, n.id, two, all);
    }
  }

  lemma TakePreorder(fs: seq<Node>, i: nat)
    requires i < |fs|
    ensures Preorder(fs[..i + 1]) == Preorder(fs[..i]) + [fs[i]] + Preorder(fs[i].children)
  {
    assert fs[..i + 1] == fs[..i] + [fs[i]];
    PreorderConcat(fs[..i], [fs[i]]);
    assert Preorder([fs[i]]) == [fs[i]] + Preorder(fs[i].children);
  }

  /** A child, searched for in the whole forest, is the child itself. */
  lemma ChildLookup(fs: seq<Node>, p: Id, i: nat)
    requires Unique(fs) && p in IdSet(fs) && i < |Children(fs, p)|
    ensures var c := Children(fs, p)[i]; Lookup(fs, c.id) == Some(c) && Size(c.children) < Size(Children(fs, p))
  {
    var kids := Children(fs, p);
    LookupInside(fs, p);
    Checks.ChildrenInside(fs, p);
    AroundRoot(kids, i, 0);
    Moves.LookupInChildren(fs, p, kids[i].id);
    SizeAt(kids, i);
  }

  lemma {:induction false} SizeAt(fs: seq<Node>, i: nat)
    requires i < |fs|
    ensures Size(fs[i].children) < Size(fs)
  {
    if i > 0 {
      SizeAt(fs[1..], i - 1);
    }
  }

  // ----- loading -----

  /** The rows that a load leaves in place. */
  function Staying(fs: seq<Node>, parent: Id, append: bool): set<Id> {
    if append then IdSet(fs) else if parent in IdSet(fs) then IdSet(fs) - IdSet(Children(fs, parent)) else {}
  }

  /** The forest before the new rows come in. */
  function Cleared(fs: seq<Node>, parent: Id, append: bool): seq<Node> {
    if append then fs else if parent in IdSet(fs) then PutChildren(fs, parent, []) else []
  }

  lemma ClearedFacts(fs: seq<Node>, parent: Id, append: bool)
    requires Unique(fs)
    ensures var base := Cleared(fs, parent, append);
            && Unique(base) && IdSet(base) == Staying(fs, parent, append)
            && (parent in IdSet(base) <==> parent in IdSet(fs) && (append || parent in IdSet(base)))
            && (parent in IdSet(fs) ==>
                  parent in IdSet(base) && Children(base, parent) == if append then Children(fs, parent) else [])
  {
    if !append && parent in IdSet(fs) {
      Checks.ChildrenInside(fs, parent);
      PutIds(fs, parent, []);
      Checks.PutLookup(fs, parent, []);
    }
  }

  /** The forest with the new rows. */
  function Extended(base: seq<Node>, parent: Id, items: seq<Node>): seq<Node> {
    if parent in IdSet(base) then PutChildren(base, parent, Children(base, parent) + items) else base + items
  }

  /** The new rows go behind the children that stay. */
  lemma ExtendedCleared(fs: seq<Node>, parent: Id, items: seq<Node>, append: bool)
    requires Unique(fs)
    ensures Extended(Cleared(fs, parent, append), parent, items)
            == if parent in IdSet(fs) then
                 PutChildren(fs, parent, (if append then Children(fs, parent) else []) + items)
               else (if append then fs else []) + items
  {
    ClearedFacts(fs, parent, append);
    if !append && parent in IdSet(fs) {
      Checks.PutPut(fs, parent, [], [] + items);
    }
  }

  /** What stays is still linked, and what comes in fits iff its parent is there, or none was meant. */
  lemma ExtendedLinked(fs: seq<Node>, pid: map<Id, Id>, pid': map<Id, Id>, parent: Id, items: seq<Node>, append: bool)
    requires Unique(fs) && NO_ID !in IdSet(fs) && Linked(fs, NO_ID, pid)
    requires Unique(items) && NO_ID !in IdSet(items) && IdSet(items) !! Staying(fs, parent, append)
    requires Linked(items, parent, pid')
    requires forall i :: i in Staying(fs, parent, append) && i in pid ==> i in pid' && pid'[i] == pid[i]
    ensures var out := Extended(Cleared(fs, parent, append), parent, items);
            && Unique(out) && NO_ID !in IdSet(out)
            && (Linked(out, NO_ID, pid') <==> parent == NO_ID || parent in IdSet(fs) || items == [])
  {
    hide IdSet, Unique, Linked, PutChildren, Lookup, Children;
    var base := Cleared(fs, parent, append);
    ClearedFacts(fs, parent, append);
    ClearedLinked(fs, pid, pid', parent, append);
    if parent in IdSet(fs) {
      var kids := Children(base, parent);
      Checks.ChildrenInside(base, parent);
      LinkedAt(base, NO_ID, pid', parent);
      LinkedConcat(kids, items, parent, pid');
      LinkedPut(base, NO_ID, pid', pid', parent, kids + items);
      IdSetConcat(kids, items);
      UniqueConcat(kids, items);
      PutIds(base, parent, kids + items);
    } else {
      IdSetConcat(base, items);
      UniqueConcat(base, items);
      LinkedConcat(base, items, NO_ID, pid');
      LinkedOnce(items, parent, pid');
    }
  }

  /** Rows are linked to one holder only. */
  lemma LinkedOnce(items: seq<Node>, holder: Id, pid: map<Id, Id>)
    requires Linked(items, holder, pid)
    ensures Linked(items, NO_ID, pid) <==> holder == NO_ID || items == []
  {
  }

  lemma ClearedLinked(fs: seq<Node>, pid: map<Id, Id>, pid': map<Id, Id>, parent: Id, append: bool)
    requires Unique(fs) && Linked(fs, NO_ID, pid)
    requires forall i :: i in Staying(fs, parent, append) && i in pid ==> i in pid' && pid'[i] == pid[i]
    ensures Linked(Cleared(fs, parent, append), NO_ID, pid')
  {
    if append {
      LinkedFrame(fs, NO_ID, pid, pid');
    } else if parent in IdSet(fs) {
      LinkedPut(fs, NO_ID, pid, pid', parent, []);
    }
  }

  // ----- flat rows -----

  /** The parent ids with those that flat rows bring along. */
  function Told(pid: map<Id, Id>, rows: seq<Transfers.Row>): map<Id, Id> {
    if rows == [] then pid else Told(pid, rows[1..])[rows[0].id := rows[0].parentId]
  }

  lemma {:induction false} ToldFacts(pid: map<Id, Id>, rows: seq<Transfers.Row>)
    requires Transfers.DistinctIds(rows)
    ensures forall r :: r in rows ==> r.id in Told(pid, rows) && Told(pid, rows)[r.id] == r.parentId
    ensures forall i :: NotAnId(rows, i) && i in pid ==> i in Told(pid, rows) && Told(pid, rows)[i] == pid[i]
  {
    if rows != [] {
      Transfers.Tail(rows);
      ToldFacts(pid, rows[1..]);
      forall i | NotAnId(rows, i) ensures NotAnId(rows[1..], i) && i != rows[0].id {
      }
    }
  }

  lemma {:induction false} BuiltLinked(rows: seq<Transfers.Row>, k: Id, pid: map<Id, Id>)
    requires forall r :: r in rows ==> r.id in pid && pid[r.id] == r.parentId
    ensures Linked(Built(rows, k), k, pid)
    decreases |rows|, 0
  {
    Transfers.FilterMembers(rows, k, {k});
    Transfers.FilterSplit(rows, k);
    if Transfers.KidsOf(rows, k) != [] {
      BuiltListLinked(Transfers.RestOf(rows, {k}), Transfers.KidsOf(rows, k), k, pid);
    }
  }

  lemma {:induction false} BuiltListLinked(rest: seq<Transfers.Row>, rows: seq<Transfers.Row>, k: Id, pid: map<Id, Id>)
    requires forall r :: r in rest || r in rows ==> r.id in pid && pid[r.id] == r.parentId
    requires forall r :: r in rows ==> r.parentId == k
    ensures Linked(BuiltList(rest, rows), k, pid)
    decreases |rest|, 1 + |rows|
  {
    if rows != [] {
      BuiltLinked(rest, rows[0].id, pid);
      BuiltListLinked(rest, rows[1..], k, pid);
      var tail := BuiltList(rest, rows[1..]);
      assert ([Node(rows[0].id, Built(rest, rows[0].id))] + tail)[1..] == tail;
    }
  }

  lemma PlacedAreRows(rows: seq<Transfers.Row>, k: Id)
    ensures forall x :: Transfers.PlacedId(rows, k, x) ==> !NotAnId(rows, x)
  {
  }

  lemma StayingAreOld(fs: seq<Node>, parent: Id, append: bool, rows: seq<Transfers.Row>)
    requires forall r :: r in rows ==> r.id !in Staying(fs, parent, append)
    ensures forall i :: i in Staying(fs, parent, append) ==> NotAnId(rows, i)
  {
  }

  lemma NothingBuilt(rows: seq<Transfers.Row>, k: Id)
    ensures Built(rows, k) == [] <==> Transfers.KidsOf(rows, k) == []
  {
    BuiltHeads(rows, k);
    assert |Heads(Built(rows, k))| == |RowIds(Transfers.KidsOf(rows, k))|;
  }

  class TreeGrid {
    var data: seq<Node>
    var parentId: map<Id, Id>
    /** The rows that are expanded. */
    var open: set<Id>

    /** Ids are unique and none is falsy, and the parent ids are right. */
    ghost predicate Valid()
      reads this
    {
      Unique(data) && NO_ID !in IdSet(data) && Linked(data, NO_ID, parentId)
    }

    constructor ()
      ensures Valid() && data == []
    {
      data, parentId, open := [], map[], {};
    }

    /** getParent, `_4c`: two searches by id. */
    method GetParent(id: Id) returns (p: Option<Node>)
      requires Valid() && id in IdSet(data)
      ensures p == Parent(data, id)
    {
      LinkedAt(data, NO_ID, parentId, id);
      ParentInside(data, id);
      LookupInside(data, id);
      var row := Find(data, id);
      if parentId[row.value.id] != NO_ID {
        p := Find(data, parentId[row.value.id]);
      } else {
        p := None;
      }
    }

    /** getChildren, `_1b`: the rows below `id`, or all rows, found by searching for each row anew. */
    method GetChildren(id: Id) returns (rows: seq<Node>)
      requires Valid()
      ensures rows == Preorder(if id != NO_ID then Children(data, id) else data)
    {
      if id != NO_ID {
        rows := Below(id);
      } else {
        rows := [];
        for i := 0 to |data|
          invariant rows == Preorder(data[..i])
        {
          TakePreorder(data, i);
          AroundRoot(data, i, 0);
          var more := Below(data[i].id);
          rows := rows + [data[i]] + more;
        }
        assert data[..|data|] == data;
      }
    }

    /** The helper `_54`. */
    method Below(id: Id) returns (rows: seq<Node>)
      requires Valid()
      ensures rows == Preorder(Children(data, id))
      decreases Size(Children(data, id))
    {
      rows := [];
      LookupInside(data, id);
      var r := Find(data, id);
      if r.Some? {
        var kids := r.value.children;
        for i := 0 to |kids|
          invariant rows == Preorder(kids[..i])
        {
          TakePreorder(kids, i);
          ChildLookup(data, id, i);
          var more := Below(kids[i].id);
          rows := rows + [kids[i]] + more;
        }
        assert kids[..|kids|] == kids;
      }
    }

    /** expandTo, `_7c`: climbs from parent to parent and expands from the root down. */
    method ExpandTo(id: Id) returns (ids: seq<Id>)
      requires Valid() && id in IdSet(data)
      modifies `open
      ensures ids == Ancestors(data, id)
      ensures open == old(open) + (set a | a in Ancestors(data, id))
    {
      ids := Climb(id);
      for i := 0 to |ids|
        invariant open == old(open) + (set a | a in ids[..i])
      {
        assert ids[..i + 1] == ids[..i] + [ids[i]];
        open := open + {ids[i]};
      }
      assert ids[..|ids|] == ids;
    }

    /** The loop of expandTo: it ends, with the ids of exactly the ancestors, the root's first. */
    method Climb(id: Id) returns (ids: seq<Id>)
      requires Valid() && id in IdSet(data)
      ensures ids == Ancestors(data, id)
    {
      hide Unique, IdSet, Ancestors, Parent, Linked;
      ids := [];
      AncestorsOfParent(data, id);
      ParentInside(data, id);
      var p := GetParent(id);
      while p.Some?
        invariant p.Some? ==> p.value.id in IdSet(data)
        invariant Ancestors(data, id) == (if p.Some? then Ancestors(data, p.value.id) + [p.value.id] else []) + ids
        decreases if p.Some? then |Ancestors(data, p.value.id)| + 1 else 0
      {
        var above := p.value.id;
        AncestorsOfParent(data, above);
        ParentInside(data, above);
        ids := [above] + ids;
        p := GetParent(above);
      }
    }

    /** The part of onBeforeRender that sets the parent ids of nested rows. */
    method Mark(items: seq<Node>, holder: Id)
      modifies `parentId
      ensures parentId == Marked(old(parentId), items, holder)
      decreases items
    {
      ghost var was := parentId;
      for i := 0 to |items|
        invariant Marked(was, items, holder) == Marked(parentId, items[i..], holder)
      {
        assert items[i..][1..] == items[i + 1..];
        parentId := parentId[items[i].id := holder];
        Mark(items[i].children, items[i].id);
      }
    }

    /** A load of nested rows under a parent, or at the top, replacing what is there or appending to it. */
    method Load(parent: Id, items: seq<Node>, append: bool)
      requires Valid() && Unique(items) && NO_ID !in IdSet(items)
      requires IdSet(items) !! Staying(data, parent, append)
      modifies this
      ensures data == if parent in IdSet(old(data)) then
                        PutChildren(old(data), parent, (if append then Children(old(data), parent) else []) + items)
                      else (if append then old(data) else []) + items
      ensures parentId == Marked(old(parentId), items, parent) && open == old(open)
      ensures Valid() <==> parent == NO_ID || parent in IdSet(old(data)) || items == []
    {
      hide IdSet, Unique, Linked, PutChildren, Lookup, Children, Staying, Cleared, Extended, Marked;
      ghost var was, pid := data, parentId;
      ClearedFacts(was, parent, append);
      ExtendedCleared(was, parent, items, append);
      MarkedLinks(pid, items, parent);
      ExtendedLinked(was, pid, Marked(pid, items, parent), parent, items, append);
      Clear(parent, append);
      Mark(items, parent);
      PutIn(parent, items);
    }

    /** Empties what a load is to replace. */
    method Clear(parent: Id, append: bool)
      requires Unique(data)
      modifies `data
      ensures data == Cleared(old(data), parent, append)
    {
      LookupInside(data, parent);
      var row := Find(data, parent);
      if !append {
        if row.Some? {
          data := PutChildren(data, parent, []);
        } else {
          data := [];
        }
      }
    }

    /** Puts new rows below a parent, or at the top when it is not there. */
    method PutIn(parent: Id, items: seq<Node>)
      requires Unique(data)
      modifies `data
      ensures data == Extended(old(data), parent, items)
    {
      LookupInside(data, parent);
      var row := Find(data, parent);
      if row.Some? {
        ChildrenOf(data, parent);
        data := PutChildren(data, parent, row.value.children + items);
      } else {
        data := data + items;
      }
    }

    /** A load of flat rows, which bring their parent ids along: transfer makes child arrays of them, and
        the roots go below the parent. Every new row then holds just the rows that name it. As with nested
        rows the invariant is kept iff the parent is absent on purpose, is there, or nothing is loaded. */
    method LoadFlat(parent: Id, rows: seq<Transfers.Row>, append: bool)
      requires Valid()
      requires Transfers.DistinctIds(rows) && NotAnId(rows, NO_ID)
      requires forall r :: r in rows ==> r.id !in Staying(data, parent, append)
      modifies this
      ensures open == old(open)
      ensures data == Extended(Cleared(old(data), parent, append), parent, Built(rows, parent))
      ensures Valid() <==> parent == NO_ID || parent in IdSet(old(data)) || Transfers.KidsOf(rows, parent) == []
      ensures forall k: Id :: k in IdSet(Built(rows, parent)) <==> Transfers.PlacedId(rows, parent, k)
      ensures forall n :: n in Preorder(Built(rows, parent)) ==>
                Heads(n.children) == RowIds(if n.id == parent then [] else Transfers.KidsOf(rows, n.id))
    {
      hide IdSet, Unique, Linked, PutChildren, Lookup, Children, Cleared, Extended, Told, Preorder, Built, Heads, RowIds;
      hide Transfers.PlacedId, Transfers.DistinctIds, Transfers.KidsOf;
      ghost var was, pid := data, parentId;
      ClearedFacts(was, parent, append);
      StayingAreOld(was, parent, append, rows);
      BuiltIds(rows, parent);
      ToldFacts(pid, rows);
      BuiltLinked(rows, parent, Told(pid, rows));
      PlacedAreRows(rows, parent);
      NothingBuilt(rows, parent);
      ExtendedLinked(was, pid, Told(pid, rows), parent, Built(rows, parent), append);
      Clear(parent, append);
      parentId := Told(parentId, rows);
      var items, roots, arrays := Assemble(rows, parent);
      PutIn(parent, items);
      forall n | n in Preorder(items)
        ensures Heads(n.children) == RowIds(if n.id == parent then [] else Transfers.KidsOf(rows, n.id))
      {
        BuiltHolds(rows, parent, n);
      }
    }

    /** The nodes that transfer's result amounts to: its roots, and below each node its child array. */
    method Assemble(rows: seq<Transfers.Row>, parent: Id)
      returns (items: seq<Node>, roots: seq<Transfers.Row>, arrays: Transfers.Arrays)
      requires Transfers.DistinctIds(rows)
      ensures items == Built(rows, parent)
      ensures roots == Transfers.KidsOf(rows, parent)
      ensures forall k :: Transfers.ChildrenIn(arrays, k)
                          == if Transfers.PlacedId(rows, parent, k) && k != parent then Transfers.KidsOf(rows, k) else []
      ensures Heads(items) == RowIds(roots)
      ensures forall n :: n in Preorder(items) ==> Heads(n.children) == RowIds(Transfers.ChildrenIn(arrays, n.id))
    {
      hide Built, Heads, RowIds, Preorder, Transfers.PlacedId, Transfers.KidsOf, IdSet, Transfers.DistinctIds;
      var left;
      ghost var taken;
      roots, arrays, left, taken := Transfers.Transfer(rows, parent, map[]);
      items := Built(rows, parent);
      BuiltHeads(rows, parent);
      BuiltIds(rows, parent);
      forall k ensures Transfers.ChildrenIn(arrays, k)
                       == if Transfers.PlacedId(rows, parent, k) && k != parent then Transfers.KidsOf(rows, k) else []
      {
        assert Transfers.ChildrenIn(map[], k) == [] && [] + Transfers.KidsOf(rows, k) == Transfers.KidsOf(rows, k);
      }
      forall n | n in Preorder(items) ensures Heads(n.children) == RowIds(Transfers.ChildrenIn(arrays, n.id)) {
        BuiltHolds(rows, parent, n);
        NodeInIdSet(items, n);
      }
    }

    /** append: a load that keeps what is there. */
    method Append(parent: Id, items: seq<Node>)
      requires Valid() && (parent == NO_ID || parent in IdSet(data))
      requires Unique(items) && NO_ID !in IdSet(items) && IdSet(items) !! IdSet(data)
      modifies this
      ensures Valid() && open == old(open)
      ensures data == if parent == NO_ID then old(data) + items
                      else PutChildren(old(data), parent, Children(old(data), parent) + items)
      ensures parentId == Marked(old(parentId), items, parent)
    {
      Load(parent, items, true);
    }

    /** insert: appends the row to the siblings of `ref` and moves it from the end to its place. */
    method Insert(ref: Id, before: bool, item: Node)
      requires Valid() && ref in IdSet(data)
      requires Unique([item]) && NO_ID !in IdSet([item]) && IdSet([item]) !! IdSet(data)
      modifies this
      ensures Valid() && open == old(open)
      ensures data == Moves.Inserted(old(data), ref, before, [item])
    {
      hide IdSet, Unique, Linked, PutChildren, Lookup, Children, Marked, Moves.Inserted, Moves.Beside;
      ghost var was, pid := data, parentId;
      InsertedLinked(data, pid, ref, before, item);
      ParentInside(data, ref);
      var p := GetParent(ref);
      if p.Some? {
        Append(p.value.id, [item]);
        Rearranged(was, ref, before, item);
        var row := Find(data, p.value.id);
        var list := MoveLast(row.value.children, ref, before);
        data := PutChildren(data, p.value.id, list);
      } else {
        Append(NO_ID, [item]);
        assert data == was + [item];
        Ends(was, [item]);
        InsertedAtTop(was, ref, before, item);
        data := MoveLast(data, ref, before);
      }
    }

    /** The splices of insert: the last row of the list goes next to the first one with id `ref`. */
    static method MoveLast(list: seq<Node>, ref: Id, before: bool) returns (out: seq<Node>)
      requires |list| > 0 && ref in Roots(list[..|list| - 1])
      ensures out == Moves.Beside(list[..|list| - 1], ref, before, list[|list| - 1..])
    {
      var n := |list| - 1;
      var i := 0;
      while list[i].id != ref
        invariant i < n
        invariant forall j :: 0 <= j < i ==> list[j].id != ref
        decreases n - i
      {
        i := i + 1;
      }
      var k := if before then i else i + 1;
      out := list[..k] + [list[n]] + list[k..];
      LastSpliced(list, k);
      Moves.BesideAt(list[..n], ref, i, before, list[n..]);
      out := out[..n + 1];
    }

    /** The splice of deleteRow. */
    static method SpliceOut(list: seq<Node>, id: Id) returns (out: seq<Node>)
      ensures out == Moves.Without(list, id)
    {
      for i := 0 to |list|
        invariant Moves.Without(list, id) == list[..i] + Moves.Without(list[i..], id)
      {
        assert list[i..] == [list[i]] + list[i + 1..];
        if list[i].id == id {
          return list[..i] + list[i + 1..];
        }
      }
      out := list;
    }

    /** deleteRow. */
    method Remove(id: Id)
      requires Valid() && id in IdSet(data)
      modifies `data
      ensures Valid() && data == Moves.Removed(old(data), id)
    {
      hide IdSet, Unique, Linked, PutChildren, Lookup, Children, Moves.Removed, Moves.Without;
      RemovedLinked(data, id, parentId);
      RemovedIs(data, id);
      var p := GetParent(id);
      var list := if p.Some? then p.value.children else data;
      list := SpliceOut(list, id);
      data := if p.Some? then PutChildren(data, p.value.id, list) else list;
    }
  }

  lemma ChildrenOf(fs: seq<Node>, p: Id)
    ensures Lookup(fs, p).Some? ==> Children(fs, p) == Lookup(fs, p).value.children
  {
  }

  /** Putting a copy of the last entry at `k` and dropping the end moves that entry. */
  lemma LastSpliced(list: seq<Node>, k: nat)
    requires k < |list|
    ensures var n := |list| - 1;
            (list[..k] + [list[n]] + list[k..])[..n + 1] == list[..n][..k] + list[n..] + list[..n][k..]
  {
    var n := |list| - 1;
    var a, b := (list[..k] + [list[n]] + list[k..])[..n + 1], list[..n][..k] + list[n..] + list[..n][k..];
    assert list[n..] == [list[n]];
    forall i | 0 <= i <= n ensures a[i] == b[i] {
      if i > k {
        assert a[i] == list[k..][i - k - 1];
      }
    }
  }

  lemma Ends(a: seq<Node>, b: seq<Node>)
    ensures (a + b)[..|a|] == a && (a + b)[|a|..] == b
  {
  }

  lemma InsertedAtTop(fs: seq<Node>, ref: Id, before: bool, item: Node)
    requires Unique(fs) && ref in IdSet(fs) && Parent(fs, ref).None?
    ensures Moves.Inserted(fs, ref, before, [item]) == Moves.Beside(fs, ref, before, [item]) && ref in Roots(fs)
  {
    ParentInside(fs, ref);
  }

  lemma BesideIds(cc: seq<Node>, ref: Id, before: bool, items: seq<Node>)
    requires Unique(cc) && ref in Roots(cc) && Unique(items) && IdSet(items) !! IdSet(cc)
    ensures var out := Moves.Beside(cc, ref, before, items);
            Unique(out) && IdSet(out) == IdSet(cc) + IdSet(items)
  {
    hide IdSet, Unique, Moves.Beside;
    var i := Moves.RootIndex(cc, ref);
    var k := if before then i else i + 1;
    Moves.BesideAt(cc, ref, i, before, items);
    assert cc == cc[..k] + cc[k..];
    IdSetConcat(cc[..k], cc[k..]);
    UniqueConcat(cc[..k], cc[k..]);
    IdSetConcat(cc[..k], items);
    UniqueConcat(cc[..k], items);
    IdSetConcat(cc[..k] + items, cc[k..]);
    UniqueConcat(cc[..k] + items, cc[k..]);
  }

  /** Where insert finds the siblings of `ref`, and what its splices make of the forest. */
  lemma Rearranged(fs: seq<Node>, ref: Id, before: bool, item: Node)
    requires Unique(fs) && ref in IdSet(fs) && Parent(fs, ref).Some?
    requires Unique([item]) && IdSet([item]) !! IdSet(fs)
    ensures var p := Parent(fs, ref).value;
            var now := PutChildren(fs, p.id, Children(fs, p.id) + [item]);
            && Unique(now) && p.id in IdSet(fs) && ref in Roots(p.children)
            && Lookup(now, p.id) == Some(Node(p.id, p.children + [item]))
            && (p.children + [item])[..|p.children|] == p.children
            && PutChildren(now, p.id, Moves.Beside(p.children, ref, before, [item]))
               == Moves.Inserted(fs, ref, before, [item])
  {
    hide IdSet, Unique, Moves.Beside;
    ParentInside(fs, ref);
    var p := Parent(fs, ref).value;
    Checks.ChildrenInside(fs, p.id);
    IdSetConcat(p.children, [item]);
    UniqueConcat(p.children, [item]);
    PutIds(fs, p.id, p.children + [item]);
    Checks.PutLookup(fs, p.id, p.children + [item]);
    Checks.PutPut(fs, p.id, p.children + [item], Moves.Beside(p.children, ref, before, [item]));
  }

  lemma InsertedLinked(fs: seq<Node>, pid: map<Id, Id>, ref: Id, before: bool, item: Node)
    requires Unique(fs) && NO_ID !in IdSet(fs) && Linked(fs, NO_ID, pid) && ref in IdSet(fs)
    requires Unique([item]) && NO_ID !in IdSet([item]) && IdSet([item]) !! IdSet(fs)
    ensures var out := Moves.Inserted(fs, ref, before, [item]);
            var holder := match Parent(fs, ref) case None => NO_ID case Some(p) => p.id;
            Unique(out) && NO_ID !in IdSet(out) && Linked(out, NO_ID, Marked(pid, [item], holder))
  {
    hide IdSet, Unique, Linked, Marked, Moves.Beside, PutChildren;
    ParentInside(fs, ref);
    var holder := match Parent(fs, ref) case None => NO_ID case Some(p) => p.id;
    var pid' := Marked(pid, [item], holder);
    MarkedLinks(pid, [item], holder);
    LinkedFrame(fs, NO_ID, pid, pid');
    match Parent(fs, ref) {
      case None =>
        BesideIds(fs, ref, before, [item]);
        LinkedBeside(fs, ref, before, [item], NO_ID, pid');
      case Some(p) =>
        var kids := Moves.Beside(p.children, ref, before, [item]);
        Checks.ChildrenInside(fs, p.id);
        BesideIds(p.children, ref, before, [item]);
        LinkedAt(fs, NO_ID, pid', p.id);
        LinkedBeside(p.children, ref, before, [item], p.id, pid');
        LinkedPut(fs, NO_ID, pid', pid', p.id, kids);
        PutIds(fs, p.id, kids);
    }
  }

  lemma RemovedLinked(fs: seq<Node>, id: Id, pid: map<Id, Id>)
    requires Unique(fs) && Linked(fs, NO_ID, pid) && id in IdSet(fs)
    ensures var out := Moves.Removed(fs, id); Unique(out) && IdSet(out) <= IdSet(fs) && Linked(out, NO_ID, pid)
  {
    hide IdSet, Unique, Linked, Moves.Without, PutChildren;
    Moves.RemovedRest(fs, id);
    ParentInside(fs, id);
    match Parent(fs, id) {
      case None =>
        LinkedWithout(fs, id, NO_ID, pid);
      case Some(p) =>
        LinkedAt(fs, NO_ID, pid, p.id);
        LinkedWithout(p.children, id, p.id, pid);
        LinkedPut(fs, NO_ID, pid, pid, p.id, Moves.Without(p.children, id));
    }
  }

  lemma RemovedIs(fs: seq<Node>, id: Id)
    ensures Moves.Removed(fs, id) == match Parent(fs, id)
                                     case None => Moves.Without(fs, id)
                                     case Some(p) => PutChildren(fs, p.id, Moves.Without(p.children, id))
  {
  }

  /** A load below a row that is not there: the new row becomes a root and still names the missing parent. */
  method LoadBelowMissingBreaks() returns (g: TreeGrid)
    ensures fresh(g) && !g.Valid()
  {
    g := new TreeGrid();
    var item := Node(1, []);
    assert [item][1..] == [] && IdSet([item]) == {1};
    g.Load(7, [item], true);
  }

  /** The same with flat rows. */
  method LoadFlatBelowMissingBreaks() returns (g: TreeGrid)
    ensures fresh(g) && !g.Valid()
  {
    g := new TreeGrid();
    var rows := [Transfers.Row(1, 7)];
    assert rows[0] in Transfers.KidsOf(rows, 7);
    g.LoadFlat(7, rows, true);
  }
}
