/** The module loader: concurrent load requests over one shared status map. */
module EasyLoaders {

  type Name = string

  /** The module table: the dependencies of every known module. */
  type Table = map<Name, seq<Name>>

  /** The dependency graph has no cycle: `rank` drops along every edge between known modules. */
  ghost predicate Acyclic(table: Table, rank: map<Name, nat>) {
    && rank.Keys == table.Keys
    && forall m, d :: m in table && d in table[m] && d in table ==> rank[d] < rank[m]
  }

  /** What `add` pushes for one name: nothing if it is unknown, else its dependencies, then itself. */
  ghost function Order(table: Table, rank: map<Name, nat>, m: Name): seq<Name>
    requires Acyclic(table, rank)
    decreases if m in table then rank[m] + 1 else 0, 0
  {
    if m !in table then [] else OrderDeps(table, rank, m, |table[m]|) + [m]
  }

  /** What the first `k` dependencies of `m` push. */
  ghost function OrderDeps(table: Table, rank: map<Name, nat>, m: Name, k: nat): seq<Name>
    requires Acyclic(table, rank) && m in table && k <= |table[m]|
    decreases rank[m] + 1, 0, k
  {
    if k == 0 then []
    else
      var d := table[m][k - 1];
      OrderDeps(table, rank, m, k - 1) + if d in table then Order(table, rank, d) else []
  }

  ghost function OrderAll(table: Table, rank: map<Name, nat>, names: seq<Name>): seq<Name>
    requires Acyclic(table, rank)
  {
    if names == [] then []
    else OrderAll(table, rank, names[..|names| - 1]) + Order(table, rank, names[|names| - 1])
  }

  /** Every known dependency of an entry stands before that entry. */
  predicate DepsFirst(table: Table, s: seq<Name>) {
    forall j :: 0 <= j < |s| ==> s[j] in table && forall d :: d in table[s[j]] && d in table ==> d in s[..j]
  }

  lemma DepsFirstConcat(table: Table, a: seq<Name>, b: seq<Name>)
    requires DepsFirst(table, a) && DepsFirst(table, b)
    ensures DepsFirst(table, a + b)
  {
    var s := a + b;
    forall j | 0 <= j < |s|
      ensures s[j] in table && forall d :: d in table[s[j]] && d in table ==> d in s[..j]
    {
      if j < |a| {
        assert s[..j] == a[..j];
      } else {
        assert s[..j] == a + b[..j - |a|];
      }
    }
  }

  lemma {:induction false} OrderDepsFirst(table: Table, rank: map<Name, nat>, m: Name)
    requires Acyclic(table, rank)
    ensures DepsFirst(table, Order(table, rank, m))
    ensures m in table ==> m in Order(table, rank, m)
    decreases if m in table then rank[m] + 1 else 0, 0
  {
    if m in table {
      var front := OrderDeps(table, rank, m, |table[m]|);
      OrderDepsOk(table, rank, m, |table[m]|);
      var s := front + [m];
      forall j | 0 <= j < |s|
        ensures s[j] in table && forall d :: d in table[s[j]] && d in table ==> d in s[..j]
      {
        assert s[..j] == front[..j];
        if j == |front| {
          assert front[..j] == front;
        }
      }
    }
  }

  lemma {:induction false} OrderDepsOk(table: Table, rank: map<Name, nat>, m: Name, k: nat)
    requires Acyclic(table, rank) && m in table && k <= |table[m]|
    ensures DepsFirst(table, OrderDeps(table, rank, m, k))
    ensures forall i :: 0 <= i < k && table[m][i] in table ==> table[m][i] in OrderDeps(table, rank, m, k)
    decreases rank[m] + 1, 0, k
  {
    hide DepsFirst, Order, OrderDeps, Acyclic;
    if k == 0 {
      NoDeps(table, rank, m);
    } else {
      var d, front := table[m][k - 1], OrderDeps(table, rank, m, k - 1);
      OrderDepsOk(table, rank, m, k - 1);
      OneMoreDep(table, rank, m, k);
      if d in table {
        Lower(table, rank, m, k - 1);
        OrderDepsFirst(table, rank, d);
        DepsFirstConcat(table, front, Order(table, rank, d));
      }
      forall i | 0 <= i < k && table[m][i] in table ensures table[m][i] in OrderDeps(table, rank, m, k) {
        if i < k - 1 {
          assert table[m][i] in front;
        }
      }
    }
  }

  lemma NoDeps(table: Table, rank: map<Name, nat>, m: Name)
    requires Acyclic(table, rank) && m in table
    ensures OrderDeps(table, rank, m, 0) == [] && DepsFirst(table, [])
  {
  }

  lemma OneMoreDep(table: Table, rank: map<Name, nat>, m: Name, k: nat)
    requires Acyclic(table, rank) && m in table && 0 < k <= |table[m]|
    ensures var d, front := table[m][k - 1], OrderDeps(table, rank, m, k - 1);
            OrderDeps(table, rank, m, k) == if d in table then front + Order(table, rank, d) else front
  {
    hide Order;
  }

  lemma Lower(table: Table, rank: map<Name, nat>, m: Name, i: nat)
    requires Acyclic(table, rank) && m in table && i < |table[m]| && table[m][i] in table
    ensures m in rank && table[m][i] in rank && rank[table[m][i]] < rank[m]
  {
  }

  lemma {:induction false} OrderAllDepsFirst(table: Table, rank: map<Name, nat>, names: seq<Name>)
    requires Acyclic(table, rank)
    ensures DepsFirst(table, OrderAll(table, rank, names))
    ensures forall m :: m in names && m in table ==> m in OrderAll(table, rank, names)
  {
    if names != [] {
      var front, last := names[..|names| - 1], names[|names| - 1];
      assert names == front + [last];
      OrderAllDepsFirst(table, rank, front);
      OrderDepsFirst(table, rank, last);
      DepsFirstConcat(table, OrderAll(table, rank, front), Order(table, rank, last));
    }
  }

  /** The queue is in the order of the calls of `add`: a module comes right after all that its dependencies
      push, in their order, and modules without dependencies come in the order of their names. */
  lemma QueueInOrder(table: Table, rank: map<Name, nat>, a: seq<Name>, b: seq<Name>, m: Name)
    requires Acyclic(table, rank)
    ensures OrderAll(table, rank, a + b) == OrderAll(table, rank, a) + OrderAll(table, rank, b)
    ensures m in table ==> OrderAll(table, rank, [m]) == OrderAll(table, rank, table[m]) + [m]
    ensures m !in table ==> OrderAll(table, rank, [m]) == []
    ensures (forall n :: n in a ==> n in table && table[n] == []) ==> OrderAll(table, rank, a) == a
  {
    hide Acyclic;
    OrderAllConcat(table, rank, a, b);
    assert [m][..0] == [];
    if m in table {
      DepsAreAll(table, rank, m, |table[m]|);
      assert table[m][..|table[m]|] == table[m];
    }
    if forall n :: n in a ==> n in table && table[n] == [] {
      Independent(table, rank, a);
    }
  }

  lemma {:induction false} OrderAllConcat(table: Table, rank: map<Name, nat>, a: seq<Name>, b: seq<Name>)
    requires Acyclic(table, rank)
    ensures OrderAll(table, rank, a + b) == OrderAll(table, rank, a) + OrderAll(table, rank, b)
    decreases |b|
  {
    hide Acyclic, Order;
    if b == [] {
      assert a + b == a;
    } else {
      var k := |b| - 1;
      assert (a + b)[..|a + b| - 1] == a + b[..k];
      OrderAllConcat(table, rank, a, b[..k]);
    }
  }

  lemma {:induction false} DepsAreAll(table: Table, rank: map<Name, nat>, m: Name, k: nat)
    requires Acyclic(table, rank) && m in table && k <= |table[m]|
    ensures OrderDeps(table, rank, m, k) == OrderAll(table, rank, table[m][..k])
    decreases k
  {
    if k > 0 {
      DepsAreAll(table, rank, m, k - 1);
      assert table[m][..k][..k - 1] == table[m][..k - 1];
    }
  }

  lemma {:induction false} Independent(table: Table, rank: map<Name, nat>, names: seq<Name>)
    requires Acyclic(table, rank) && forall n :: n in names ==> n in table && table[n] == []
    ensures OrderAll(table, rank, names) == names
  {
    if names != [] {
      var k := |names| - 1;
      Independent(table, rank, names[..k]);
      assert names[k] in names && names == names[..k] + [names[k]];
      assert Order(table, rank, names[k]) == [] + [names[k]];
    }
  }

  /** A module that needs another one: the other one comes first. */
  lemma SmallTable()
    ensures var table, rank := map["form" := ["panel"], "panel" := []], map["form" := 1, "panel" := 0];
            Acyclic(table, rank) && OrderAll(table, rank, ["form"]) == ["panel", "form"]
  {
    var table: Table, rank: map<Name, nat> := map["form" := ["panel"], "panel" := []], map["form" := 1, "panel" := 0];
    assert "form" != "panel" by { assert "form"[0] != "panel"[0]; }
    assert table["form"] == ["panel"] && table["panel"] == [];
    assert Acyclic(table, rank);
    QueueInOrder(table, rank, ["panel"], [], "form");
    assert ["panel"] + ["form"] == ["panel", "form"];
  }

  // ----- the protocol -----

  datatype Status = Loading | Loaded

  /** What a request waits for: the script of its first module, the turn after that script ran, a poll
      timer, the locale file; or nothing, because its callback has run or it has given up. */
  datatype Phase = Fetching | Arrived | Polling | Locale | Done | Dead

  /** One load call: the queue, the milliseconds polled so far, whether it fetched anything, how often its
      callback has run, and (for the record) the names it was called with. */
  datatype Request = Request(names: seq<Name>, mm: seq<Name>, waited: nat, fetched: bool, phase: Phase, calls: nat)

  /** The shared status map, the requests, and the log of all module scripts asked for. */
  datatype State = State(status: map<Name, Status>, reqs: seq<Request>, log: seq<Name>)

  /** The module table, the polling limit and whether a locale file is configured. */
  datatype Config = Config(table: Table, timeout: nat, locale: bool)

  datatype Event = Load(names: seq<Name>) | Script(r: nat) | Resume(r: nat) | Timer(r: nat) | LocaleScript(r: nat)

  /** The function `_1e`: runs request `r` until it waits for something or ends. */
  function Advance(cfg: Config, st: State, r: nat): State
    requires r < |st.reqs|
    decreases |st.reqs[r].mm|
  {
    var q := st.reqs[r];
    if q.mm == [] then
      if cfg.locale && q.fetched then st.(reqs := st.reqs[r := q.(phase := Locale)])
      else st.(reqs := st.reqs[r := q.(phase := Done, calls := q.calls + 1)])
    else
      var m := q.mm[0];
      if m !in st.status then
        State(st.status[m := Loading], st.reqs[r := q.(fetched := true, phase := Fetching)], st.log + [m])
      else if st.status[m] == Loaded then
        Advance(cfg, st.(reqs := st.reqs[r := q.(mm := q.mm[1..])]), r)
      else if q.waited < cfg.timeout then
        st.(reqs := st.reqs[r := q.(waited := q.waited + 10, phase := Polling)])
      else
        st.(reqs := st.reqs[r := q.(phase := Dead)])
  }

  predicate Enabled(st: State, e: Event) {
    match e
    case Load(_) => true
    case Script(r) => r < |st.reqs| && st.reqs[r].phase == Fetching
    case Resume(r) => r < |st.reqs| && st.reqs[r].phase == Arrived
    case Timer(r) => r < |st.reqs| && st.reqs[r].phase == Polling
    case LocaleScript(r) => r < |st.reqs| && st.reqs[r].phase == Locale
  }

  /** One event.  A script that has loaded marks its module, and the request goes on in a later turn, so
      that user code called in between may start further requests. */
  ghost function Step(cfg: Config, rank: map<Name, nat>, st: State, e: Event): State
    requires Acyclic(cfg.table, rank)
    requires Enabled(st, e)
    requires Inv(cfg, rank, st)
  {
    match e
    case Load(names) =>
      var q := NewRequest(names, OrderAll(cfg.table, rank, names));
      Advance(cfg, st.(reqs := st.reqs + [q]), |st.reqs|)
    case Script(r) =>
      var q := st.reqs[r];
      State(st.status[q.mm[0] := Loaded], st.reqs[r := q.(phase := Arrived)], st.log)
    case Resume(r) =>
      var q := st.reqs[r];
      Advance(cfg, st.(reqs := st.reqs[r := q.(mm := q.mm[1..])]), r)
    case Timer(r) => Advance(cfg, st, r)
    case LocaleScript(r) =>
      var q := st.reqs[r];
      st.(reqs := st.reqs[r := q.(phase := Done, calls := q.calls + 1)])
  }

  const INITIAL := State(map[], [], [])

  // ----- what every reachable state satisfies -----

  /** `m` is loaded. */
  predicate IsLoaded(st: State, m: Name) {
    m in st.status && st.status[m] == Loaded
  }

  /** The queue is what is left of the full order, and everything before it is loaded. */
  ghost predicate QueueOk(cfg: Config, rank: map<Name, nat>, st: State, q: Request)
    requires Acyclic(cfg.table, rank)
  {
    var all := OrderAll(cfg.table, rank, q.names);
    && |q.mm| <= |all| && q.mm == all[|all| - |q.mm|..]
    && forall m :: m in all[..|all| - |q.mm|] ==> IsLoaded(st, m)
  }

  ghost predicate RequestOk(cfg: Config, rank: map<Name, nat>, st: State, q: Request)
    requires Acyclic(cfg.table, rank)
  {
    && QueueOk(cfg, rank, st, q)
    && q.calls == (if q.phase == Done then 1 else 0)
    && (q.phase == Fetching ==> q.mm != [] && q.mm[0] in st.status && st.status[q.mm[0]] == Loading)
    && (q.phase == Arrived ==> q.mm != [] && IsLoaded(st, q.mm[0]))
    && (q.phase == Polling ==> q.mm != [] && q.mm[0] in st.status)
    && (q.phase == Locale || q.phase == Done ==> q.mm == [])
    && (q.phase == Dead ==> q.mm != [] && q.waited >= cfg.timeout)
    && (q.waited >= 10 ==> q.waited < cfg.timeout + 10)
  }

  /** A module that is loading is being fetched by exactly one request. */
  predicate FetchersOk(st: State) {
    && (forall r, s :: 0 <= r < s < |st.reqs| && Fetches(st.reqs[r]) && Fetches(st.reqs[s]) ==>
          st.reqs[r].mm[0] != st.reqs[s].mm[0])
    && (forall m :: m in st.status && st.status[m] == Loading ==>
          exists r :: 0 <= r < |st.reqs| && Fetches(st.reqs[r]) && st.reqs[r].mm[0] == m)
  }

  predicate Fetches(q: Request) {
    q.phase == Fetching && q.mm != []
  }

  /** Every module asked for was asked for once, after all its known dependencies had been loaded. */
  ghost predicate StatusOk(cfg: Config, st: State)
  {
    && (forall i, j :: 0 <= i < j < |st.log| ==> st.log[i] != st.log[j])
    && (forall m :: m in st.log <==> m in st.status)
    && (forall m :: m in st.status ==> m in cfg.table)
    && (forall m, d :: m in st.status && d in cfg.table[m] && d in cfg.table ==> IsLoaded(st, d))
  }

  ghost predicate Inv(cfg: Config, rank: map<Name, nat>, st: State)
    requires Acyclic(cfg.table, rank)
  {
    && StatusOk(cfg, st) && FetchersOk(st)
    && forall r :: 0 <= r < |st.reqs| ==> RequestOk(cfg, rank, st, st.reqs[r])
  }

  /** A request about to go on: it waits for nothing and its queue is right. */
  ghost predicate Ready(cfg: Config, rank: map<Name, nat>, st: State, q: Request)
    requires Acyclic(cfg.table, rank)
  {
    q.phase != Fetching && q.calls == 0 && QueueOk(cfg, rank, st, q)
    && (q.waited >= 10 ==> q.waited < cfg.timeout + 10)
  }

  /** The invariant, but for request `r`, which is about to go on. */
  ghost predicate InvBut(cfg: Config, rank: map<Name, nat>, st: State, r: nat)
    requires Acyclic(cfg.table, rank)
  {
    && StatusOk(cfg, st) && FetchersOk(st)
    && r < |st.reqs| && Ready(cfg, rank, st, st.reqs[r])
    && forall s :: 0 <= s < |st.reqs| && s != r ==> RequestOk(cfg, rank, st, st.reqs[s])
  }

  /** Dropping a loaded module from the front of the queue. */
  lemma ShiftOk(cfg: Config, rank: map<Name, nat>, st: State, q: Request)
    requires Acyclic(cfg.table, rank) && QueueOk(cfg, rank, st, q) && q.mm != [] && IsLoaded(st, q.mm[0])
    ensures QueueOk(cfg, rank, st, q.(mm := q.mm[1..]))
  {
    var all := OrderAll(cfg.table, rank, q.names);
    var k := |all| - |q.mm|;
    assert q.mm[0] == all[k];
    assert all[..k + 1] == all[..k] + [all[k]];
  }

  /** The module at the front of a queue is known, and its known dependencies are loaded. */
  lemma HeadOk(cfg: Config, rank: map<Name, nat>, st: State, q: Request)
    requires Acyclic(cfg.table, rank) && QueueOk(cfg, rank, st, q) && q.mm != []
    ensures q.mm[0] in cfg.table
    ensures forall d :: d in cfg.table[q.mm[0]] && d in cfg.table ==> IsLoaded(st, d)
  {
    var all := OrderAll(cfg.table, rank, q.names);
    OrderAllDepsFirst(cfg.table, rank, q.names);
    assert q.mm[0] == all[|all| - |q.mm|];
  }

  /** What is loaded stays loaded, and what has been asked for stays so. */
  ghost predicate Grows(st: State, next: State) {
    && (forall m :: m in st.status ==> m in next.status)
    && (forall m :: IsLoaded(st, m) ==> IsLoaded(next, m))
  }

  lemma QueueGrows(cfg: Config, rank: map<Name, nat>, st: State, next: State, q: Request)
    requires Acyclic(cfg.table, rank) && QueueOk(cfg, rank, st, q) && Grows(st, next)
    ensures QueueOk(cfg, rank, next, q)
  {
    hide Acyclic, OrderAll, IsLoaded;
  }

  /** Another request's step leaves a request right, unless it was fetching the module that has arrived. */
  lemma RequestGrows(cfg: Config, rank: map<Name, nat>, st: State, next: State, q: Request)
    requires Acyclic(cfg.table, rank) && RequestOk(cfg, rank, st, q) && Grows(st, next)
    requires Fetches(q) && q.mm[0] in st.status ==> next.status[q.mm[0]] == st.status[q.mm[0]]
    ensures RequestOk(cfg, rank, next, q)
  {
    QueueGrows(cfg, rank, st, next, q);
    hide QueueOk;
  }

  /** A change of one request that keeps it from fetching concerns no other request. */
  lemma SameStatus(cfg: Config, rank: map<Name, nat>, st: State, q: Request, r: nat)
    requires Acyclic(cfg.table, rank) && InvBut(cfg, rank, st, r) && q.phase != Fetching
    ensures var next := st.(reqs := st.reqs[r := q]);
            && StatusOk(cfg, next) && FetchersOk(next)
            && forall s :: 0 <= s < |next.reqs| && s != r ==> RequestOk(cfg, rank, next, next.reqs[s])
  {
    hide Acyclic, RequestOk, Ready, QueueOk, StatusOk, FetchersOk;
    var next := st.(reqs := st.reqs[r := q]);
    SameFetchers(cfg, rank, st, q, r);
    StatusSame(cfg, st, next);
    forall s | 0 <= s < |next.reqs| && s != r ensures RequestOk(cfg, rank, next, next.reqs[s]) {
      RequestGrows(cfg, rank, st, next, st.reqs[s]);
    }
  }

  lemma StatusSame(cfg: Config, st: State, next: State)
    requires StatusOk(cfg, st) && next.status == st.status && next.log == st.log
    ensures StatusOk(cfg, next)
  {
  }

  lemma SameFetchers(cfg: Config, rank: map<Name, nat>, st: State, q: Request, r: nat)
    requires Acyclic(cfg.table, rank) && InvBut(cfg, rank, st, r) && q.phase != Fetching
    ensures FetchersOk(st.(reqs := st.reqs[r := q]))
  {
    var next := st.(reqs := st.reqs[r := q]);
    assert st.reqs[r].phase != Fetching;
    hide Acyclic, RequestOk, Ready, QueueOk, StatusOk;
    forall m | m in next.status && next.status[m] == Loading
      ensures exists s :: 0 <= s < |next.reqs| && Fetches(next.reqs[s]) && next.reqs[s].mm[0] == m
    {
      var s :| 0 <= s < |st.reqs| && Fetches(st.reqs[s]) && st.reqs[s].mm[0] == m;
      assert next.reqs[s] == st.reqs[s];
    }
  }

  /** Asking for a new module, whose known dependencies are loaded. */
  lemma FetchKeepsInv(cfg: Config, rank: map<Name, nat>, st: State, r: nat)
    requires Acyclic(cfg.table, rank) && InvBut(cfg, rank, st, r)
    requires st.reqs[r].mm != [] && st.reqs[r].mm[0] !in st.status
    ensures Inv(cfg, rank, Advance(cfg, st, r))
  {
    var q := st.reqs[r];
    var m, next := q.mm[0], Advance(cfg, st, r);
    HeadOk(cfg, rank, st, q);
    assert Grows(st, next);
    QueueGrows(cfg, rank, st, next, q);
    forall s | 0 <= s < |next.reqs| ensures RequestOk(cfg, rank, next, next.reqs[s]) {
      if s != r {
        RequestGrows(cfg, rank, st, next, st.reqs[s]);
      }
    }
    FetchKeepsStatus(cfg, rank, st, r);
  }

  lemma FetchKeepsStatus(cfg: Config, rank: map<Name, nat>, st: State, r: nat)
    requires Acyclic(cfg.table, rank) && InvBut(cfg, rank, st, r)
    requires st.reqs[r].mm != [] && st.reqs[r].mm[0] !in st.status
    ensures StatusOk(cfg, Advance(cfg, st, r)) && FetchersOk(Advance(cfg, st, r))
  {
    var q := st.reqs[r];
    var m, next := q.mm[0], Advance(cfg, st, r);
    HeadOk(cfg, rank, st, q);
    hide Acyclic, OrderAll, RequestOk, Ready, QueueOk;
    assert next.reqs[r].mm[0] == m && Fetches(next.reqs[r]);
    forall k | k in next.status && next.status[k] == Loading
      ensures exists s :: 0 <= s < |next.reqs| && Fetches(next.reqs[s]) && next.reqs[s].mm[0] == k
    {
      if k != m {
        var s :| 0 <= s < |st.reqs| && Fetches(st.reqs[s]) && st.reqs[s].mm[0] == k;
        assert next.reqs[s] == st.reqs[s];
      }
    }
    assert forall k :: IsLoaded(next, k) <==> IsLoaded(st, k);
  }

  /** Going past a loaded module. */
  lemma ShiftKeepsInv(cfg: Config, rank: map<Name, nat>, st: State, r: nat)
    requires Acyclic(cfg.table, rank) && InvBut(cfg, rank, st, r)
    requires st.reqs[r].mm != [] && IsLoaded(st, st.reqs[r].mm[0])
    ensures var q := st.reqs[r];
            InvBut(cfg, rank, st.(reqs := st.reqs[r := q.(mm := q.mm[1..])]), r)
  {
    var q := st.reqs[r];
    var q' := q.(mm := q.mm[1..]);
    var next := st.(reqs := st.reqs[r := q']);
    ShiftOk(cfg, rank, st, q);
    QueueGrows(cfg, rank, st, next, q');
    SameStatus(cfg, rank, st, q', r);
    hide Acyclic, StatusOk, FetchersOk, QueueOk, RequestOk;
  }

  /** Coming to rest: done, waiting for the locale file, polling or giving up. */
  lemma RestKeepsInv(cfg: Config, rank: map<Name, nat>, st: State, r: nat)
    requires Acyclic(cfg.table, rank) && InvBut(cfg, rank, st, r)
    requires var q := st.reqs[r]; q.mm != [] ==> q.mm[0] in st.status && st.status[q.mm[0]] == Loading
    ensures Inv(cfg, rank, Advance(cfg, st, r))
  {
    var next := Advance(cfg, st, r);
    RestRequest(cfg, rank, st, r);
    hide Acyclic, StatusOk, FetchersOk, RequestOk, QueueOk;
    assert next.reqs[r].phase != Fetching;
    assert next == st.(reqs := st.reqs[r := next.reqs[r]]);
    SameStatus(cfg, rank, st, next.reqs[r], r);
  }

  lemma RestRequest(cfg: Config, rank: map<Name, nat>, st: State, r: nat)
    requires Acyclic(cfg.table, rank) && r < |st.reqs| && Ready(cfg, rank, st, st.reqs[r])
    requires var q := st.reqs[r]; q.mm != [] ==> q.mm[0] in st.status && st.status[q.mm[0]] == Loading
    ensures RequestOk(cfg, rank, Advance(cfg, st, r), Advance(cfg, st, r).reqs[r])
  {
    hide Advance, QueueOk, Acyclic, IsLoaded;
    var q, next := st.reqs[r], Advance(cfg, st, r);
    RestShape(cfg, st, r);
    SameQueue(cfg, rank, st, next, q, next.reqs[r]);
  }

  lemma RestShape(cfg: Config, st: State, r: nat)
    requires r < |st.reqs|
    requires var q := st.reqs[r]; q.mm != [] ==> q.mm[0] in st.status && st.status[q.mm[0]] == Loading
    ensures var q, next := st.reqs[r], Advance(cfg, st, r);
            && next.status == st.status && |next.reqs| == |st.reqs|
            && var p := next.reqs[r];
               && p.names == q.names && p.mm == q.mm
               && (if q.mm == [] then
                     && p.waited == q.waited
                     && ((p.phase == Locale && p.calls == q.calls) || (p.phase == Done && p.calls == q.calls + 1))
                   else
                     && p.calls == q.calls
                     && if q.waited < cfg.timeout then p.phase == Polling && p.waited == q.waited + 10
                        else p.phase == Dead && p.waited == q.waited)
  {
  }

  lemma SameQueue(cfg: Config, rank: map<Name, nat>, st: State, next: State, q: Request, p: Request)
    requires Acyclic(cfg.table, rank) && QueueOk(cfg, rank, st, q)
    requires next.status == st.status && p.names == q.names && p.mm == q.mm
    ensures QueueOk(cfg, rank, next, p)
  {
    QueueGrows(cfg, rank, st, next, q);
    hide Acyclic, OrderAll;
  }

  lemma {:induction false} AdvanceKeepsInv(cfg: Config, rank: map<Name, nat>, st: State, r: nat)
    requires Acyclic(cfg.table, rank) && InvBut(cfg, rank, st, r)
    ensures Inv(cfg, rank, Advance(cfg, st, r))
    decreases |st.reqs[r].mm|
  {
    hide Acyclic, StatusOk, FetchersOk, QueueOk, RequestOk;
    var q := st.reqs[r];
    if q.mm != [] && q.mm[0] !in st.status {
      FetchKeepsInv(cfg, rank, st, r);
    } else if q.mm != [] && st.status[q.mm[0]] == Loaded {
      ShiftKeepsInv(cfg, rank, st, r);
      AdvanceKeepsInv(cfg, rank, st.(reqs := st.reqs[r := q.(mm := q.mm[1..])]), r);
    } else {
      RestKeepsInv(cfg, rank, st, r);
    }
  }

  lemma RequestReady(cfg: Config, rank: map<Name, nat>, st: State, r: nat)
    requires Acyclic(cfg.table, rank) && Inv(cfg, rank, st) && r < |st.reqs|
    requires st.reqs[r].phase == Arrived || st.reqs[r].phase == Polling
    ensures InvBut(cfg, rank, st, r)
    ensures st.reqs[r].mm != [] && st.reqs[r].mm[0] in st.status
    ensures st.reqs[r].phase == Arrived ==> IsLoaded(st, st.reqs[r].mm[0])
  {
    assert RequestOk(cfg, rank, st, st.reqs[r]);
  }

  lemma LoadKeepsInv(cfg: Config, rank: map<Name, nat>, st: State, q: Request)
    requires Acyclic(cfg.table, rank) && Inv(cfg, rank, st) && Ready(cfg, rank, st, q)
    ensures InvBut(cfg, rank, st.(reqs := st.reqs + [q]), |st.reqs|)
  {
    var next := st.(reqs := st.reqs + [q]);
    forall m | m in next.status && next.status[m] == Loading
      ensures exists s :: 0 <= s < |next.reqs| && Fetches(next.reqs[s]) && next.reqs[s].mm[0] == m
    {
      var s :| 0 <= s < |st.reqs| && Fetches(st.reqs[s]) && st.reqs[s].mm[0] == m;
      assert next.reqs[s] == st.reqs[s];
    }
    QueueGrows(cfg, rank, st, next, q);
    forall s | 0 <= s < |st.reqs| ensures RequestOk(cfg, rank, next, next.reqs[s]) {
      RequestGrows(cfg, rank, st, next, st.reqs[s]);
    }
    hide QueueOk, RequestOk;
  }

  lemma ScriptFetchers(cfg: Config, rank: map<Name, nat>, st: State, r: nat)
    requires Acyclic(cfg.table, rank) && Inv(cfg, rank, st) && Enabled(st, Script(r))
    ensures FetchersOk(Step(cfg, rank, st, Script(r)))
  {
    var q, next := st.reqs[r], Step(cfg, rank, st, Script(r));
    assert RequestOk(cfg, rank, st, q);
    assert Fetches(q);
    hide Acyclic, RequestOk, StatusOk;
    forall k | k in next.status && next.status[k] == Loading
      ensures exists s :: 0 <= s < |next.reqs| && Fetches(next.reqs[s]) && next.reqs[s].mm[0] == k
    {
      var s :| 0 <= s < |st.reqs| && Fetches(st.reqs[s]) && st.reqs[s].mm[0] == k;
      assert s != r && next.reqs[s] == st.reqs[s];
    }
  }

  lemma ScriptKeepsInv(cfg: Config, rank: map<Name, nat>, st: State, r: nat)
    requires Acyclic(cfg.table, rank) && Inv(cfg, rank, st) && Enabled(st, Script(r))
    ensures Inv(cfg, rank, Step(cfg, rank, st, Script(r)))
  {
    ScriptFetchers(cfg, rank, st, r);
    ScriptStatus(cfg, rank, st, r);
    ScriptRequest(cfg, rank, st, r);
    ScriptOthers(cfg, rank, st, r);
    hide Acyclic, StatusOk, FetchersOk, RequestOk, QueueOk;
  }

  lemma ScriptStatus(cfg: Config, rank: map<Name, nat>, st: State, r: nat)
    requires Acyclic(cfg.table, rank) && Inv(cfg, rank, st) && Enabled(st, Script(r))
    ensures st.reqs[r].mm != [] && Grows(st, Step(cfg, rank, st, Script(r)))
    ensures StatusOk(cfg, Step(cfg, rank, st, Script(r)))
  {
    assert RequestOk(cfg, rank, st, st.reqs[r]);
    hide Acyclic, RequestOk, FetchersOk;
  }

  lemma ScriptRequest(cfg: Config, rank: map<Name, nat>, st: State, r: nat)
    requires Acyclic(cfg.table, rank) && Inv(cfg, rank, st) && Enabled(st, Script(r))
    ensures var next := Step(cfg, rank, st, Script(r)); RequestOk(cfg, rank, next, next.reqs[r])
  {
    var q, next := st.reqs[r], Step(cfg, rank, st, Script(r));
    assert RequestOk(cfg, rank, st, q);
    ScriptStatus(cfg, rank, st, r);
    QueueGrows(cfg, rank, st, next, q);
    assert QueueOk(cfg, rank, next, next.reqs[r]);
    hide QueueOk, StatusOk, FetchersOk, Acyclic;
  }

  lemma ScriptOthers(cfg: Config, rank: map<Name, nat>, st: State, r: nat)
    requires Acyclic(cfg.table, rank) && Inv(cfg, rank, st) && Enabled(st, Script(r))
    ensures var next := Step(cfg, rank, st, Script(r));
            forall s :: 0 <= s < |next.reqs| && s != r ==> RequestOk(cfg, rank, next, next.reqs[s])
  {
    var q, next := st.reqs[r], Step(cfg, rank, st, Script(r));
    ScriptStatus(cfg, rank, st, r);
    assert Fetches(q);
    hide Acyclic, StatusOk, RequestOk, QueueOk;
    forall s | 0 <= s < |next.reqs| && s != r ensures RequestOk(cfg, rank, next, next.reqs[s]) {
      assert Fetches(st.reqs[s]) ==> st.reqs[s].mm[0] != q.mm[0];
      RequestGrows(cfg, rank, st, next, st.reqs[s]);
    }
  }

  function NewRequest(names: seq<Name>, mm: seq<Name>): Request {
    Request(names, mm, 0, false, Polling, 0)
  }

  lemma NewRequestReady(cfg: Config, rank: map<Name, nat>, st: State, names: seq<Name>)
    requires Acyclic(cfg.table, rank)
    ensures Ready(cfg, rank, st, NewRequest(names, OrderAll(cfg.table, rank, names)))
  {
    hide Acyclic, OrderAll, IsLoaded;
  }

  lemma LoadStepKeepsInv(cfg: Config, rank: map<Name, nat>, st: State, names: seq<Name>)
    requires Acyclic(cfg.table, rank) && Inv(cfg, rank, st)
    ensures var q := NewRequest(names, OrderAll(cfg.table, rank, names));
            Inv(cfg, rank, Advance(cfg, st.(reqs := st.reqs + [q]), |st.reqs|))
  {
    hide *;
    var q := NewRequest(names, OrderAll(cfg.table, rank, names));
    NewRequestReady(cfg, rank, st, names);
    LoadKeepsInv(cfg, rank, st, q);
    AdvanceKeepsInv(cfg, rank, st.(reqs := st.reqs + [q]), |st.reqs|);
  }

  lemma ResumeKeepsInv(cfg: Config, rank: map<Name, nat>, st: State, r: nat)
    requires Acyclic(cfg.table, rank) && Inv(cfg, rank, st) && r < |st.reqs| && st.reqs[r].phase == Arrived
    ensures var q := st.reqs[r];
            q.mm != [] && Inv(cfg, rank, Advance(cfg, st.(reqs := st.reqs[r := q.(mm := q.mm[1..])]), r))
  {
    hide *;
    RequestReady(cfg, rank, st, r);
    ShiftKeepsInv(cfg, rank, st, r);
    var q := st.reqs[r];
    AdvanceKeepsInv(cfg, rank, st.(reqs := st.reqs[r := q.(mm := q.mm[1..])]), r);
  }

  lemma TimerKeepsInv(cfg: Config, rank: map<Name, nat>, st: State, r: nat)
    requires Acyclic(cfg.table, rank) && Inv(cfg, rank, st) && r < |st.reqs| && st.reqs[r].phase == Polling
    ensures Inv(cfg, rank, Advance(cfg, st, r))
  {
    hide *;
    RequestReady(cfg, rank, st, r);
    AdvanceKeepsInv(cfg, rank, st, r);
  }

  /** Every event keeps the invariant. */
  lemma StepKeepsInv(cfg: Config, rank: map<Name, nat>, st: State, e: Event)
    requires Acyclic(cfg.table, rank) && Inv(cfg, rank, st) && Enabled(st, e)
    ensures Inv(cfg, rank, Step(cfg, rank, st, e))
  {
    hide Acyclic, Inv, Advance, OrderAll;
    match e {
      case Load(names) => LoadStepKeepsInv(cfg, rank, st, names);
      case Script(r) => ScriptKeepsInv(cfg, rank, st, r);
      case Resume(r) => ResumeKeepsInv(cfg, rank, st, r);
      case Timer(r) => TimerKeepsInv(cfg, rank, st, r);
      case LocaleScript(r) => LocaleKeepsInv(cfg, rank, st, r);
    }
  }

  lemma LocaleKeepsInv(cfg: Config, rank: map<Name, nat>, st: State, r: nat)
    requires Acyclic(cfg.table, rank) && Inv(cfg, rank, st) && Enabled(st, LocaleScript(r))
    ensures Inv(cfg, rank, Step(cfg, rank, st, LocaleScript(r)))
  {
    var q, next := st.reqs[r], Step(cfg, rank, st, LocaleScript(r));
    assert RequestOk(cfg, rank, st, q);
    assert InvBut(cfg, rank, st, r);
    SameStatus(cfg, rank, st, next.reqs[r], r);
    assert RequestOk(cfg, rank, next, next.reqs[r]) by {
      QueueGrows(cfg, rank, st, next, q);
      assert QueueOk(cfg, rank, next, next.reqs[r]);
      hide QueueOk, StatusOk, FetchersOk, Acyclic;
    }
    hide StatusOk, FetchersOk, QueueOk, RequestOk, Acyclic;
  }

  // ----- whole runs -----

  /** The state after a run; an event that cannot occur is passed over. */
  ghost function Run(cfg: Config, rank: map<Name, nat>, st: State, es: seq<Event>): (end: State)
    requires Acyclic(cfg.table, rank) && Inv(cfg, rank, st)
    ensures Inv(cfg, rank, end)
    decreases |es|
  {
    if es == [] then st
    else if !Enabled(st, es[0]) then Run(cfg, rank, st, es[1..])
    else
      StepKeepsInv(cfg, rank, st, es[0]);
      Run(cfg, rank, Step(cfg, rank, st, es[0]), es[1..])
  }

  /** `path` leads from `m` along known dependencies to `d`. */
  predicate DependsVia(table: Table, path: seq<Name>, m: Name, d: Name) {
    && |path| >= 2 && path[0] == m && path[|path| - 1] == d
    && forall i :: 0 < i < |path| ==> Edge(table, path[i - 1], path[i])
  }

  predicate Edge(table: Table, m: Name, d: Name) {
    m in table && d in table && d in table[m]
  }

  /** `d` is a known dependency of `m`, directly or through others. */
  ghost predicate DependsOn(table: Table, m: Name, d: Name) {
    exists path :: DependsVia(table, path, m, d)
  }

  lemma {:induction false} DependenciesLoaded(cfg: Config, st: State, path: seq<Name>, m: Name, d: Name)
    requires StatusOk(cfg, st) && m in st.status && DependsVia(cfg.table, path, m, d)
    ensures IsLoaded(st, d)
    decreases |path|
  {
    var front := path[..|path| - 1];
    assert Edge(cfg.table, path[|path| - 2], path[|path| - 1]);
    if |path| > 2 {
      DependenciesLoaded(cfg, st, front, m, front[|front| - 1]);
    }
  }

  /** Safety of every run, whatever the interleaving: no module is fetched twice; whatever has been asked
      for has all its known dependencies, direct and indirect, loaded; a callback has run at most once, and
      only if all its known modules and all their known dependencies are loaded; a request gives up only
      after polling for the whole timeout. */
  lemma RunIsSafe(cfg: Config, rank: map<Name, nat>, es: seq<Event>)
    requires Acyclic(cfg.table, rank)
    ensures Inv(cfg, rank, INITIAL)
    ensures var st := Run(cfg, rank, INITIAL, es);
            && (forall i, j :: 0 <= i < j < |st.log| ==> st.log[i] != st.log[j])
            && (forall m, d :: m in st.log && DependsOn(cfg.table, m, d) ==> IsLoaded(st, d))
            && (forall r :: 0 <= r < |st.reqs| ==> st.reqs[r].calls <= 1)
            && (forall r, m :: 0 <= r < |st.reqs| && st.reqs[r].calls == 1 && m in st.reqs[r].names && m in cfg.table
                  ==> IsLoaded(st, m) && forall d :: DependsOn(cfg.table, m, d) ==> IsLoaded(st, d))
            && (forall r :: 0 <= r < |st.reqs| && st.reqs[r].phase == Dead ==> st.reqs[r].waited >= cfg.timeout)
  {
    var st := Run(cfg, rank, INITIAL, es);
    forall m, d | m in st.status && DependsOn(cfg.table, m, d) ensures IsLoaded(st, d) {
      var path :| DependsVia(cfg.table, path, m, d);
      DependenciesLoaded(cfg, st, path, m, d);
    }
    forall r, m | 0 <= r < |st.reqs| && st.reqs[r].calls == 1 && m in st.reqs[r].names && m in cfg.table
      ensures IsLoaded(st, m)
    {
      CallbackLoaded(cfg, rank, st, st.reqs[r], m);
    }
    forall r | 0 <= r < |st.reqs|
      ensures st.reqs[r].calls <= 1 && (st.reqs[r].phase == Dead ==> st.reqs[r].waited >= cfg.timeout)
    {
      assert RequestOk(cfg, rank, st, st.reqs[r]);
    }
  }

  lemma CallbackLoaded(cfg: Config, rank: map<Name, nat>, st: State, q: Request, m: Name)
    requires Acyclic(cfg.table, rank) && RequestOk(cfg, rank, st, q)
    requires q.calls == 1 && m in q.names && m in cfg.table
    ensures IsLoaded(st, m)
  {
    var all := OrderAll(cfg.table, rank, q.names);
    OrderAllDepsFirst(cfg.table, rank, q.names);
    assert all[..|all| - |q.mm|] == all;
  }

  /** A step that asks for a module does so when its known dependencies are already loaded. */
  lemma FetchedLast(cfg: Config, rank: map<Name, nat>, st: State, e: Event, m: Name)
    requires Acyclic(cfg.table, rank) && Inv(cfg, rank, st) && Enabled(st, e)
    requires m !in st.log && m in Step(cfg, rank, st, e).log
    ensures Step(cfg, rank, st, e).log == st.log + [m]
    ensures forall d :: DependsOn(cfg.table, m, d) ==> IsLoaded(st, d)
  {
    var next := Step(cfg, rank, st, e);
    StepKeepsInv(cfg, rank, st, e);
    match e {
      case Load(names) =>
        var q := NewRequest(names, OrderAll(cfg.table, rank, names));
        AdvanceLog(cfg, st.(reqs := st.reqs + [q]), |st.reqs|);
      case Script(r) =>
      case Resume(r) =>
        var q := st.reqs[r];
        AdvanceLog(cfg, st.(reqs := st.reqs[r := q.(mm := q.mm[1..])]), r);
      case Timer(r) =>
        AdvanceLog(cfg, st, r);
      case LocaleScript(r) =>
    }
    forall d | DependsOn(cfg.table, m, d) ensures IsLoaded(st, d) {
      var path :| DependsVia(cfg.table, path, m, d);
      DependenciesLoaded(cfg, next, path, m, d);
    }
  }

  lemma {:induction false} AdvanceLog(cfg: Config, st: State, r: nat)
    requires r < |st.reqs|
    ensures var next := Advance(cfg, st, r);
            && (next.log == st.log || exists m :: next.log == st.log + [m])
            && (forall m :: IsLoaded(next, m) <==> IsLoaded(st, m))
    decreases |st.reqs[r].mm|
  {
    var q := st.reqs[r];
    if q.mm != [] && IsLoaded(st, q.mm[0]) {
      AdvanceLog(cfg, st.(reqs := st.reqs[r := q.(mm := q.mm[1..])]), r);
    }
  }

  // ----- every request comes to rest -----

  function PollsLeft(cfg: Config, waited: nat): nat {
    if waited >= cfg.timeout then 0 else (cfg.timeout - waited + 9) / 10
  }

  function PhaseWeight(p: Phase): nat {
    match p case Fetching => 2 case Arrived => 1 case Polling => 1 case Locale => 1 case Done => 0 case Dead => 0
  }

  function Weight(cfg: Config, q: Request): nat {
    3 * |q.mm| + 3 * PollsLeft(cfg, q.waited) + PhaseWeight(q.phase)
  }

  /** How many more events the requests made so far can take part in. */
  function Total(cfg: Config, reqs: seq<Request>): nat {
    if reqs == [] then 0 else Weight(cfg, reqs[0]) + Total(cfg, reqs[1..])
  }

  lemma {:induction false} TotalUpdate(cfg: Config, reqs: seq<Request>, r: nat, q: Request)
    requires r < |reqs|
    ensures Total(cfg, reqs[r := q]) + Weight(cfg, reqs[r]) == Total(cfg, reqs) + Weight(cfg, q)
  {
    if r == 0 {
      assert reqs[0 := q][1..] == reqs[1..];
    } else {
      assert reqs[r := q][1..] == reqs[1..][r - 1 := q];
      TotalUpdate(cfg, reqs[1..], r - 1, q);
    }
  }

  /** Going on leaves less to do than the queue and the polls left allow. */
  lemma {:induction false} AdvanceWeight(cfg: Config, st: State, r: nat)
    requires r < |st.reqs|
    ensures var q, next := st.reqs[r], Advance(cfg, st, r);
            && |next.reqs| == |st.reqs| && next.reqs == st.reqs[r := next.reqs[r]]
            && Weight(cfg, next.reqs[r]) <= 3 * |q.mm| + 3 * PollsLeft(cfg, q.waited) + 2
            && (q.mm != [] && q.mm[0] in st.status ==>
                  Weight(cfg, next.reqs[r]) <= 3 * |q.mm| + 3 * PollsLeft(cfg, q.waited))
    decreases |st.reqs[r].mm|
  {
    var q := st.reqs[r];
    if q.mm != [] && IsLoaded(st, q.mm[0]) {
      AdvanceWeight(cfg, st.(reqs := st.reqs[r := q.(mm := q.mm[1..])]), r);
    }
  }

  /** Every event other than a new load call uses up some of what is left to do. */
  lemma StepUsesUp(cfg: Config, rank: map<Name, nat>, st: State, e: Event)
    requires Acyclic(cfg.table, rank) && Inv(cfg, rank, st) && Enabled(st, e) && !e.Load?
    ensures Total(cfg, Step(cfg, rank, st, e).reqs) < Total(cfg, st.reqs)
  {
    var next := Step(cfg, rank, st, e);
    OneRequest(cfg, rank, st, e);
    hide Weight, Inv, Step, Acyclic, Enabled;
    TotalUpdate(cfg, st.reqs, e.r, next.reqs[e.r]);
  }

  lemma QueueHead(cfg: Config, rank: map<Name, nat>, st: State, e: Event)
    requires Acyclic(cfg.table, rank) && Inv(cfg, rank, st) && Enabled(st, e) && !e.Load?
    ensures e.LocaleScript? || st.reqs[e.r].mm != []
    ensures e.Timer? ==> st.reqs[e.r].mm[0] in st.status
  {
    assert RequestOk(cfg, rank, st, st.reqs[e.r]);
  }

  lemma OneRequest(cfg: Config, rank: map<Name, nat>, st: State, e: Event)
    requires Acyclic(cfg.table, rank) && Inv(cfg, rank, st) && Enabled(st, e) && !e.Load?
    ensures var next := Step(cfg, rank, st, e);
            && e.r < |st.reqs| == |next.reqs| && next.reqs == st.reqs[e.r := next.reqs[e.r]]
            && Weight(cfg, next.reqs[e.r]) < Weight(cfg, st.reqs[e.r])
  {
    hide Inv, Acyclic, Advance, PollsLeft;
    var q := st.reqs[e.r];
    QueueHead(cfg, rank, st, e);
    match e {
      case Script(_) =>
      case Resume(_) =>
        AdvanceWeight(cfg, st.(reqs := st.reqs[e.r := q.(mm := q.mm[1..])]), e.r);
      case Timer(_) =>
        AdvanceWeight(cfg, st, e.r);
      case LocaleScript(_) =>
    }
  }

  /** The events of `es` can all occur, one after the other, and none is a new load call. */
  ghost predicate Occur(cfg: Config, rank: map<Name, nat>, st: State, es: seq<Event>)
    requires Acyclic(cfg.table, rank) && Inv(cfg, rank, st)
    decreases |es|
  {
    es == [] ||
    (&& !es[0].Load? && Enabled(st, es[0])
     && Inv(cfg, rank, Step(cfg, rank, st, es[0])) && Occur(cfg, rank, Step(cfg, rank, st, es[0]), es[1..]))
  }

  /** Polling is bounded and nothing runs forever: without new load calls only so many events can follow. */
  lemma {:induction false} RunsEnd(cfg: Config, rank: map<Name, nat>, st: State, es: seq<Event>)
    requires Acyclic(cfg.table, rank) && Inv(cfg, rank, st) && Occur(cfg, rank, st, es)
    ensures |es| <= Total(cfg, st.reqs)
    decreases |es|
  {
    if es != [] {
      StepUsesUp(cfg, rank, st, es[0]);
      RunsEnd(cfg, rank, Step(cfg, rank, st, es[0]), es[1..]);
    }
  }

  /** Nothing can happen any more, but for new load calls. */
  predicate Quiet(st: State) {
    forall r :: 0 <= r < |st.reqs| ==>
      var q := st.reqs[r];
      q.phase != Fetching && q.phase != Arrived && q.phase != Polling && q.phase != Locale
  }

  lemma QuietMeansNoEvent(st: State)
    ensures Quiet(st) <==> forall e: Event :: Enabled(st, e) ==> e.Load?
  {
    if !Quiet(st) {
      var r :| 0 <= r < |st.reqs| && (var q := st.reqs[r];
        q.phase == Fetching || q.phase == Arrived || q.phase == Polling || q.phase == Locale);
      assert Enabled(st, Script(r)) || Enabled(st, Resume(r)) || Enabled(st, Timer(r)) || Enabled(st, LocaleScript(r));
    }
  }

  /** When no event is left, every request has run its callback or has polled for the whole timeout, and
      every module asked for has arrived. */
  lemma AtRest(cfg: Config, rank: map<Name, nat>, st: State)
    requires Acyclic(cfg.table, rank) && Inv(cfg, rank, st) && Quiet(st)
    ensures forall r :: 0 <= r < |st.reqs| ==>
              (st.reqs[r].calls == 1 || (st.reqs[r].calls == 0 && st.reqs[r].waited >= cfg.timeout))
    ensures forall m :: m in st.status ==> IsLoaded(st, m)
  {
    forall r | 0 <= r < |st.reqs|
      ensures st.reqs[r].calls == 1 || (st.reqs[r].calls == 0 && st.reqs[r].waited >= cfg.timeout)
    {
      assert RequestOk(cfg, rank, st, st.reqs[r]);
    }
    assert forall r :: 0 <= r < |st.reqs| ==> !Fetches(st.reqs[r]);
  }

  // ----- when the locale file is loaded, and how long is polled -----

  /** The request that an event is part of; a load call makes a new one. */
  function Owner(st: State, e: Event): nat {
    if e.Load? then |st.reqs| else e.r
  }

  /** In the run of `es`, some step of request `r` asks for a module script. */
  ghost predicate AsksFor(cfg: Config, rank: map<Name, nat>, st: State, es: seq<Event>, r: nat)
    requires Acyclic(cfg.table, rank) && Inv(cfg, rank, st)
    decreases |es|
  {
    if es == [] then false
    else if !Enabled(st, es[0]) then AsksFor(cfg, rank, st, es[1..], r)
    else
      StepKeepsInv(cfg, rank, st, es[0]);
      var next := Step(cfg, rank, st, es[0]);
      (Owner(st, es[0]) == r && |next.log| > |st.log|) || AsksFor(cfg, rank, next, es[1..], r)
  }

  /** How many timer events of request `r` the run has. */
  ghost function Timers(cfg: Config, rank: map<Name, nat>, st: State, es: seq<Event>, r: nat): nat
    requires Acyclic(cfg.table, rank) && Inv(cfg, rank, st)
    decreases |es|
  {
    if es == [] then 0
    else if !Enabled(st, es[0]) then Timers(cfg, rank, st, es[1..], r)
    else
      StepKeepsInv(cfg, rank, st, es[0]);
      (if es[0] == Timer(r) then 1 else 0) + Timers(cfg, rank, Step(cfg, rank, st, es[0]), es[1..], r)
  }

  /** The callback of request `r` runs in this step. */
  ghost predicate CallsBack(cfg: Config, rank: map<Name, nat>, st: State, e: Event, r: nat)
    requires Acyclic(cfg.table, rank) && Inv(cfg, rank, st) && Enabled(st, e)
  {
    var next := Step(cfg, rank, st, e);
    r < |next.reqs| && next.reqs[r].calls > if r < |st.reqs| then st.reqs[r].calls else 0
  }

  lemma {:induction false} AdvanceRecord(cfg: Config, st: State, r: nat)
    requires r < |st.reqs|
    ensures var q, next := st.reqs[r], Advance(cfg, st, r);
            && |next.reqs| == |st.reqs| && next.reqs == st.reqs[r := next.reqs[r]] && |next.log| >= |st.log|
            && (next.reqs[r].fetched <==> q.fetched || |next.log| > |st.log|)
            && (next.reqs[r].phase == Locale ==> cfg.locale && next.reqs[r].fetched)
            && (next.reqs[r].calls > q.calls ==> !(cfg.locale && next.reqs[r].fetched))
            && next.reqs[r].waited == q.waited + (if next.reqs[r].phase == Polling then 10 else 0)
    decreases |st.reqs[r].mm|
  {
    var q := st.reqs[r];
    if q.mm != [] && IsLoaded(st, q.mm[0]) {
      AdvanceRecord(cfg, st.(reqs := st.reqs[r := q.(mm := q.mm[1..])]), r);
    }
  }

  function FetchedBefore(st: State, r: nat): bool {
    r < |st.reqs| && st.reqs[r].fetched
  }

  /** The milliseconds polled for, without a timer that is still running. */
  function Polled(st: State, r: nat): int {
    if r >= |st.reqs| then 0 else st.reqs[r].waited - if st.reqs[r].phase == Polling then 10 else 0
  }

  lemma StepRecord(cfg: Config, rank: map<Name, nat>, st: State, e: Event, r: nat)
    requires Acyclic(cfg.table, rank) && Inv(cfg, rank, st) && Enabled(st, e)
    ensures var next := Step(cfg, rank, st, e);
            && Owner(st, e) < |next.reqs|
            && (FetchedBefore(next, r) <==> FetchedBefore(st, r) || (Owner(st, e) == r && |next.log| > |st.log|))
            && Polled(next, r) == Polled(st, r) + (if e == Timer(r) then 10 else 0)
            && |next.reqs| >= |st.reqs|
  {
    hide Inv, Acyclic, Advance;
    match e {
      case Load(names) =>
        var q := NewRequest(names, OrderAll(cfg.table, rank, names));
        AdvanceRecord(cfg, st.(reqs := st.reqs + [q]), |st.reqs|);
      case Script(s) =>
      case Resume(s) =>
        QueueHead(cfg, rank, st, e);
        var q := st.reqs[s];
        AdvanceRecord(cfg, st.(reqs := st.reqs[s := q.(mm := q.mm[1..])]), s);
      case Timer(s) =>
        AdvanceRecord(cfg, st, s);
      case LocaleScript(s) =>
    }
  }

  lemma {:induction false} RunRecord(cfg: Config, rank: map<Name, nat>, st: State, es: seq<Event>, r: nat)
    requires Acyclic(cfg.table, rank) && Inv(cfg, rank, st)
    ensures var end := Run(cfg, rank, st, es);
            && (FetchedBefore(end, r) <==> FetchedBefore(st, r) || AsksFor(cfg, rank, st, es, r))
            && Polled(end, r) == Polled(st, r) + 10 * Timers(cfg, rank, st, es, r)
    decreases |es|
  {
    hide Inv, Acyclic, Step, Enabled, FetchedBefore, Polled;
    if es != [] {
      if Enabled(st, es[0]) {
        StepKeepsInv(cfg, rank, st, es[0]);
        StepRecord(cfg, rank, st, es[0], r);
        RunRecord(cfg, rank, Step(cfg, rank, st, es[0]), es[1..], r);
      } else {
        RunRecord(cfg, rank, st, es[1..], r);
      }
    }
  }

  /** A request waits for the locale file only if there is one and it has fetched something. */
  predicate LocaleOk(cfg: Config, st: State) {
    forall r :: 0 <= r < |st.reqs| && st.reqs[r].phase == Locale ==> cfg.locale && st.reqs[r].fetched
  }

  lemma StepLocale(cfg: Config, rank: map<Name, nat>, st: State, e: Event)
    requires Acyclic(cfg.table, rank) && Inv(cfg, rank, st) && Enabled(st, e) && LocaleOk(cfg, st)
    ensures LocaleOk(cfg, Step(cfg, rank, st, e))
    ensures forall r :: CallsBack(cfg, rank, st, e, r) ==>
              r == Owner(st, e) && (e.LocaleScript? <==> cfg.locale && FetchedBefore(Step(cfg, rank, st, e), r))
  {
    hide Inv, Acyclic, Advance;
    match e {
      case Load(names) =>
        var q := NewRequest(names, OrderAll(cfg.table, rank, names));
        AdvanceRecord(cfg, st.(reqs := st.reqs + [q]), |st.reqs|);
      case Script(s) =>
      case Resume(s) =>
        QueueHead(cfg, rank, st, e);
        var q := st.reqs[s];
        AdvanceRecord(cfg, st.(reqs := st.reqs[s := q.(mm := q.mm[1..])]), s);
      case Timer(s) =>
        AdvanceRecord(cfg, st, s);
      case LocaleScript(s) =>
    }
  }

  lemma {:induction false} RunLocale(cfg: Config, rank: map<Name, nat>, st: State, es: seq<Event>)
    requires Acyclic(cfg.table, rank) && Inv(cfg, rank, st) && LocaleOk(cfg, st)
    ensures LocaleOk(cfg, Run(cfg, rank, st, es))
    decreases |es|
  {
    hide Inv, Acyclic, Step, Enabled, LocaleOk;
    if es != [] {
      if Enabled(st, es[0]) {
        StepKeepsInv(cfg, rank, st, es[0]);
        StepLocale(cfg, rank, st, es[0]);
        RunLocale(cfg, rank, Step(cfg, rank, st, es[0]), es[1..]);
      } else {
        RunLocale(cfg, rank, st, es[1..]);
      }
    }
  }

  /** A callback that follows a run comes after the locale file iff one is configured and some step of the
      request asked for a module; without one no request waits for it. */
  lemma LocaleFirst(cfg: Config, rank: map<Name, nat>, es: seq<Event>, e: Event, r: nat)
    requires Acyclic(cfg.table, rank)
    requires Inv(cfg, rank, INITIAL) && Enabled(Run(cfg, rank, INITIAL, es), e)
    ensures e.LocaleScript? ==> cfg.locale && AsksFor(cfg, rank, INITIAL, es, e.r)
    ensures CallsBack(cfg, rank, Run(cfg, rank, INITIAL, es), e, r) ==>
              (e == LocaleScript(r) <==> cfg.locale && AsksFor(cfg, rank, INITIAL, es, r))
  {
    hide Inv, Acyclic, Advance, Run;
    var st := Run(cfg, rank, INITIAL, es);
    RunLocale(cfg, rank, INITIAL, es);
    RunRecord(cfg, rank, INITIAL, es, Owner(st, e));
    StepLocale(cfg, rank, st, e);
    StepRecord(cfg, rank, st, e, r);
    CallsWithoutFetch(cfg, rank, st, e, r);
  }

  /** The step of a callback asks for nothing. */
  lemma CallsWithoutFetch(cfg: Config, rank: map<Name, nat>, st: State, e: Event, r: nat)
    requires Acyclic(cfg.table, rank) && Inv(cfg, rank, st) && Enabled(st, e)
    ensures CallsBack(cfg, rank, st, e, r) ==> Step(cfg, rank, st, e).log == st.log
  {
    hide Inv, Acyclic, Advance;
    match e {
      case Load(names) =>
        var q := NewRequest(names, OrderAll(cfg.table, rank, names));
        AdvanceRecord(cfg, st.(reqs := st.reqs + [q]), |st.reqs|);
        CallOrFetch(cfg, st.(reqs := st.reqs + [q]), |st.reqs|);
      case Script(s) =>
      case Resume(s) =>
        QueueHead(cfg, rank, st, e);
        var q := st.reqs[s];
        AdvanceRecord(cfg, st.(reqs := st.reqs[s := q.(mm := q.mm[1..])]), s);
        CallOrFetch(cfg, st.(reqs := st.reqs[s := q.(mm := q.mm[1..])]), s);
      case Timer(s) =>
        AdvanceRecord(cfg, st, s);
        CallOrFetch(cfg, st, s);
      case LocaleScript(s) =>
    }
  }

  lemma {:induction false} CallOrFetch(cfg: Config, st: State, r: nat)
    requires r < |st.reqs|
    ensures var next := Advance(cfg, st, r);
            |next.reqs| == |st.reqs| && (next.reqs[r].calls == st.reqs[r].calls || next.log == st.log)
    decreases |st.reqs[r].mm|
  {
    var q := st.reqs[r];
    if q.mm != [] && IsLoaded(st, q.mm[0]) {
      CallOrFetch(cfg, st.(reqs := st.reqs[r := q.(mm := q.mm[1..])]), r);
    }
  }

  /** Every timer counts for ten milliseconds: a request that has given up had as many as the limit takes, and
      no request has more. */
  lemma PollsCounted(cfg: Config, rank: map<Name, nat>, es: seq<Event>, r: nat)
    requires Acyclic(cfg.table, rank) && Inv(cfg, rank, INITIAL)
    requires r < |Run(cfg, rank, INITIAL, es).reqs|
    ensures var q := Run(cfg, rank, INITIAL, es).reqs[r]; var ms := 10 * Timers(cfg, rank, INITIAL, es, r);
            && (q.phase == Dead ==> cfg.timeout <= ms)
            && (ms > 0 ==> ms < cfg.timeout + 10) && (q.phase == Polling ==> ms < cfg.timeout)
  {
    hide Acyclic, Advance, Run;
    RunRecord(cfg, rank, INITIAL, es, r);
    assert RequestOk(cfg, rank, Run(cfg, rank, INITIAL, es), Run(cfg, rank, INITIAL, es).reqs[r]);
  }

  // ----- the loader object -----

  /** The loader with its shared state.  `log` records the module scripts put into the page. */
  class Loader {
    const cfg: Config
    ghost const rank: map<Name, nat>
    var status: map<Name, Status>
    var reqs: seq<Request>
    var log: seq<Name>

    ghost function View(): State
      reads this
    {
      State(status, reqs, log)
    }

    ghost predicate Valid()
      reads this
    {
      Acyclic(cfg.table, rank) && Inv(cfg, rank, View())
    }

    constructor (cfg: Config, ghost rank: map<Name, nat>)
      requires Acyclic(cfg.table, rank)
      ensures Valid() && View() == INITIAL && this.cfg == cfg && this.rank == rank
    {
      this.cfg, this.rank := cfg, rank;
      status, reqs, log := map[], [], [];
    }

    /** Pushes a module after its dependencies. */
    method Add(mm: seq<Name>, m: Name) returns (out: seq<Name>)
      requires Acyclic(cfg.table, rank)
      ensures out == mm + Order(cfg.table, rank, m)
      decreases if m in cfg.table then rank[m] + 1 else 0
    {
      out := mm;
      if m !in cfg.table {
        return;
      }
      var d := cfg.table[m];
      for i := 0 to |d|
        invariant out == mm + OrderDeps(cfg.table, rank, m, i)
      {
        out := Add(out, d[i]);
      }
      out := out + [m];
    }

    /** A load call: builds the queue and starts working through it. */
    method LoadModules(names: seq<Name>)
      requires Valid()
      modifies this
      ensures Valid() && View() == Step(cfg, rank, old(View()), Load(names))
    {
      StepKeepsInv(cfg, rank, View(), Load(names));
      var mm := [];
      for i := 0 to |names|
        invariant mm == OrderAll(cfg.table, rank, names[..i])
        modifies {}
      {
        assert names[..i + 1][..i] == names[..i];
        mm := Add(mm, names[i]);
      }
      assert names[..|names|] == names;
      reqs := reqs + [NewRequest(names, mm)];
      Next(|reqs| - 1);
    }

    /** Works on request `r` until it has to wait. */
    method Next(r: nat)
      requires r < |reqs|
      modifies this
      ensures View() == Advance(cfg, old(View()), r)
      ensures Acyclic(cfg.table, rank) && InvBut(cfg, rank, old(View()), r) ==> Valid()
      decreases |reqs[r].mm|
    {
      if Acyclic(cfg.table, rank) && InvBut(cfg, rank, View(), r) {
        AdvanceKeepsInv(cfg, rank, View(), r);
      }
      var q := reqs[r];
      if q.mm != [] {
        var m := q.mm[0];
        if m !in status {
          status := status[m := Loading];
          log := log + [m];
          reqs := reqs[r := q.(fetched := true, phase := Fetching)];
        } else if status[m] == Loaded {
          reqs := reqs[r := q.(mm := q.mm[1..])];
          Next(r);
        } else if q.waited < cfg.timeout {
          reqs := reqs[r := q.(waited := q.waited + 10, phase := Polling)];
        } else {
          reqs := reqs[r := q.(phase := Dead)];
        }
      } else if cfg.locale && q.fetched {
        reqs := reqs[r := q.(phase := Locale)];
      } else {
        reqs := reqs[r := q.(phase := Done, calls := q.calls + 1)];
      }
    }

    /** The script that request `r` put into the page has run. */
    method ScriptLoaded(r: nat)
      requires Valid() && Enabled(View(), Script(r))
      modifies this
      ensures Valid() && View() == Step(cfg, rank, old(View()), Script(r))
    {
      StepKeepsInv(cfg, rank, View(), Script(r));
      var q := reqs[r];
      status := status[q.mm[0] := Loaded];
      reqs := reqs[r := q.(phase := Arrived)];
    }

    /** The callback that follows: drops the module and goes on. */
    method AfterScript(r: nat)
      requires Valid() && Enabled(View(), Resume(r))
      modifies this
      ensures Valid() && View() == Step(cfg, rank, old(View()), Resume(r))
    {
      StepKeepsInv(cfg, rank, View(), Resume(r));
      reqs := reqs[r := reqs[r].(mm := reqs[r].mm[1..])];
      Next(r);
    }

    method TimerFired(r: nat)
      requires Valid() && Enabled(View(), Timer(r))
      modifies this
      ensures Valid() && View() == Step(cfg, rank, old(View()), Timer(r))
    {
      StepKeepsInv(cfg, rank, View(), Timer(r));
      Next(r);
    }

    method LocaleLoaded(r: nat)
      requires Valid() && Enabled(View(), LocaleScript(r))
      modifies this
      ensures Valid() && View() == Step(cfg, rank, old(View()), LocaleScript(r))
    {
      hide Inv, Acyclic, Advance;
      StepKeepsInv(cfg, rank, View(), LocaleScript(r));
      reqs := reqs[r := reqs[r].(phase := Done, calls := reqs[r].calls + 1)];
    }
  }
}
