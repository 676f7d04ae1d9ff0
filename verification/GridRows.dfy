/** The datagrid view: the table rows on the page and how insertRow and deleteRow renumber them. */
module GridRows {
  import opened Wrappers

  /** A data row, known by its object identity. */
  type Obj = nat

  /** The highlight classes of a table row. */
  datatype Marks = Marks(selected: bool, checked: bool)

  const NO_MARKS := Marks(false, false)

  /** One `tr`: the row it shows, its datagrid-row-index, the index in its id attribute, the text of its
      row number cell (0 where the table has none), its stripe and its highlights. */
  datatype Tr = Tr(row: Obj, index: int, idIndex: int, number: int, alt: bool, marks: Marks)

  /** The options that matter for one of the two tables: stripes, whether the table has row numbers, and
      the number of rows on earlier pages. */
  datatype Options = Options(striped: bool, numbered: bool, offset: int)

  function NumberOf(opts: Options, i: int): int {
    if opts.numbered then i + 1 + opts.offset else 0
  }

  function StripeOf(opts: Options, i: int): bool {
    opts.striped && i % 2 == 1
  }

  /** What a full rendering makes of the row at index `i`. */
  function Line(opts: Options, i: int, row: Obj, marks: Marks): Tr {
    Tr(row, i, i, NumberOf(opts, i), StripeOf(opts, i), marks)
  }

  /** The table after a full rendering of `rows`, with the given highlights. */
  function Rendered(opts: Options, rows: seq<Obj>, marks: seq<Marks>): (trs: seq<Tr>)
    requires |marks| == |rows|
  {
    seq(|rows|, i requires 0 <= i < |rows| => Line(opts, i, rows[i], marks[i]))
  }

  function MarksOf(trs: seq<Tr>): seq<Marks> {
    seq(|trs|, i requires 0 <= i < |trs| => trs[i].marks)
  }

  /** The table is what a full rendering of `rows` would give. */
  predicate InStep(opts: Options, rows: seq<Obj>, trs: seq<Tr>) {
    |trs| == |rows| && trs == Rendered(opts, rows, MarksOf(trs))
  }

  /** What that says of each line: it shows its row, both of its indexes are its position, its number counts on
      from the pages before, and every second line is striped, beginning with the second one. */
  lemma InStepMeans(opts: Options, rows: seq<Obj>, trs: seq<Tr>)
    ensures InStep(opts, rows, trs) <==>
              && |trs| == |rows|
              && forall i :: 0 <= i < |trs| ==>
                   && trs[i].row == rows[i] && trs[i].index == trs[i].idIndex == i
                   && trs[i].number == (if opts.numbered then opts.offset + i + 1 else 0)
                   && (trs[i].alt <==> opts.striped && i % 2 == 1)
  {
    if |trs| == |rows| {
      var all := Rendered(opts, rows, MarksOf(trs));
      assert forall i :: 0 <= i < |trs| ==> all[i] == Line(opts, i, rows[i], trs[i].marks);
    }
  }

  /** The renderTable loop, which builds the table with a running index. */
  method RenderTable(opts: Options, rows: seq<Obj>) returns (trs: seq<Tr>)
    ensures trs == Rendered(opts, rows, seq(|rows|, _ => NO_MARKS)) && InStep(opts, rows, trs)
  {
    trs := [];
    var index := 0;
    for i := 0 to |rows|
      invariant index == i == |trs|
      invariant forall j :: 0 <= j < i ==> trs[j] == Line(opts, j, rows[j], NO_MARKS)
    {
      var number := if opts.numbered then index + 1 + opts.offset else 0;
      var alt := opts.striped && index % 2 != 0;
      trs := trs + [Tr(rows[i], index, index, number, alt, NO_MARKS)];
      index := index + 1;
    }
  }

  /** The first line whose id attribute carries the index. */
  function FindId(trs: seq<Tr>, i: int): (j: Option<nat>)
    ensures j.Some? ==> j.value < |trs| && trs[j.value].idIndex == i
                        && forall k :: 0 <= k < j.value ==> trs[k].idIndex != i
    ensures j.None? ==> forall k :: 0 <= k < |trs| ==> trs[k].idIndex != i
  {
    if trs == [] then None
    else if trs[0].idIndex == i then Some(0)
    else
      var rest := FindId(trs[1..], i);
      assert forall k :: 0 < k < |trs| ==> trs[k] == trs[1..][k - 1];
      if rest.Some? then Some(rest.value + 1) else None
  }

  /** The first line whose datagrid-row-index is the index. */
  function FindIndex(trs: seq<Tr>, i: int): (j: Option<nat>)
    ensures j.Some? ==> j.value < |trs| && trs[j.value].index == i
                        && forall k :: 0 <= k < j.value ==> trs[k].index != i
    ensures j.None? ==> forall k :: 0 <= k < |trs| ==> trs[k].index != i
  {
    if trs == [] then None
    else if trs[0].index == i then Some(0)
    else
      var rest := FindIndex(trs[1..], i);
      assert forall k :: 0 < k < |trs| ==> trs[k] == trs[1..][k - 1];
      if rest.Some? then Some(rest.value + 1) else None
  }

  /** The lookup of a line: by its id attribute, and failing that by its datagrid-row-index. */
  function Find(trs: seq<Tr>, i: int): (j: Option<nat>)
    ensures j.Some? ==> j.value < |trs|
  {
    if FindId(trs, i).Some? then FindId(trs, i) else FindIndex(trs, i)
  }

  lemma FindAt(trs: seq<Tr>, j: nat, i: int)
    requires j < |trs| && trs[j].idIndex == i && forall k :: 0 <= k < j ==> trs[k].idIndex != i
    ensures Find(trs, i) == Some(j)
  {
    var found := FindId(trs, i);
    assert trs[j].idIndex == i;
    assert found.Some?;
  }

  /** Gives the table row that is looked up as `from` the index `to`. */
  function Renumber(opts: Options, trs: seq<Tr>, from: int, to: int): seq<Tr> {
    var j := Find(trs, from);
    if j.None? then trs
    else
      var tr := trs[j.value];
      trs[j.value := tr.(index := to, idIndex := to,
                         number := if opts.numbered then to + 1 + opts.offset else tr.number,
                         alt := if opts.striped then to % 2 != 0 else tr.alt)]
  }

  /** The loop of insertRow over the rows from the last one down to `at`: each look-up finds the row meant. */
  method ShiftUp(opts: Options, rows: seq<Obj>, trs: seq<Tr>, at: nat) returns (out: seq<Tr>)
    requires at <= |rows|
    ensures InStep(opts, rows, trs) ==>
              && |out| == |rows|
              && (forall j :: 0 <= j < at ==> out[j] == trs[j])
              && (forall j :: at <= j < |rows| ==> out[j] == Line(opts, j + 1, rows[j], trs[j].marks))
    ensures trs == [] ==> out == []
  {
    out := trs;
    var i := |rows| - 1;
    while i >= at
      invariant at - 1 <= i < |rows|
      invariant InStep(opts, rows, trs) ==>
                  && |out| == |rows|
                  && (forall j :: 0 <= j <= i ==> out[j] == trs[j])
                  && (forall j :: i < j < |rows| ==> out[j] == Line(opts, j + 1, rows[j], trs[j].marks))
      invariant trs == [] ==> out == []
    {
      if InStep(opts, rows, trs) {
        FindAt(out, i, i);
      }
      out := Renumber(opts, out, i, i + 1);
      i := i - 1;
    }
  }

  /** The loop of deleteRow over the rows behind `at`, after row `at` has left the page. */
  method ShiftDown(opts: Options, rows: seq<Obj>, trs: seq<Tr>, at: nat, ghost was: seq<Tr>) returns (out: seq<Tr>)
    requires at < |rows|
    requires InStep(opts, rows, was) ==> trs == was[..at] + was[at + 1..]
    ensures InStep(opts, rows, was) ==>
              && |out| == |rows| - 1
              && (forall j :: 0 <= j < at ==> out[j] == was[j])
              && (forall j :: at <= j < |rows| - 1 ==> out[j] == Line(opts, j, rows[j + 1], was[j + 1].marks))
    ensures trs == [] ==> out == []
  {
    out := trs;
    var i := at + 1;
    while i < |rows|
      invariant at + 1 <= i <= |rows|
      invariant InStep(opts, rows, was) ==>
                  && |out| == |rows| - 1
                  && (forall j :: 0 <= j < at ==> out[j] == was[j])
                  && (forall j :: at <= j < i - 1 ==> out[j] == Line(opts, j, rows[j + 1], was[j + 1].marks))
                  && (forall j :: i - 1 <= j < |rows| - 1 ==> out[j] == was[j + 1])
      invariant trs == [] ==> out == []
    {
      if InStep(opts, rows, was) {
        FindAt(out, i - 1, i);
      }
      out := Renumber(opts, out, i, i - 1);
      i := i + 1;
    }
  }

  /** Puts the bare `tr` of the new row into the table, in front of the row that now has index at + 1. */
  method AddTr(rows: seq<Obj>, trs: seq<Tr>, at: nat, row: Obj) returns (out: seq<Tr>)
    requires at <= |rows|
    ensures rows == [] ==> out == [Tr(row, at, at, 0, false, NO_MARKS)]
    ensures rows != [] && trs == [] ==> out == []
    ensures rows != [] && |trs| == |rows|
            && (forall j :: 0 <= j < |trs| ==> trs[j].idIndex == if j < at then j else j + 1) ==>
              out == trs[..at] + [Tr(row, at, at, 0, false, NO_MARKS)] + trs[at..]
  {
    var tr := Tr(row, at, at, 0, false, NO_MARKS);
    if at >= |rows| {
      if rows != [] {
        out := if trs == [] then [] else trs + [tr];
      } else {
        out := [tr];
      }
    } else {
      var j := Find(trs, at + 1);
      assert at < |trs| && trs[at].idIndex == at + 1 && (forall k :: 0 <= k < at ==> trs[k].idIndex != at + 1) ==>
        j == Some(at);
      out := if j.Some? then trs[..j.value] + [tr] + trs[j.value..] else trs;
    }
  }

  /** Renders one row of the table afresh. */
  function Refresh(opts: Options, trs: seq<Tr>, at: nat): seq<Tr> {
    var j := Find(trs, at);
    if j.None? then trs
    else
      var tr := trs[j.value];
      trs[j.value := tr.(number := NumberOf(opts, at), alt := tr.alt || StripeOf(opts, at))]
  }

  /** insertRow on one table: the result is what a full rendering of the new rows would give, with the
      highlights of the old rows kept and none on the new one. */
  method InsertInto(opts: Options, rows: seq<Obj>, trs: seq<Tr>, at: nat, row: Obj) returns (out: seq<Tr>)
    requires at <= |rows|
    ensures rows == [] || InStep(opts, rows, trs) ==>
              var was := if rows == [] then [] else MarksOf(trs);
              out == Rendered(opts, rows[..at] + [row] + rows[at..], was[..at] + [NO_MARKS] + was[at..])
    ensures rows != [] && trs == [] ==> out == []
  {
    var shifted := ShiftUp(opts, rows, trs, at);
    var added := AddTr(rows, shifted, at, row);
    out := Refresh(opts, added, at);
    if rows == [] || InStep(opts, rows, trs) {
      InsertedInStep(opts, rows, if rows == [] then [] else trs, at, row, if rows == [] then [] else shifted, added);
    }
  }

  lemma InsertedInStep(opts: Options, rows: seq<Obj>, was: seq<Tr>, at: nat, row: Obj, shifted: seq<Tr>, added: seq<Tr>)
    requires at <= |rows| && InStep(opts, rows, was) && |shifted| == |rows|
    requires forall j :: 0 <= j < at ==> shifted[j] == was[j]
    requires forall j :: at <= j < |rows| ==> shifted[j] == Line(opts, j + 1, rows[j], was[j].marks)
    requires added == shifted[..at] + [Tr(row, at, at, 0, false, NO_MARKS)] + shifted[at..]
    ensures Refresh(opts, added, at)
         == Rendered(opts, rows[..at] + [row] + rows[at..], MarksOf(was)[..at] + [NO_MARKS] + MarksOf(was)[at..])
  {
    var tr := Tr(row, at, at, 0, false, NO_MARKS);
    var ms := MarksOf(was);
    var newRows, newMarks := rows[..at] + [row] + rows[at..], ms[..at] + [NO_MARKS] + ms[at..];
    forall j | 0 <= j < |added|
      ensures added[j] == if j == at then tr else Line(opts, j, newRows[j], newMarks[j])
    {
      if j < at {
        assert added[j] == shifted[j] == was[j];
        assert was[j] == Rendered(opts, rows, ms)[j];
      } else if j > at {
        assert added[j] == shifted[j - 1];
      }
    }
    FindAt(added, at, at);
    var out, target := Refresh(opts, added, at), Rendered(opts, newRows, newMarks);
    assert newRows[at] == row && newMarks[at] == NO_MARKS;
    forall j | 0 <= j < |out| ensures out[j] == target[j] {
    }
  }

  /** deleteRow on one table: again the result is what a full rendering would give. */
  method DeleteFrom(opts: Options, rows: seq<Obj>, trs: seq<Tr>, at: nat) returns (out: seq<Tr>)
    requires at < |rows|
    ensures InStep(opts, rows, trs) ==>
              var was := MarksOf(trs);
              out == Rendered(opts, rows[..at] + rows[at + 1..], was[..at] + was[at + 1..])
    ensures trs == [] ==> out == []
  {
    var j := Find(trs, at);
    assert InStep(opts, rows, trs) ==> trs[at].idIndex == at && j == Some(at);
    var left := if j.Some? then trs[..j.value] + trs[j.value + 1..] else trs;
    out := ShiftDown(opts, rows, left, at, trs);
    if InStep(opts, rows, trs) {
      DeletedInStep(opts, rows, trs, at, out);
    }
  }

  lemma DeletedInStep(opts: Options, rows: seq<Obj>, was: seq<Tr>, at: nat, out: seq<Tr>)
    requires at < |rows| && InStep(opts, rows, was) && |out| == |rows| - 1
    requires forall j :: 0 <= j < at ==> out[j] == was[j]
    requires forall j :: at <= j < |out| ==> out[j] == Line(opts, j, rows[j + 1], was[j + 1].marks)
    ensures out == Rendered(opts, rows[..at] + rows[at + 1..], MarksOf(was)[..at] + MarksOf(was)[at + 1..])
  {
    var target := Rendered(opts, rows[..at] + rows[at + 1..], MarksOf(was)[..at] + MarksOf(was)[at + 1..]);
    forall j | 0 <= j < |out| ensures out[j] == target[j] {
    }
  }

  /** The grid: its rows and total, and the two tables that show them side by side. */
  class Grid {
    const striped: bool
    const rownumbers: bool
    const offset: int
    var rows: seq<Obj>
    var total: int
    var frozen: seq<Tr>
    var body: seq<Tr>

    function Opts(isFrozen: bool): Options {
      Options(striped, isFrozen && rownumbers, offset)
    }

    /** The tables show the rows; the frozen one is absent without row numbers and frozen columns. */
    ghost predicate Valid()
      reads this
    {
      rows != [] ==> InStep(Opts(false), rows, body) && (frozen == [] || InStep(Opts(true), rows, frozen))
    }

    constructor (striped: bool, rownumbers: bool, offset: int)
      ensures Valid() && rows == [] && total == 0
    {
      this.striped, this.rownumbers, this.offset := striped, rownumbers, offset;
      rows, total, frozen, body := [], 0, [], [];
    }

    /** Renders new rows; `hasFrozen` tells whether there is a frozen table. */
    method Show(rows: seq<Obj>, total: int, hasFrozen: bool)
      modifies this
      ensures Valid() && this.rows == rows && this.total == total
      ensures InStep(Opts(false), rows, body) && (hasFrozen ==> InStep(Opts(true), rows, frozen))
      ensures forall i :: 0 <= i < |rows| ==>
                body[i].row == rows[i] && body[i].number == 0 && body[i].marks == Marks(false, false)
      ensures if hasFrozen then
                forall i :: 0 <= i < |rows| ==>
                  frozen[i].row == rows[i] && frozen[i].number == if rownumbers then offset + i + 1 else 0
              else frozen == []
    {
      this.rows, this.total := rows, total;
      body := RenderTable(Opts(false), rows);
      if hasFrozen {
        frozen := RenderTable(Opts(true), rows);
      } else {
        frozen := [];
      }
    }

    /** The view's insertRow; without an index, or with one too large, the row goes to the end. */
    method InsertRow(index: Option<nat>, row: Obj)
      requires Valid()
      modifies this
      ensures Valid() && total == old(total) + 1
      ensures var at := if index.Some? && index.value <= |old(rows)| then index.value else |old(rows)|;
              var was := if old(rows) == [] then [] else MarksOf(old(body));
              && rows == old(rows)[..at] + [row] + old(rows)[at..]
              && body == Rendered(Opts(false), rows, was[..at] + [NO_MARKS] + was[at..])
      ensures old(rows) == [] || InStep(Opts(true), old(rows), old(frozen)) ==>
                var at := if index.Some? && index.value <= |old(rows)| then index.value else |old(rows)|;
                var was := if old(rows) == [] then [] else MarksOf(old(frozen));
                frozen == Rendered(Opts(true), rows, was[..at] + [NO_MARKS] + was[at..])
    {
      var at := if index.Some? then index.value else |rows|;
      if at > |rows| {
        at := |rows|;
      }
      frozen := InsertInto(Opts(true), rows, frozen, at, row);
      body := InsertInto(Opts(false), rows, body, at, row);
      total := total + 1;
      rows := rows[..at] + [row] + rows[at..];
    }

    /** The view's deleteRow. */
    method DeleteRow(at: nat)
      requires Valid() && at < |rows|
      modifies this
      ensures Valid() && total == old(total) - 1
      ensures var was := MarksOf(old(body));
              && rows == old(rows)[..at] + old(rows)[at + 1..]
              && body == Rendered(Opts(false), rows, was[..at] + was[at + 1..])
      ensures InStep(Opts(true), old(rows), old(frozen)) ==>
                var was := MarksOf(old(frozen));
                frozen == Rendered(Opts(true), rows, was[..at] + was[at + 1..])
    {
      frozen := DeleteFrom(Opts(true), rows, frozen, at);
      body := DeleteFrom(Opts(false), rows, body, at);
      total := total - 1;
      rows := rows[..at] + rows[at + 1..];
    }
  }
}
