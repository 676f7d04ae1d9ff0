# Data widgets of the log console: a Dafny model

The console's pages run on jQuery EasyUI 1.4.2.  Below its widgets lie data structures, a small protocol and some
arithmetic; this project models those parts, without the page, and proves what they keep.  Paths are relative to the
root of the repository; the widgets are under `yz-framework-bizlogging-consumer/src/main/webapp/js/`.

`dafny verify dfyconfig.toml` checks everything.

| file | what it models |
|---|---|
| `Wrappers.dfy` | a value that may be missing |
| `Forest.dfy` | forests of nodes: identities, lookup, parents, preorder listings |
| `Checks.dfy` | what consistent tri-state checkboxes mean, and how edits of the forest affect them |
| `Moves.dfy` | taking a subtree out and putting it in, as changes of the preorder listing |
| `Tree.dfy` | the tree widget: traversal, checking, loading, append, insert, remove, drag and drop |
| `Transfer.dfy` | the treegrid's conversion of flat rows with parent ids into a forest |
| `FlatForest.dfy` | the forest of nodes that those rows make |
| `TreeGrid.dfy` | the treegrid's queries and edits by id |
| `Sort.dfy` | the multi-column comparator and the recursive sort |
| `EasyLoader.dfy` | the module loader as a protocol of interleaved load requests |
| `GridRows.dfy` | the datagrid's incremental row renumbering against a full render |
| `Changes.dfy` | the datagrid's change lists and rollback |
| `Selection.dfy` | selected and checked rows, kept by id across pages, and the highlights |
| `Columns.dfy` | filling the header grid with row and column spans |
| `FitColumns.dfy` | sharing the free width among the columns, with a carried remainder |
| `Calendar.dfy` | the month grid, over the day numbers of ECMA-262 5.1, sections 15.9.1.3 to 15.9.1.6 and 15.9.1.12 |
| `Groups.dfy` | grouped rows of the datalist and the propertygrid |
| `Texts.dfy` | trimming, taking out and replacing in strings |
| `Pattern.dfy` | the regular expressions that the numberbox builds from a separator or an affix |
| `NumberBox.dfy` | showing a number with grouped digits, and the steps of reading it |
| `Affixes.dfy` | what the steps for the prefix and the suffix leave around a number |
| `ReadBack.dfy` | the parser, and which affixes let a number read back |
| `Separators.dfy` | which separators do |
| `Limits.dfy` | when its limits hold for whatever is typed |

How the program shows up in the model:

- A page element's class or attribute is a field: a checkbox is a value in a map, a table row an entry of a list.  The
  document's nesting is taken to mirror the data, so climbing from an element to its parent element is climbing from a
  node to its parent.
- A tree node is known by its object identity, a treegrid row by its id; 0 stands for an absent or falsy parent id.
- A list that the program changes by `splice`, `push` or `concat` is a field of sequence type that methods reassign.
- The loader's scripts arrive, and its timers fire, as events in any order; the callback that follows a script is an
  event of its own, because another callback can come in between.
- A library call whose choice is open is a parameter: any array sort that returns an ordered permutation will do.

Places where a promise does not hold, each with its exact condition:

- An empty reload of a half-checked tree node leaves it mixed (`Trees.EmptyLoad`, `Trees.EmptyReloadBreaks`).
- A load of nested treegrid rows below a row that is not there makes them roots with a wrong parent id
  (`TreeGrids.TreeGrid.Load`, `TreeGrids.LoadBelowMissingBreaks`), and so does a load of flat rows
  (`TreeGrids.TreeGrid.LoadFlat`, `TreeGrids.LoadFlatBelowMissingBreaks`).
- `selectAll` ignores single-select mode (`Selections.Selection.SelectAll`, `Selections.SelectAllBreaks`).
- A row inserted with an id that is selected or checked is shown without its highlight (`Selections.PlayOne`,
  `Selections.InsertSelectedBreaks`).
- The propertygrid's `insertRow` leaves the start indexes of later groups one short, and a `deleteRow` in such a group
  then takes the wrong row out of the group (`Groups.InsertThenDelete`, `Groups.InsertThenDeleteBreaks`, `Groups.Play`).
- The month grid for January of the year 100 reads the year 99 back as 1999, and there is none for months that end
  after the last day of `Date` (`Calendars.Weeks`, `Calendars.SpoiledIff`, `Calendars.EndOfTime`).
- The numberbox reads back every value that it shows only with some separators: the dollar sign and some letters fail
  as group separator, and so do the minus sign, these letters and the group separator as decimal separator
  (`SeparatorRules.SeparatorsThatWork`, at inputs `SeparatorRules.DollarFails`, `SeparatorRules.PointFails`,
  `SeparatorRules.MinusFails`, `SeparatorRules.SpecialFails`, `SeparatorRules.DecimalFails`).
- A limit of the numberbox that has more decimals than the box is rounded, and the result can then be beyond it
  (`Limits.LimitsHold`, `Limits.ExactLimits`, `Limits.RoundedLimit`).
- The parser puts a backslash before an affix and takes it for a regular expression, so that the prefix "R$" or the
  suffix "d" loses every value, and two affixes can spoil or mend each other (`ReadBacks.AffixesReadBack`,
  `ReadBacks.PrefixReadsBack`, `ReadBacks.SuffixReadsBack`, `ReadBacks.OneCharPrefix`, `ReadBacks.OneCharSuffix`, at
  inputs `ReadBacks.RealPrefixFails`, `ReadBacks.DaySuffixFails`, `ReadBacks.PairsDiffer`).

## Model

| member | source | states |
|---|---|---|
| `Trees.Walk` | yz-framework-bizlogging-consumer/src/main/webapp/js/plugins/jquery.tree.js:868-884 | The explicit-stack loop visits the nodes in recursive preorder, up to and including the first one whose callback answers false. |
| `Trees.LookupIsFirst` | yz-framework-bizlogging-consumer/src/main/webapp/js/plugins/jquery.tree.js:851-861 | Structural lookup is the first match in preorder. |
| `Trees.Tree.Find` | yz-framework-bizlogging-consumer/src/main/webapp/js/plugins/jquery.tree.js:851-861 | The search built on the stack loop returns the structural lookup. |
| `Checks.BoxMeaning` | yz-framework-bizlogging-consumer/src/main/webapp/js/plugins/jquery.tree.js:309-342 | In a consistent tree a node is 1 iff all leaves below it are 1, 0 iff all are 0, and 2 in every other case. |
| `Checks.LeavesDetermine` | yz-framework-bizlogging-consumer/src/main/webapp/js/plugins/jquery.tree.js:309-342 | Two consistent markings that agree on the leaves agree everywhere. |
| `Checks.ClimbStep` | yz-framework-bizlogging-consumer/src/main/webapp/js/plugins/jquery.tree.js:309-326 | One climbing step: setting the parent from its children leaves only the ancestors of the parent in doubt. |
| `Trees.Tree.SiblingsAre` | yz-framework-bizlogging-consumer/src/main/webapp/js/plugins/jquery.tree.js:327-342 | The scan of a node and its siblings answers whether all carry the class. |
| `Trees.Tree.Paint` | yz-framework-bizlogging-consumer/src/main/webapp/js/plugins/jquery.tree.js:273-308 | Cascading down gives the node and its whole subtree one class and touches nothing else. |
| `Trees.Tree.Climb` | yz-framework-bizlogging-consumer/src/main/webapp/js/plugins/jquery.tree.js:309-326 | The climbing loop mends all ancestors, touches no other node and leaves the whole tree consistent. |
| `Trees.Tree.Check` | yz-framework-bizlogging-consumer/src/main/webapp/js/plugins/jquery.tree.js:235-343 | Check, uncheck and toggle: whatever state the subtree and the ancestors of the node were in, the tree ends consistent; its leaves become checked or unchecked, all other leaves keep their state, and only the subtree and the ancestors change. |
| `Trees.Tree.Census` | yz-framework-bizlogging-consumer/src/main/webapp/js/plugins/jquery.tree.js:371-384 | The all-checked / none-checked scan over the descendants. |
| `Trees.Tree.Recheck` | yz-framework-bizlogging-consumer/src/main/webapp/js/plugins/jquery.tree.js:344-392 | After its children changed, a parent that was 1 or 0 with children to match, or 2, ends consistent with the rest, and no leaf changes: the scan agrees with the aggregate of the remaining children. |
| `Checks.BelowParent` | yz-framework-bizlogging-consumer/src/main/webapp/js/plugins/jquery.tree.js:371-384 | When only one parent is in doubt, the tree is consistent iff that parent is what its children make of it; and what its children say is what all the leaves below say. |
| `Trees.Tree.Load` | yz-framework-bizlogging-consumer/src/main/webapp/js/plugins/jquery.tree.js:393-442 | A load puts the items in place, below a node or at the top, replacing or appending; a non-empty load ends consistent, the kept leaves keep their state and exactly the flagged leaves, and those below flagged nodes, are checked besides.  An empty load ends consistent iff it appends, has no parent or the parent was not half checked.  The fields that checks leave on the node objects are given too. |
| `Trees.FlaggedIs` | yz-framework-bizlogging-consumer/src/main/webapp/js/plugins/jquery.tree.js:424-437 | What a load leaves in the field of a node: checked for flagged nodes, unchecked for the first root without the flag, else what was there. |
| `Trees.EmptyLoad` | yz-framework-bizlogging-consumer/src/main/webapp/js/plugins/jquery.tree.js:393-442 | The exact condition for an empty load to keep the boxes consistent. |
| `Trees.EmptyReloadBreaks` | yz-framework-bizlogging-consumer/src/main/webapp/js/plugins/jquery.tree.js:393-442 | A half-checked node that is reloaded with nothing: the concrete tree for which the boxes do not stay consistent. |
| `Trees.Tree.Append` | yz-framework-bizlogging-consumer/src/main/webapp/js/plugins/jquery.tree.js:665-694 | append keeps the boxes consistent, puts the items after the children and checks exactly what their flags say. |
| `Trees.Tree.Insert` | yz-framework-bizlogging-consumer/src/main/webapp/js/plugins/jquery.tree.js:695-726 | insert: append, then splices; the items end up next to the reference node and the boxes stay consistent. |
| `Trees.Tree.Remove` | yz-framework-bizlogging-consumer/src/main/webapp/js/plugins/jquery.tree.js:727-754 | remove takes the subtree out, keeps the boxes consistent and keeps every leaf; a checked parent that loses its last child stays a checked leaf. |
| `Trees.Tree.Pop` | yz-framework-bizlogging-consumer/src/main/webapp/js/plugins/jquery.tree.js:1095-1098 | pop returns the removed subtree with the checked flags that its boxes had. |
| `Trees.Tree.Drop` | yz-framework-bizlogging-consumer/src/main/webapp/js/plugins/jquery.tree.js:208-233 | A drag and drop on a node outside the dragged subtree: the forest is the one the move means, the boxes are consistent, every remaining leaf keeps its state; the fields of the moved nodes that were checked, and of the moved node, follow their boxes, and apart from those of the two parents all others stay. |
| `Moves.RemovedListing` | yz-framework-bizlogging-consumer/src/main/webapp/js/plugins/jquery.tree.js:742-753 | Removing a node cuts exactly its own lines out of the preorder listing with depths. |
| `Moves.InsertedListing` | yz-framework-bizlogging-consumer/src/main/webapp/js/plugins/jquery.tree.js:705-713 | Inserting next to a node puts the new lines just before its line, or just after its subtree. |
| `Moves.AppendedListing` | yz-framework-bizlogging-consumer/src/main/webapp/js/plugins/jquery.tree.js:684-690 | Appending to a node puts the new lines just after its subtree, one level deeper. |
| `Moves.MoveIsBlockMove` | yz-framework-bizlogging-consumer/src/main/webapp/js/plugins/jquery.tree.js:208-233 | A move changes the listing by moving one contiguous block, to just before the target or just after its subtree, shifted in depth as one; all other lines stay as they are. |
| `Forest.ListingDeterminesForest` | yz-framework-bizlogging-consumer/src/main/webapp/js/plugins/jquery.tree.js:868-884 | The preorder listing with depths determines the forest, so the block move says all there is to say. |
| `Transfers.Take` | yz-framework-bizlogging-consumer/src/main/webapp/js/plugins/jquery.treegrid.js:1020-1033 | The inner splice loop takes exactly the rows of one parent, in order, and keeps the others in order. |
| `Transfers.Transfer` | yz-framework-bizlogging-consumer/src/main/webapp/js/plugins/jquery.treegrid.js:994-1037 | Flat rows with unique ids: the roots are the rows whose parent is the root; every row reached gets exactly the rows that name it, in input order, after the children it had; what is left over is exactly the rows whose parent chain does not end in the root. |
| `Transfers.Step` | yz-framework-bizlogging-consumer/src/main/webapp/js/plugins/jquery.treegrid.js:1018-1035 | One turn of the worklist keeps its invariant, and the rows waiting drop by the row handled. |
| `Transfers.PlacedIff` | yz-framework-bizlogging-consumer/src/main/webapp/js/plugins/jquery.treegrid.js:994-1037 | A row is placed iff its parent is the root or a placed row. |
| `Transfers.LeftOutIff` | yz-framework-bizlogging-consumer/src/main/webapp/js/plugins/jquery.treegrid.js:1018-1035 | The left-over rows are exactly those below ids from which no parent chain leads to the root: orphans, rows that name each other in a circle, and whatever hangs below them. |
| `Transfers.Conserved` | yz-framework-bizlogging-consumer/src/main/webapp/js/plugins/jquery.treegrid.js:994-1037 | Attached rows and left-over rows together are the input as a multiset, and the attached rows are just the child lists of the rows reached. |
| `TreeGrids.Find` | yz-framework-bizlogging-consumer/src/main/webapp/js/plugins/jquery.treegrid.js:266-283 | The breadth-first queue search equals the structural lookup when ids are unique. |
| `TreeGrids.TreeGrid.GetParent` | yz-framework-bizlogging-consumer/src/main/webapp/js/plugins/jquery.treegrid.js:223-230 | Two searches by id give the row that holds the row. |
| `TreeGrids.TreeGrid.GetChildren` | yz-framework-bizlogging-consumer/src/main/webapp/js/plugins/jquery.treegrid.js:231-255 | Searching anew for every row still yields the proper descendants in preorder (or all rows). |
| `TreeGrids.TreeGrid.Climb` | yz-framework-bizlogging-consumer/src/main/webapp/js/plugins/jquery.treegrid.js:397-406 | The parent loop of expandTo ends, with exactly the ancestors, root first. |
| `TreeGrids.TreeGrid.ExpandTo` | yz-framework-bizlogging-consumer/src/main/webapp/js/plugins/jquery.treegrid.js:397-409 | All ancestors end expanded and nothing else changes. |
| `TreeGrids.LinkedAt` | yz-framework-bizlogging-consumer/src/main/webapp/js/plugins/jquery.treegrid.js:223-230 | In a grid whose parent ids are right, the parent id of a row is the id of the row that holds it. |
| `TreeGrids.MarkedLinks` | yz-framework-bizlogging-consumer/src/main/webapp/js/plugins/jquery.treegrid.js:938-947 | Writing the parent ids of nested rows makes them right for these rows and touches no other. |
| `TreeGrids.TreeGrid.Load` | yz-framework-bizlogging-consumer/src/main/webapp/js/plugins/jquery.treegrid.js:119-150 | A load of nested rows: the new forest outright, and unique non-falsy ids with right parent ids are kept iff the parent is absent on purpose, is there, or nothing is loaded. |
| `TreeGrids.LoadBelowMissingBreaks` | yz-framework-bizlogging-consumer/src/main/webapp/js/plugins/jquery.treegrid.js:929-957 | A load below a row that is not there: the concrete grid whose parent ids then are wrong. |
| `TreeGrids.TreeGrid.LoadFlat` | yz-framework-bizlogging-consumer/src/main/webapp/js/plugins/jquery.treegrid.js:919-957 | A load of flat rows: the new forest outright; unique non-falsy ids with right parent ids are kept iff the parent is absent on purpose, is there, or no row names it; the new nodes are exactly the rows placed, and each holds the rows that name it in input order. |
| `TreeGrids.LoadFlatBelowMissingBreaks` | yz-framework-bizlogging-consumer/src/main/webapp/js/plugins/jquery.treegrid.js:919-957 | The same load for one flat row: the concrete grid whose parent ids then are wrong. |
| `TreeGrids.TreeGrid.Assemble` | yz-framework-bizlogging-consumer/src/main/webapp/js/plugins/jquery.treegrid.js:994-1037 | transfer started without child arrays returns the rows that name the root, and for every row placed the rows that name it; the nodes made from these have exactly these heads and children. |
| `FlatForests.BuiltIds` | yz-framework-bizlogging-consumer/src/main/webapp/js/plugins/jquery.treegrid.js:994-1037 | Flat rows with unique ids make a forest with unique ids that has exactly the rows placed. |
| `FlatForests.BuiltHolds` | yz-framework-bizlogging-consumer/src/main/webapp/js/plugins/jquery.treegrid.js:994-1037 | Every node of that forest holds the rows that name it, in input order. |
| `TreeGrids.BuiltLinked` | yz-framework-bizlogging-consumer/src/main/webapp/js/plugins/jquery.treegrid.js:994-1037 | In that forest the parent ids that the rows bring along are right. |
| `TreeGrids.TreeGrid.Append` | yz-framework-bizlogging-consumer/src/main/webapp/js/plugins/jquery.treegrid.js:410-426 | append keeps the invariant and puts the rows after the children. |
| `TreeGrids.TreeGrid.Insert` | yz-framework-bizlogging-consumer/src/main/webapp/js/plugins/jquery.treegrid.js:427-442 | insert appends and moves the last row: the row ends up next to the reference row and the invariant is kept. |
| `TreeGrids.TreeGrid.Remove` | yz-framework-bizlogging-consumer/src/main/webapp/js/plugins/jquery.treegrid.js:904-919 | deleteRow takes out exactly the subtree and keeps the invariant. |
| `Sorts.ComparatorIsTotalPreorder` | yz-framework-bizlogging-consumer/src/main/webapp/js/plugins/jquery.treegrid.js:970-986 | If each column sorter is a total preorder, so is the comparator over any number of columns, each with its own direction. |
| `Sorts.CompareRows` | yz-framework-bizlogging-consumer/src/main/webapp/js/plugins/jquery.datagrid.js:1027-1042 | The comparator loop is the lexicographic comparison by the columns. |
| `Sorts.Direction` | yz-framework-bizlogging-consumer/src/main/webapp/js/plugins/jquery.datagrid.js:1027-1042 | By the sorters themselves: the first column whose sorter tells two rows apart decides, and puts the smaller one first if it is ascending and last if it is descending. |
| `Sorts.SortRows` | yz-framework-bizlogging-consumer/src/main/webapp/js/plugins/jquery.treegrid.js:969-993 | The recursive sort leaves every list of siblings in order, for any array sort that returns an ordered permutation: earlier and later siblings differ, if at all, first in a column whose sorter and direction put the earlier one first.  Who holds whom stays as it was. |
| `Sorts.OneColumn` | yz-framework-bizlogging-consumer/src/main/webapp/js/plugins/jquery.treegrid.js:969-993 | Sorted by one column, siblings rise by its sorter if it is ascending and fall if it is descending. |
| `Sorts.EdgesKeepUnique` | yz-framework-bizlogging-consumer/src/main/webapp/js/plugins/jquery.treegrid.js:969-993 | Keeping who holds whom, and the number of rows, keeps ids unique. |
| `Sorts.InsertionIsArraySort` | yz-framework-bizlogging-consumer/src/main/webapp/js/plugins/jquery.treegrid.js:971-986 | What is asked of an array sort can be met: insertion meets it. |
| `Sorts.DefaultIsTotalPreorder` | yz-framework-bizlogging-consumer/src/main/webapp/js/plugins/jquery.treegrid.js:977-979 | The sorter of a column that names none is a total preorder and follows the order of the values. |
| `EasyLoaders.OrderDepsFirst` | yz-framework-bizlogging-consumer/src/main/webapp/js/easyloader.js:97-108 | The post-order queue has every known dependency before the module that needs it. |
| `EasyLoaders.QueueInOrder` | yz-framework-bizlogging-consumer/src/main/webapp/js/easyloader.js:89-108 | The queue is in the order of the calls: names one after the other, each module right after what its dependencies push, in their order. |
| `EasyLoaders.SmallTable` | yz-framework-bizlogging-consumer/src/main/webapp/js/easyloader.js:89-108 | A table of two modules: the one that is needed comes first. |
| `EasyLoaders.StepKeepsInv` | yz-framework-bizlogging-consumer/src/main/webapp/js/easyloader.js:87-148 | Every event, of any request, keeps the invariant of the shared status map and of all requests. |
| `EasyLoaders.RunIsSafe` | yz-framework-bizlogging-consumer/src/main/webapp/js/easyloader.js:50-148 | For every interleaving of any number of load calls over an acyclic table: no module is fetched twice; whatever is fetched has all its direct and indirect known dependencies loaded; each callback runs at most once and only when its modules and their dependencies are loaded; a request gives up only after the whole timeout. |
| `EasyLoaders.FetchedLast` | yz-framework-bizlogging-consumer/src/main/webapp/js/easyloader.js:119-124 | A step that asks for a module does so when all it depends on is already loaded. |
| `EasyLoaders.StepUsesUp` | yz-framework-bizlogging-consumer/src/main/webapp/js/easyloader.js:115-147 | Every event but a new load call uses up some of the work left. |
| `EasyLoaders.RunsEnd` | yz-framework-bizlogging-consumer/src/main/webapp/js/easyloader.js:115-147 | Polling is bounded: without new load calls only so many events can follow. |
| `EasyLoaders.AtRest` | yz-framework-bizlogging-consumer/src/main/webapp/js/easyloader.js:115-147 | When no event is left every request has called back or has polled for the whole timeout, and every module asked for has arrived. |
| `EasyLoaders.LocaleFirst` | yz-framework-bizlogging-consumer/src/main/webapp/js/easyloader.js:111-143 | After any run a callback comes by way of the locale file iff one is configured and some step of its request has asked for a module; without one no request waits for it. |
| `EasyLoaders.PollsCounted` | yz-framework-bizlogging-consumer/src/main/webapp/js/easyloader.js:125-131 | Counted by timer events: a request that has given up had a timer every ten milliseconds up to the limit, and none has more. |
| `EasyLoaders.QuietMeansNoEvent` | yz-framework-bizlogging-consumer/src/main/webapp/js/easyloader.js:115-147 | Nothing is left to happen iff every request is done or has given up. |
| `EasyLoaders.Loader.LocaleLoaded` | yz-framework-bizlogging-consumer/src/main/webapp/js/easyloader.js:136-141 | The arrival of the locale file is the model step. |
| `EasyLoaders.Loader.LoadModules` | yz-framework-bizlogging-consumer/src/main/webapp/js/easyloader.js:87-148 | A load call is the model step. |
| `EasyLoaders.Loader.Next` | yz-framework-bizlogging-consumer/src/main/webapp/js/easyloader.js:116-146 | The queue function performs the advance of one request and gives the invariant back for all. |
| `EasyLoaders.Loader.ScriptLoaded` | yz-framework-bizlogging-consumer/src/main/webapp/js/easyloader.js:79-80 | The arrival of a script is the model step. |
| `EasyLoaders.Loader.AfterScript` | yz-framework-bizlogging-consumer/src/main/webapp/js/easyloader.js:121-124 | The callback after it is the model step. |
| `EasyLoaders.Loader.TimerFired` | yz-framework-bizlogging-consumer/src/main/webapp/js/easyloader.js:130-133 | A poll is the model step. |
| `GridRows.RenderTable` | yz-framework-bizlogging-consumer/src/main/webapp/js/plugins/jquery.datagrid.js:2107-2148 | A full render gives every line its index, number and stripe. |
| `GridRows.InStepMeans` | yz-framework-bizlogging-consumer/src/main/webapp/js/plugins/jquery.datagrid.js:2107-2148 | A table in step shows the rows at their positions, with both indexes, the number counted on from earlier pages, and stripes on every second line from the second on. |
| `GridRows.ShiftUp` | yz-framework-bizlogging-consumer/src/main/webapp/js/plugins/jquery.datagrid.js:2249-2266 | The descending renumbering loop of insertRow: each lookup by row id finds the intended line, and every later line moves up by one. |
| `GridRows.ShiftDown` | yz-framework-bizlogging-consumer/src/main/webapp/js/plugins/jquery.datagrid.js:2294-2311 | The ascending renumbering loop of deleteRow, likewise. |
| `GridRows.InsertInto` | yz-framework-bizlogging-consumer/src/main/webapp/js/plugins/jquery.datagrid.js:2238-2290 | insertRow on one table gives what a full render of the new list gives, highlights carried along. |
| `GridRows.DeleteFrom` | yz-framework-bizlogging-consumer/src/main/webapp/js/plugins/jquery.datagrid.js:2291-2317 | deleteRow on one table gives what a full render of the new list gives, highlights carried along. |
| `GridRows.Grid.Show` | yz-framework-bizlogging-consumer/src/main/webapp/js/plugins/jquery.datagrid.js:2107-2148 | A render of both tables. |
| `GridRows.Grid.InsertRow` | yz-framework-bizlogging-consumer/src/main/webapp/js/plugins/jquery.datagrid.js:2238-2290 | Both tables of the grid with their numbers and highlights, its rows and its total after insertRow. |
| `GridRows.Grid.DeleteRow` | yz-framework-bizlogging-consumer/src/main/webapp/js/plugins/jquery.datagrid.js:2291-2317 | Both tables of the grid with their numbers and highlights, its rows and its total after deleteRow. |
| `Changes.Tracker.Reset` | yz-framework-bizlogging-consumer/src/main/webapp/js/plugins/jquery.datagrid.js:1543-1555 | acceptChanges takes a snapshot of copies and empties the three change lists. |
| `Changes.Tracker.InsertRow` | yz-framework-bizlogging-consumer/src/main/webapp/js/plugins/jquery.datagrid.js:1527-1542 | Rows plus deleted rows stay the base rows plus inserted rows as multisets of objects, and the total follows. |
| `Changes.Tracker.DeleteRow` | yz-framework-bizlogging-consumer/src/main/webapp/js/plugins/jquery.datagrid.js:1506-1526 | A deleted row leaves the inserted list or joins the deleted list; the balance is kept and the two lists stay apart. |
| `Changes.DroppedAt` | yz-framework-bizlogging-consumer/src/main/webapp/js/plugins/jquery.datagrid.js:2291-2317 | A row that leaves a list of changes leaves the others in their order. |
| `Changes.Tracker.EndEdit` | yz-framework-bizlogging-consumer/src/main/webapp/js/plugins/jquery.datagrid.js:1368-1388 | An edit in place writes the cells, records the row once if some value has changed unless it is new, and never alters the snapshot. |
| `Changes.WrittenLast` | yz-framework-bizlogging-consumer/src/main/webapp/js/plugins/jquery.datagrid.js:1368-1388 | The last editor for a field decides what is in the cell. |
| `Changes.WrittenElse` | yz-framework-bizlogging-consumer/src/main/webapp/js/plugins/jquery.datagrid.js:1368-1388 | Cells without an editor stay. |
| `Changes.ChangedIff` | yz-framework-bizlogging-consumer/src/main/webapp/js/plugins/jquery.datagrid.js:1368-1388 | A change is noted iff some editor holds another value than its cell had to begin with. |
| `Changes.Tracker.LoadData` | yz-framework-bizlogging-consumer/src/main/webapp/js/plugins/jquery.datagrid.js:1543-1555 | Loading data starts a new base without changes. |
| `Changes.BalanceDelete` | yz-framework-bizlogging-consumer/src/main/webapp/js/plugins/jquery.datagrid.js:1514-1518 | Deleting keeps the balance in both branches. |
| `Changes.Tracker.RejectChanges` | yz-framework-bizlogging-consumer/src/main/webapp/js/plugins/jquery.datagrid.js:1570-1607 | rejectChanges restores the base total and the base cell values. |
| `Changes.Tracker.ChangeAndReject` | yz-framework-bizlogging-consumer/src/main/webapp/js/plugins/jquery.datagrid.js:1506-1607 | After any run of inserts, deletes and edits in place, rejectChanges restores the base total and the base cell values. |
| `Selections.Add` | yz-framework-bizlogging-consumer/src/main/webapp/js/plugins/jquery.datagrid.js:35-42 | The push keeps ids distinct and adds exactly one id; a row whose id is there is not added. |
| `Selections.Remove` | yz-framework-bizlogging-consumer/src/main/webapp/js/plugins/jquery.datagrid.js:20-34 | The splice takes out the first entry of the id, keeps ids distinct and loses exactly that id. |
| `Selections.Selection.SelectRow` | yz-framework-bizlogging-consumer/src/main/webapp/js/plugins/jquery.datagrid.js:1180-1200 | selectRow: the new set of selected ids, the coupled checks, and highlights that agree; in single mode all other ids go. |
| `Selections.Selection.CheckRow` | yz-framework-bizlogging-consumer/src/main/webapp/js/plugins/jquery.datagrid.js:1250-1275 | checkRow, likewise. |
| `Selections.Selection.UnselectRow` | yz-framework-bizlogging-consumer/src/main/webapp/js/plugins/jquery.datagrid.js:1201-1217 | unselectRow takes out one id, from the checks too when coupled. |
| `Selections.Selection.UncheckRow` | yz-framework-bizlogging-consumer/src/main/webapp/js/plugins/jquery.datagrid.js:1276-1295 | uncheckRow, likewise. |
| `Selections.Selection.SelectAll` | yz-framework-bizlogging-consumer/src/main/webapp/js/plugins/jquery.datagrid.js:1218-1233 | selectAll adds the shown ids, in single mode too: of at most one selected id it leaves at most one exactly when nothing is shown, or one row is and no other was selected. |
| `Selections.Selection.CheckAll` | yz-framework-bizlogging-consumer/src/main/webapp/js/plugins/jquery.datagrid.js:1296-1313 | checkAll, likewise, for the checked rows and, when coupled, the selected ones. |
| `Selections.SelectAllSingle` | yz-framework-bizlogging-consumer/src/main/webapp/js/plugins/jquery.datagrid.js:1218-1233 | What selectAll and checkAll rest on: adding the shown ids to at most one id leaves at most one exactly when nothing is shown, or one row is and no other id was there. |
| `Selections.SelectAllBreaks` | yz-framework-bizlogging-consumer/src/main/webapp/js/plugins/jquery.datagrid.js:1218-1233 | Two rows shown, nothing selected, single mode: selectAll leaves both selected. |
| `Selections.Selection.UnselectAll` | yz-framework-bizlogging-consumer/src/main/webapp/js/plugins/jquery.datagrid.js:1234-1249 | unselectAll takes out the shown ids only. |
| `Selections.Selection.ClearSelections` | yz-framework-bizlogging-consumer/src/main/webapp/js/plugins/jquery.datagrid.js:1927-1937 | clearSelections also forgets the rows of other pages. |
| `Selections.Selection.DeleteRow` | yz-framework-bizlogging-consumer/src/main/webapp/js/plugins/jquery.datagrid.js:1506-1526 | deleteRow takes the id out of both lists and the row out of the page. |
| `Selections.Selection.InsertRow` | yz-framework-bizlogging-consumer/src/main/webapp/js/plugins/jquery.datagrid.js:1527-1542 | insertRow shows the row without highlights: that is right iff its id is in neither list. |
| `Selections.Selection.LoadPage` | yz-framework-bizlogging-consumer/src/main/webapp/js/plugins/jquery.datagrid.js:1074-1108 | A page load brings back exactly the highlights of the rows in the lists; the lists then hold the row objects of the page for the ids that are shown and their old entries for the others, in multiple mode each in its place; in single mode the first shown row of the list becomes the only one. |
| `Selections.PlayOne` | yz-framework-bizlogging-consumer/src/main/webapp/js/plugins/jquery.datagrid.js:1074-1352 | One call keeps lists and highlights in agreement iff it is no insertion of a row whose id is in a list. |
| `Selections.InsertSelectedBreaks` | yz-framework-bizlogging-consumer/src/main/webapp/js/plugins/jquery.datagrid.js:1527-1542 | A row is selected, its page goes, and the row is inserted again: the concrete calls after which it is selected without its highlight. |
| `Selections.Play` | yz-framework-bizlogging-consumer/src/main/webapp/js/plugins/jquery.datagrid.js:1074-1352 | Any run of calls keeps the lists free of duplicate ids and a shown row highlighted iff its id is in the list, up to the first insertion of a row whose id is in a list, which breaks it; with both couplings on the lists hold the same ids; in single mode, without selectAll and checkAll, at most one row is selected. |
| `Columns.OneTiling` | yz-framework-bizlogging-consumer/src/main/webapp/js/plugins/jquery.datagrid.js:982-996 | A header has at most one tiling: reading order leaves no choice. |
| `Columns.FirstRowWidth` | yz-framework-bizlogging-consumer/src/main/webapp/js/plugins/jquery.datagrid.js:998-1004 | The spans of the first header row add up to the width of the grid. |
| `Columns.FirstFree` | yz-framework-bizlogging-consumer/src/main/webapp/js/plugins/jquery.datagrid.js:1005-1012 | The first free slot of a row. |
| `Columns.PlaceCell` | yz-framework-bizlogging-consumer/src/main/webapp/js/plugins/jquery.datagrid.js:982-996 | The first free slot is where the tiling has the cell; all slots under the cell were free, they get its field, and no other slot changes. |
| `Columns.ColumnFields` | yz-framework-bizlogging-consumer/src/main/webapp/js/plugins/jquery.datagrid.js:972-1013 | When the cells tile the grid, the result is the last row of that tiling: the leaf fields in visual order. |
| `Columns.TwoRowsFields` | yz-framework-bizlogging-consumer/src/main/webapp/js/plugins/jquery.datagrid.js:972-1013 | A header with a cell over two columns and one over two rows: its fields from left to right. |
| `FitColumns.AddedSum` | yz-framework-bizlogging-consumer/src/main/webapp/js/plugins/jquery.datagrid.js:772-791 | The added widths sum to exactly the free space, whatever remainder was carried in. |
| `FitColumns.Remainder` | yz-framework-bizlogging-consumer/src/main/webapp/js/plugins/jquery.datagrid.js:777-786 | The new remainder lies between zero and what was shared, and is smaller than the number of columns. |
| `FitColumns.Fills` | yz-framework-bizlogging-consumer/src/main/webapp/js/plugins/jquery.datagrid.js:772-793 | If no column is skipped, the boxes fill the room exactly. |
| `FitColumns.Shrinks` | yz-framework-bizlogging-consumer/src/main/webapp/js/plugins/jquery.datagrid.js:772-793 | A further call on a filled room skips no column and shrinks the remainder, or changes nothing at all. |
| `FitColumns.Settles` | yz-framework-bizlogging-consumer/src/main/webapp/js/plugins/jquery.datagrid.js:772-793 | Repeated calls without a resize settle after as many calls as the remainder is large. |
| `FitColumns.FitSettles` | yz-framework-bizlogging-consumer/src/main/webapp/js/plugins/jquery.datagrid.js:753-796 | After one call that skips no column, at most one call fewer than there are columns until nothing moves any more. |
| `FitColumns.View.Fit` | yz-framework-bizlogging-consumer/src/main/webapp/js/plugins/jquery.datagrid.js:753-796 | The whole call: the new widths and remainder, the bound and the sign of the remainder, and the filled room; both widths of a column grow alike, those of every column but the last in proportion to its width, unless its box would be empty. |
| `Calendars.DateOf` | yz-framework-bizlogging-consumer/src/main/webapp/js/plugins/jquery.calendar.js:212-213 | The date of a day number is a real date with that day number. |
| `Calendars.MonthAndDay` | yz-framework-bizlogging-consumer/src/main/webapp/js/plugins/jquery.calendar.js:175-212 | The month and the day of the month of a day number, in the numbers of the standard: month m iff the day within the year is in the range that the standard gives, with the leap day where it gives one. |
| `Calendars.Epoch` | yz-framework-bizlogging-consumer/src/main/webapp/js/plugins/jquery.calendar.js:175-212 | Day 0 is Thursday, the first of January 1970, and weekdays follow each other. |
| `Calendars.LastDay` | yz-framework-bizlogging-consumer/src/main/webapp/js/plugins/jquery.calendar.js:175 | Day 0 of the next month is the last day of the month. |
| `Calendars.OneDate` | yz-framework-bizlogging-consumer/src/main/webapp/js/plugins/jquery.calendar.js:212-213 | Two dates with the same day number are the same date. |
| `Calendars.Chunks` | yz-framework-bizlogging-consumer/src/main/webapp/js/plugins/jquery.calendar.js:175-200 | The loop that cuts the days of the month into weeks. |
| `Calendars.Unshift` | yz-framework-bizlogging-consumer/src/main/webapp/js/plugins/jquery.calendar.js:202-207 | The missing front of the first row is right unless the constructor reads a two-digit year back. |
| `Calendars.FillBack` | yz-framework-bizlogging-consumer/src/main/webapp/js/plugins/jquery.calendar.js:217-228 | The missing end of the last row, and a sixth row when there are five. |
| `Calendars.Weeks` | yz-framework-bizlogging-consumer/src/main/webapp/js/plugins/jquery.calendar.js:172-230 | From year 100 on: a grid of six rows of seven comes out iff the month ends within the range of dates (otherwise the missing first row fails), and it is the 42 consecutive dates from the corner on iff moreover the month is not the one spoiled month; in that month all rows but the first are right. |
| `Calendars.EndOfTime` | yz-framework-bizlogging-consumer/src/main/webapp/js/plugins/jquery.calendar.js:175-179 | A month ends within the range of dates iff it is August 275760 or earlier, and then the whole grid fits. |
| `Calendars.SpoiledIff` | yz-framework-bizlogging-consumer/src/main/webapp/js/plugins/jquery.calendar.js:202-207 | Exactly January of the year 100 is spoiled, for weeks that start neither on Thursday nor on Friday. |
| `Calendars.GridIsRight` | yz-framework-bizlogging-consumer/src/main/webapp/js/plugins/jquery.calendar.js:172-230 | The grid: 42 consecutive days, rows starting on the first day of the week, at least one day of the previous month first, every day of the month shown. |
| `Calendars.WeekendColumns` | yz-framework-bizlogging-consumer/src/main/webapp/js/plugins/jquery.calendar.js:239-246 | The two columns are those of Saturday and Sunday. |
| `Calendars.ColumnOfWeekday` | yz-framework-bizlogging-consumer/src/main/webapp/js/plugins/jquery.calendar.js:239-246 | In a grid that starts on the first day of the week such a column has just the days of that weekday. |
| `Groups.Collect` | yz-framework-bizlogging-consumer/src/main/webapp/js/plugins/jquery.datalist.js:50-60 | The grouping loop: distinct values in order of first occurrence, each with its rows in order. |
| `Groups.FirstOccurrenceOrder` | yz-framework-bizlogging-consumer/src/main/webapp/js/plugins/jquery.datalist.js:50-60 | More rows only add values at the end. |
| `Groups.Number` | yz-framework-bizlogging-consumer/src/main/webapp/js/plugins/jquery.datalist.js:61-68 | Start indexes are prefix sums and the rows are the concatenation of the groups. |
| `Groups.Stable` | yz-framework-bizlogging-consumer/src/main/webapp/js/plugins/jquery.datalist.js:46-78 | For every value the regrouped list keeps the rows of that value in their order. |
| `Groups.Permutation` | yz-framework-bizlogging-consumer/src/main/webapp/js/plugins/jquery.datalist.js:46-78 | The regrouped list is a permutation of the rows. |
| `Groups.FlatSlice` | yz-framework-bizlogging-consumer/src/main/webapp/js/plugins/jquery.datalist.js:61-68 | The rows of a group are the slice of the list from its offset on. |
| `Groups.Regroup` | yz-framework-bizlogging-consumer/src/main/webapp/js/plugins/jquery.datalist.js:46-78 | Grouping the regrouped list gives the same groups again. |
| `Groups.GroupRows` | yz-framework-bizlogging-consumer/src/main/webapp/js/plugins/jquery.datalist.js:46-78 | groupRows: a grouping with right start indexes, a permutation, and itself the grouping of its own result. |
| `Groups.OneGrouping` | yz-framework-bizlogging-consumer/src/main/webapp/js/plugins/jquery.datalist.js:46-78 | A list has only one grouping with right start indexes. |
| `Groups.DataList.Render` | yz-framework-bizlogging-consumer/src/main/webapp/js/plugins/jquery.datalist.js:17-31 | After one run of render another one changes nothing, so both bodies show the same rows and groups. |
| `Groups.GroupView.BeforeRender` | yz-framework-bizlogging-consumer/src/main/webapp/js/plugins/jquery.propertygrid.js:173-197 | onBeforeRender establishes that groups and rows are in step. |
| `Groups.GroupView.InsertRow` | yz-framework-bizlogging-consumer/src/main/webapp/js/plugins/jquery.propertygrid.js:247-284 | insertRow: the new groups and rows; a new row keeps them in step iff the group is new or its start index was right, and then the view stays valid; if all start indexes were right, the view is as a render would leave it iff the group is new or last. |
| `Groups.Clamped` | yz-framework-bizlogging-consumer/src/main/webapp/js/plugins/jquery.propertygrid.js:256-265 | The index of an insertion is moved to the nearest one in its group. |
| `Groups.InsertedStarts` | yz-framework-bizlogging-consumer/src/main/webapp/js/plugins/jquery.propertygrid.js:260-276 | If all start indexes were right, those of later groups end one short; they never run ahead. |
| `Groups.GroupView.DeleteRow` | yz-framework-bizlogging-consumer/src/main/webapp/js/plugins/jquery.propertygrid.js:298-323 | deleteRow sets all start indexes right; the view is as a render would leave it if the start index of the group was right or the group goes with its only row, and, when no row occurs twice, only then. |
| `Groups.DeletedFrom` | yz-framework-bizlogging-consumer/src/main/webapp/js/plugins/jquery.propertygrid.js:305-316 | The groups and the grid lose the same row if the start index of the group is right or the group goes altogether, and, when no row occurs twice, only then. |
| `Groups.PlayOne` | yz-framework-bizlogging-consumer/src/main/webapp/js/plugins/jquery.propertygrid.js:247-323 | One insertRow or deleteRow on a view in step keeps it in step iff the start index that the call goes by is right or not needed. |
| `Groups.Play` | yz-framework-bizlogging-consumer/src/main/webapp/js/plugins/jquery.propertygrid.js:247-323 | A run of such calls stays in step as long as every call is right, and after the first one that is not, groups and grid differ. |
| `Groups.InsertThenDelete` | yz-framework-bizlogging-consumer/src/main/webapp/js/plugins/jquery.propertygrid.js:173-323 | Render, insertRow, deleteRow: groups and grid stay alike iff the deleted row is not of a later group than the inserted one with further rows. |
| `Groups.InsertThenDeleteBreaks` | yz-framework-bizlogging-consumer/src/main/webapp/js/plugins/jquery.propertygrid.js:173-323 | Three rows in two groups for which the two calls leave groups and grid different. |
| `NumberBoxes.GroupDigits` | yz-framework-bizlogging-consumer/src/main/webapp/js/plugins/jquery.numberbox.js:130-135 | The regular-expression loop ends and groups every run of digits in threes from the right. |
| `NumberBoxes.Formatter` | yz-framework-bizlogging-consumer/src/main/webapp/js/plugins/jquery.numberbox.js:118-141 | The formatter computes the formatted text. |
| `ReadBacks.Parser` | yz-framework-bizlogging-consumer/src/main/webapp/js/plugins/jquery.numberbox.js:141-171 | Under the settings of the round trip the parser gives the value back for any text that the formatter shows for a value in range, and for a value beyond a limit that has the precision of the box it gives the limit. |
| `NumberBoxes.FormattedBody` | yz-framework-bizlogging-consumer/src/main/webapp/js/plugins/jquery.numberbox.js:118-141 | The text is the prefix, the sign, the grouped digits, the decimals and the suffix. |
| `NumberBoxes.Ungrouped` | yz-framework-bizlogging-consumer/src/main/webapp/js/plugins/jquery.numberbox.js:151-153 | Taking the separators out of grouped digits gives the digits back. |
| `NumberBoxes.PlainReadable` | yz-framework-bizlogging-consumer/src/main/webapp/js/plugins/jquery.numberbox.js:151-159 | Without affixes the parser is modelled for all separators but digits and the letters of exponents, and for up to twenty decimals, beyond which toFixed throws. |
| `ReadBacks.StrippedBody` | yz-framework-bizlogging-consumer/src/main/webapp/js/plugins/jquery.numberbox.js:144-158 | After all stripping steps the value is left, followed at most by characters of an affix. |
| `NumberBoxes.ReadsItself` | yz-framework-bizlogging-consumer/src/main/webapp/js/plugins/jquery.numberbox.js:144 | A shown text that already reads as a number is the value itself, so skipping the steps is right. |
| `ReadBacks.RoundTrip` | yz-framework-bizlogging-consumer/src/main/webapp/js/plugins/jquery.numberbox.js:118-171 | Reading what is shown for a value in range gives that value, and for a value beyond a limit the limit with the decimals of the box.  The group separator is no minus sign, no dollar sign, no letter with a meaning after a backslash, not the decimal separator, and a point only with decimals; the decimal separator is no minus sign and no such letter; the affixes are free of digits, signs and separators, and their two steps spare the number and leave nothing in front of it. |
| `ReadBacks.Clamped` | yz-framework-bizlogging-consumer/src/main/webapp/js/plugins/jquery.numberbox.js:161-168 | A limit with the precision of the box is the result for every value that is beyond it. |
| `Limits.LimitsHold` | yz-framework-bizlogging-consumer/src/main/webapp/js/plugins/jquery.numberbox.js:158-168 | Whatever is typed, the result is empty or within the limits iff the limits themselves are, written with the decimals of the box. |
| `Limits.ExactLimits` | yz-framework-bizlogging-consumer/src/main/webapp/js/plugins/jquery.numberbox.js:158-168 | Limits with no more decimals than the box hold for every text iff the minimum is not above the maximum. |
| `Limits.RoundedLimit` | yz-framework-bizlogging-consumer/src/main/webapp/js/plugins/jquery.numberbox.js:161-168 | A minimum of 0.4 in a box without decimals: the result for 0 is 0. |
| `NumberBoxes.FixedIsNearest` | yz-framework-bizlogging-consumer/src/main/webapp/js/plugins/jquery.numberbox.js:159 | The value is the number read, taken to the nearest one with the decimals of the box; of two, the one further from zero. |
| `NumberBoxes.LessIsLess` | yz-framework-bizlogging-consumer/src/main/webapp/js/plugins/jquery.numberbox.js:163-167 | The limits are compared as numbers. |
| `Patterns.LiteralChar` | yz-framework-bizlogging-consumer/src/main/webapp/js/plugins/jquery.numberbox.js:145-157 | A backslash before one character stands for the character iff it is neither a digit nor a letter with a meaning. |
| `Patterns.Escapes` | yz-framework-bizlogging-consumer/src/main/webapp/js/plugins/jquery.numberbox.js:145-157 | What a letter with a meaning matches, as the standard has it. |
| `Patterns.OtherEscapes` | yz-framework-bizlogging-consumer/src/main/webapp/js/plugins/jquery.numberbox.js:145-157 | The edges of words, and a control character. |
| `Patterns.NotCompiled` | yz-framework-bizlogging-consumer/src/main/webapp/js/plugins/jquery.numberbox.js:145-157 | Behind the first character an operator, a count in braces or an inner dollar sign makes no pattern of the model, nor does a digit in front. |
| `Patterns.HexEscapes` | yz-framework-bizlogging-consumer/src/main/webapp/js/plugins/jquery.numberbox.js:145-157 | Behind x and u just the hexadecimal escapes are no pattern of the model. |
| `Texts.CodePoints` | yz-framework-bizlogging-consumer/src/main/webapp/js/plugins/jquery.numberbox.js:146-157 | White space and digits by their code points. |
| `Patterns.HexDigits` | yz-framework-bizlogging-consumer/src/main/webapp/js/plugins/jquery.numberbox.js:146-157 | Hexadecimal digits by their code points. |
| `Patterns.RemovedSplit` | yz-framework-bizlogging-consumer/src/main/webapp/js/plugins/jquery.numberbox.js:146-150 | Before a text that starts with none of its own text, a pattern of several characters takes out what it takes out of each part alone. |
| `Affixes.StepAround` | yz-framework-bizlogging-consumer/src/main/webapp/js/plugins/jquery.numberbox.js:145-150 | One affix step on a number between two texts: if the pattern does not damage the number, the number stays, with or without its group separators, between what the pattern leaves of the two texts. |
| `ReadBacks.AffixesReadBack` | yz-framework-bizlogging-consumer/src/main/webapp/js/plugins/jquery.numberbox.js:144-150 | A prefix and a suffix free of digits, signs and separators let every value read back iff neither of the two steps takes a digit, the sign or the decimal separator, and nothing is left in front of the number after them. |
| `ReadBacks.PairsDiffer` | yz-framework-bizlogging-consumer/src/main/webapp/js/plugins/jquery.numberbox.js:144-150 | The prefix wt and the suffix t work alone but not together; the prefix st fails alone but works with the suffix wt. |
| `ReadBacks.LiteralsWork` | yz-framework-bizlogging-consumer/src/main/webapp/js/plugins/jquery.numberbox.js:144-150 | Affixes that are taken literally work, alone or both. |
| `ReadBacks.StayingSuffixes` | yz-framework-bizlogging-consumer/src/main/webapp/js/plugins/jquery.numberbox.js:148-150 | The suffixes bar and kg(net) are not taken away, and all values read back. |
| `ReadBacks.PrefixReadsBack` | yz-framework-bizlogging-consumer/src/main/webapp/js/plugins/jquery.numberbox.js:118-171 | A prefix free of digits, signs and separators reads back for all values iff its own pattern takes it away, white space aside, and nothing of a number. |
| `ReadBacks.SuffixReadsBack` | yz-framework-bizlogging-consumer/src/main/webapp/js/plugins/jquery.numberbox.js:118-171 | A suffix free of digits, signs and separators reads back for all values iff its pattern takes no digit, sign or decimal separator away, be it on its own or with the start of the suffix. |
| `ReadBacks.OneCharPrefix` | yz-framework-bizlogging-consumer/src/main/webapp/js/plugins/jquery.numberbox.js:146-147 | A prefix of one visible character reads back iff it is none of the letters b, B, c, d, D, f, n, r, s, S, t, v, w and W. |
| `ReadBacks.OneCharSuffix` | yz-framework-bizlogging-consumer/src/main/webapp/js/plugins/jquery.numberbox.js:148-150 | A suffix of one visible character reads back iff it is none of d, D, S, w and W, and does not stand for the decimal separator where that is used. |
| `ReadBacks.RealPrefixFails` | yz-framework-bizlogging-consumer/src/main/webapp/js/plugins/jquery.numberbox.js:146-147 | With the prefix R$ no value reads back: nothing is read. |
| `ReadBacks.DaySuffixFails` | yz-framework-bizlogging-consumer/src/main/webapp/js/plugins/jquery.numberbox.js:148-150 | With the suffix d no value reads back: nothing is read. |
| `ReadBacks.UnitsWork` | yz-framework-bizlogging-consumer/src/main/webapp/js/plugins/jquery.numberbox.js:118-171 | The prefix EUR and the suffix kg, with white space, do read back. |
| `SeparatorRules.SeparatorsThatWork` | yz-framework-bizlogging-consumer/src/main/webapp/js/plugins/jquery.numberbox.js:118-171 | Without affixes and limits, for any precision and any two separators that are no digit and no letter of an exponent: every value reads back iff the group separator is no minus sign, no dollar sign, no letter with a meaning and without decimals no point, and the decimal separator is, with decimals, no minus sign, no such letter and not the group separator, and without decimals but with groups none of the minus sign and b, B, d, D, S, w and W. |
| `SeparatorRules.SpecialFails` | yz-framework-bizlogging-consumer/src/main/webapp/js/plugins/jquery.numberbox.js:151-153 | With a letter that has a meaning as group separator 1234 or -1234 does not read back. |
| `SeparatorRules.DecimalFails` | yz-framework-bizlogging-consumer/src/main/webapp/js/plugins/jquery.numberbox.js:154-156 | With a minus sign or such a letter as decimal separator 1 or -1 in the last place does not read back. |
| `SeparatorRules.EdgeDecimalFails` | yz-framework-bizlogging-consumer/src/main/webapp/js/plugins/jquery.numberbox.js:154-156 | With b or B as decimal separator points come in around or inside of words, and 1234 or -1234 does not read back. |
| `SeparatorRules.SameFails` | yz-framework-bizlogging-consumer/src/main/webapp/js/plugins/jquery.numberbox.js:151-156 | With one character for both separators some value with decimals does not read back. |
| `SeparatorRules.HiddenDecimal` | yz-framework-bizlogging-consumer/src/main/webapp/js/plugins/jquery.numberbox.js:154-156 | Where no decimals are shown, a decimal separator that stands for no digit, sign or edge changes nothing, even if it is the group separator. |
| `SeparatorRules.DollarFails` | yz-framework-bizlogging-consumer/src/main/webapp/js/plugins/jquery.numberbox.js:133 | With a dollar sign the replacement pattern drops digits: 1234 reads back as 12. |
| `SeparatorRules.PointFails` | yz-framework-bizlogging-consumer/src/main/webapp/js/plugins/jquery.numberbox.js:144 | With a point 1234 reads back as 1. |
| `SeparatorRules.MinusFails` | yz-framework-bizlogging-consumer/src/main/webapp/js/plugins/jquery.numberbox.js:151-153 | With a minus sign -1234 reads back as 1234. |

## Left out

- Trees.Tree.Load: no hidden nodes, `onlyLeafCheck` or `cascadeCheck` off, load filters or callbacks with a veto; the new nodes' identities are taken to be new, as are the element ids given to them on rendering.
- Trees.Tree.Check: `deepCheck` is not told apart, since without hidden nodes it has the same effect; whether a node is a leaf is read from its children, where the program looks for the expander element.
- Trees.Tree.Drop: mouse geometry and the expansion of a closed target are left out; that a target lies outside the dragged subtree is taken from the page, where the subtree does not accept drops.
- Transfers.Transfer: rows are values and their child arrays a map by id, so that rows shared with other data are not modelled; ids are unique.
- TreeGrids.TreeGrid.LoadFlat: the rows bring no child arrays of their own.
- TreeGrids.TreeGrid.Load: the local sort of the loaded rows and the rendering are not part of it; flat rows are covered by `Transfers.Transfer`.
- Sorts.SortRows: the rows are values, so that sorting in place of a shared array is not modelled; cells compare as integers.
- EasyLoaders.RunIsSafe: the table is any acyclic one and is not changed during a run; the stylesheet that a module may have is taken to arrive at once; scripts do arrive or stay away, they do not fail.
- EasyLoaders.Loader: `onProgress`, `onLoad` and the request callbacks make no new load call while they run; one made afterwards is an event of its own.
- GridRows.Grid.InsertRow: editors, row stylers and scrolling are left out; a missing frozen table is modelled as a table without lines.
- Changes.Tracker.RejectChanges: the local sort and the load filter that a display may apply, and restoring the selection, are left out.
- Selections.Play: an id field is configured and callbacks do not veto; calls for a row that is not there and insertions of an id that is on the page are passed over; header checkboxes are left out.
- Columns.ColumnFields: headers that tile no grid are not modelled; there the program may read past a row.
- FitColumns.View.Fit: quotients are exact rationals cut off towards zero; `parseInt` on the exponent notation of very small or very large quotients is not modelled, widths are not negative, and the columns that take part are distinct, where a last-row header cell with a colspan would list its column more than once.
- Calendars.Weeks: years from 100 on; for the years 0 to 99 the constructor remaps the year in every step. Local time is taken for UTC, which moves the end of the range of dates by less than a day, while no month ends within two weeks of it.
- Calendars.Chunks: the comparison with the weekday before is kept, but its branch is never taken.
- Groups.GroupView.DeleteRow: the group of a row is found by counting the rows of the group tables, as the page does by nesting; row values compare as integers.
- ReadBacks.Parser: numbers are exact decimals without exponents, so that "e" and "E" are no separators here, and the word Infinity is not a number; more than twenty decimals, for which `toFixed` throws, are outside the model.
- ReadBacks.AffixesReadBack: affixes that hold digits, signs or a separator are outside of it, and so are separators that fail without affixes already; a box without decimals is treated with decimal separators that would also do with decimals.
- Patterns.Compile: references, octal and hexadecimal escapes, and affixes with further operators of regular expressions after the first character (other than parentheses and a final dollar sign) are outside the model; where parentheses do not balance, the program throws.
- NumberBoxes.Formatter: a digit as group separator is outside the model, since the loop would not end.
- Requests to servers, `eval` of attributes, animation, layout, menus, windows, key handling and the pager: input and output, or easy bounds.
- The copies of these scripts in the other web applications, the locale files and the Java side.
