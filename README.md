# Rich-text run collection of a spreadsheet cell

This project models `ExcelRichTextCollection` from the EPPlus `ExcelPackage`
library. A cell's rich text is an ordered list of runs. Each run is a
SpreadsheetML `r` element, the Rich Text Run of section 18.4 of ECMA-376
Part 1. The collection keeps its list of runs in step with the child elements
of a backing XML node. When it is bound to an owning cell, it also keeps that
cell's "is rich text" flag up to date.

The model has three modules:

- `NodeLists` (`node_lists.dfy`) stands in for the children of the backing
  node. A child is an opaque `NodeId`. The module defines two filters: `Keep`
  keeps the children in a set, and `Drop` drops them. `NewNodeId` gives an id
  above every existing child's.
- `RichText` (`runs.dfy`) defines the run values and the cell style. It holds
  the pure rules:
  - `RunsOf`, which scans the `r` children;
  - `NewRun`, the three-way style rule of `Add`;
  - `Concat`, the text getter;
  - `IndexOfNode`, which finds a run by identity;
  - `Evens`/`Odds`, the runs the text setter keeps and the runs it removes.
- `RichTextCollection` (`collection.dfy`) holds two classes:
  - `Cell`, with a mutable `isRichText` flag and a read-only style;
  - `ExcelRichTextCollection`, with fields `runs`, `children` and
    `nextId` and an optional `cell`. Its methods change these fields in place, as the
    library's methods change `_list`, `TopNode` and `_cells.IsRichText`.

The class invariant is `Valid()`. It says:

- no child of the backing node occurs twice;
- the runs' nodes are exactly the children that belong to runs, in the same
  order (these two are `InStep`);
- every child's id is below `nextId`.

Every operation keeps this invariant.

A run object's identity is its node. `Remove` finds the run to remove by node,
because the library's `List.Remove` compares references.

Three facts about the code shape the model:

- **Text setter.** The setter does not collapse the collection to one run; it
  removes only the runs at odd positions (see "## Findings").
- **Other children.** Children that are not `r` elements may sit among the
  run children, because construction selects only the `r` children.
- **Rich-text flag.** Neither constructor sets the cell's flag, so "the flag
  is true exactly when runs exist" is not part of the invariant.

The document's element allocation is modelled by a counter, `nextId`. Every
child's id is below it, `Add` takes it and increments it, and no other
operation changes it. So an element that `Clear`, `RemoveAt` or `Remove`
detached never becomes a child again, and a run of this collection whose
element was detached fails `Remove`'s precondition, as `RemoveChild` fails in
the library. The counter belongs to one collection, not to the document (see
"## Left out").

## Model

| member | source | states |
|---|---|---|
| RichTextCollection.ExcelRichTextCollection.constructor | ExcelPackage/Style/ExcelRichTextCollection.cs:12-23 | The collection holds one run per `r` child of the backing node, in document order. The children are the backing node's children. No cell is bound. The next element id is above every child's id. The invariant holds. |
| RichTextCollection.ExcelRichTextCollection.Bound | ExcelPackage/Style/ExcelRichTextCollection.cs:24-28 | Same as the two-argument overload, but the given cell is bound. The cell's flag is left unchanged. |
| RichTextCollection.ScanRuns | ExcelPackage/Style/ExcelRichTextCollection.cs:15-22 | The scan loop returns exactly `RunsOf` of the backing children. |
| RichText.RunsOf | ExcelPackage/Style/ExcelRichTextCollection.cs:15-22 | There are no more runs than children. A freshly scanned run has no callback. |
| RichText.RunsOfNodes | ExcelPackage/Style/ExcelRichTextCollection.cs:15-22 | The scanned runs' nodes are exactly the ids of the `r` children, in document order. |
| RichText.RunsOfInStep | ExcelPackage/Style/ExcelRichTextCollection.cs:12-23 | The scanned runs and the backing children satisfy the collection invariant. |
| RichTextCollection.ExcelRichTextCollection.Item | ExcelPackage/Style/ExcelRichTextCollection.cs:29-35 | Requires `0 <= index < Count`. The run returned is on a child of the backing node. Searching the runs by that node finds exactly `index`. |
| RichTextCollection.InStepNodes | ExcelPackage/Style/ExcelRichTextCollection.cs:29-35 | Under the invariant, the runs' nodes are distinct children of the backing node. |
| RichTextCollection.ExcelRichTextCollection.Count | ExcelPackage/Style/ExcelRichTextCollection.cs:36-42 | Under the invariant, there are never more runs than children. |
| RichTextCollection.ExcelRichTextCollection.Add | ExcelPackage/Style/ExcelRichTextCollection.cs:48-92 | Exactly one new child is appended, with the next element id, which is then advanced. It was not already a child, and no element detached earlier becomes a child again. Exactly one run is appended and the earlier runs are unchanged. The returned run is the new last run, styled by `NewRun`. A bound cell's flag becomes true when the list was empty and is otherwise unchanged. The invariant is kept. |
| RichText.NewRun | ExcelPackage/Style/ExcelRichTextCollection.cs:61-89 | The style rule of `Add`. With a previous run, its font name, size, color, bold, italic and underline are copied. With no run and no cell, the font is Calibri at size 11. With no run and a bound cell, the cell style's name, size, bold and italic are copied. In every case the text is the argument, preserveSpace is true, and a callback is registered exactly when a cell is bound. |
| NodeLists.NewNodeId | ExcelPackage/Style/ExcelRichTextCollection.cs:12-23 | The first id the document hands out after construction is larger than every id of the backing node's children, so it is not one of them. |
| RichTextCollection.InStepAppend | ExcelPackage/Style/ExcelRichTextCollection.cs:59-60 | Appending a new child and a run on it keeps the invariant. |
| RichTextCollection.AddUndone | ExcelPackage/Style/ExcelRichTextCollection.cs:103-106 | Removing the last run and its new child gives back the runs and children from before `Add`. |
| RichTextCollection.ExcelRichTextCollection.Clear | ExcelPackage/Style/ExcelRichTextCollection.cs:97-102 | No runs and no children are left. A bound cell's flag is false. The next element id is kept, so detached elements are not reused. The resulting state does not depend on the state before, so a second `Clear` changes nothing. |
| RichTextCollection.ExcelRichTextCollection.RemoveAt | ExcelPackage/Style/ExcelRichTextCollection.cs:103-108 | Requires `0 <= index < Count`. That run's node is dropped from the children, and nothing else is. The next element id is unchanged. The run is deleted and the other runs keep their order. A bound cell's flag becomes false exactly when no run is left and is otherwise unchanged. |
| RichTextCollection.InStepRemoveAt | ExcelPackage/Style/ExcelRichTextCollection.cs:105-106 | Dropping run `i`'s child and deleting run `i` keeps the invariant. |
| RichTextCollection.NodesRemoveAt | ExcelPackage/Style/ExcelRichTextCollection.cs:105-106 | With distinct nodes, deleting a run deletes its node from the node list and from the node set, and only that node. |
| RichTextCollection.ExcelRichTextCollection.Remove | ExcelPackage/Style/ExcelRichTextCollection.cs:109-114 | Requires that the item's node is a child. That node is dropped from the children. The first run on it is deleted, if there is one. The flag rule is the same as for `RemoveAt`. |
| RichText.IndexOfNode | ExcelPackage/Style/ExcelRichTextCollection.cs:112 | Returns the position of the first run on the node, or -1 when no run is on it. |
| RichTextCollection.InStepDropOther | ExcelPackage/Style/ExcelRichTextCollection.cs:111-112 | Dropping a child that no run is on keeps the invariant. |
| RichTextCollection.ExcelRichTextCollection.GetText | ExcelPackage/Style/ExcelRichTextCollection.cs:119-129 | The loop returns the runs' texts joined in list order, with no separator. |
| RichText.ConcatAppend | ExcelPackage/Style/ExcelRichTextCollection.cs:123-128 | The joined text of two lists of runs is the join of their joined texts. |
| RichTextCollection.ExcelRichTextCollection.SetText | ExcelPackage/Style/ExcelRichTextCollection.cs:130-144 | On no runs, behaves exactly as `Add(value)`. Otherwise the first run takes the value, and the runs left are those at the even positions. The children of the odd positions are dropped. Exactly ceil(n/2) runs survive, and a bound cell's flag and the next element id are unchanged. |
| RichTextCollection.ExcelRichTextCollection.RemoveOddRuns | ExcelPackage/Style/ExcelRichTextCollection.cs:139-142 | The setter's loop, whose index advances while the list shrinks. It leaves `Evens` of the runs, drops the children of `Odds` of the runs, and leaves the flag unchanged. |
| RichTextCollection.SetTextStep | ExcelPackage/Style/ExcelRichTextCollection.cs:139-142 | One loop step at index `j + 1` removes original run `2j + 1`. The kept and removed runs are then the even and odd positions of the first `2j + 2` runs. |
| RichTextCollection.SetTextDone | ExcelPackage/Style/ExcelRichTextCollection.cs:139-142 | When the loop stops, the kept runs are exactly the even positions. The removed children are exactly those of the odd positions. |
| RichText.Evens | ExcelPackage/Style/ExcelRichTextCollection.cs:139-142 | `ceil(n/2)` elements. Element `k` is input element `2k`. |
| RichText.Odds | ExcelPackage/Style/ExcelRichTextCollection.cs:139-142 | `floor(n/2)` elements. Element `k` is input element `2k + 1`. |
| RichText.EvensOddsStep | ExcelPackage/Style/ExcelRichTextCollection.cs:139-142 | Taking in two more elements adds the first to the even positions and the second to the odd positions. |
| RichText.EvensKeepThirdRunText | ExcelPackage/Style/ExcelRichTextCollection.cs:138-142 | With three or more runs, the text read back after the setter is longer than the text set whenever the third run has text. |
| RichText.EvensExample | ExcelPackage/Style/ExcelRichTextCollection.cs:138-142 | Take runs "a", "b", "c" and set the text to "z". Two runs are left, and the text reads "zc". |
| RichTextCollection.ExcelRichTextCollection.SetTextCollapsing | ExcelPackage/Style/ExcelRichTextCollection.cs:130-144 | The corrected setter. The text read back is always the text set. With runs, only the first run stays, with the new text. Every other run's child is dropped, and the flag is unchanged. On no runs it behaves as `Add`. |
| RichTextCollection.ExcelRichTextCollection.RemoveRunsAfterFirst | ExcelPackage/Style/ExcelRichTextCollection.cs:139-142 | The corrected loop. Only the first run is left, and the children of all later runs are dropped. |
| RichTextCollection.CollapseStep | ExcelPackage/Style/ExcelRichTextCollection.cs:139-142 | One step of the corrected loop removes the next original run and its child. |

## Left out

- The XML DOM is out of scope. This covers namespaces, `SelectNodes`, `CreateElement`, `OwnerDocument`, `RemoveChild`, `RemoveAll` and `InnerXml`. The backing node is its ordered list of child ids. `RemoveAll`'s removal of the node's attributes is not modelled.
- `RichTextCollection.ExcelRichTextCollection.Remove` requires the item's node to be a current child. The library's `RemoveChild` throws otherwise, and that exception path is not modelled.
- Out-of-range indices for the indexer and `RemoveAt` are preconditions. The library throws on them.
- `UpdateCells` and the callback body, which serialise the runs' markup into the cell, are not modelled. The model records only whether a callback is registered (`hasCallback`). The callback that changing the first run's text can fire in the setter is left out too.
- Style resolution through `Offset(0, 0).Style.Font` on the cell range is not modelled. The bound cell carries a fixed `CellStyle` value.
- The font size is a floating-point number in the library and a `real` here. The colour is a `System.Drawing.Color` in the library and here either unset or an ARGB value. Both are only assigned (copied, or set to a constant such as size 11), never computed on.
- `ExcelRichText.cs` is not part of this model. `RichText.Wrap` takes a run's properties as given on the `RunElement` value, and a new element starts from `RichText.Blank`; how `ExcelRichText` reads the properties from the markup and writes them back is not modelled.
- Run identity is the node id. Two distinct wrapper objects on the same node, which reference equality would tell apart, are not distinguished.
- RichTextCollection.ExcelRichTextCollection.Remove: node ids are unique only within one collection, because each collection numbers the elements it creates itself. A run taken from another collection whose id happens to equal a child here is removed here, where the library's `RemoveChild` would throw because that run's element is not a child of this backing node.
- The enumerators (lines 146-162) and the commented-out `Insert` (lines 115-118) are not modelled.
- Idempotence of `Clear` is not a separate member. It follows from `Clear`'s postcondition, which fixes the new state without reference to the old one.
- The invariant does not include "a bound cell is rich text exactly when runs exist", because neither constructor establishes it.

## Findings

| source | as written | input that shows it | evidently intended | confidence | as-written member | corrected member |
|---|---|---|---|---|---|---|
| ExcelPackage/Style/ExcelRichTextCollection.cs:139-142 | `RemoveAt(ix)` runs while `ix` advances and `Count` shrinks, so the runs at odd positions go and ceil(n/2) runs stay | runs "a", "b", "c" and the text set to "z": runs "z" and "c" stay, and the text reads "zc" | every run after the first is removed, so the text read back is the text set | high (proved on the model; not executed) | RichTextCollection.ExcelRichTextCollection.SetText | RichTextCollection.ExcelRichTextCollection.SetTextCollapsing |
