/** The rich-text collection of a cell: an ordered list of runs kept in step
    with the child elements of a backing XML node, and an optional owning cell
    whose "is rich text" flag the collection maintains. */
module RichTextCollection {
  import opened NodeLists
  import opened RichText

  /** The runs' nodes are the backing node's children that belong to runs, in
      the same order, and no child occurs twice. Children that are not runs may
      sit anywhere among them. */
  ghost predicate InStep(children: seq<NodeId>, runs: seq<Run>)
  {
    NoDup(children) && Keep(children, NodeSet(runs)) == Nodes(runs)
  }

  /** In step, the runs' nodes are distinct children. */
  lemma InStepNodes(children: seq<NodeId>, runs: seq<Run>)
    requires InStep(children, runs)
    ensures NoDup(Nodes(runs))
    ensures forall k :: 0 <= k < |runs| ==> runs[k].node in children
  {
    KeepNoDup(children, NodeSet(runs));
    forall k | 0 <= k < |runs| ensures runs[k].node in children {
      assert Nodes(runs)[k] == runs[k].node;
    }
  }

  /** Appending a new child and its run keeps the two in step. */
  lemma InStepAppend(children: seq<NodeId>, runs: seq<Run>, r: Run)
    requires InStep(children, runs) && r.node !in children
    ensures InStep(children + [r.node], runs + [r])
  {
    NoDupSnoc(children, r.node);
    NodeSetSnoc(runs, r);
    KeepSnoc(children, r.node, NodeSet(runs + [r]));
    KeepSame(children, NodeSet(runs + [r]), NodeSet(runs));
  }

  /** Removing the child of run `i` and run `i` keeps the two in step. */
  lemma InStepRemoveAt(children: seq<NodeId>, runs: seq<Run>, i: nat)
    requires InStep(children, runs) && i < |runs|
    ensures InStep(Drop(children, {runs[i].node}), runs[..i] + runs[i + 1..])
  {
    var x := runs[i].node;
    InStepNodes(children, runs);
    NodesRemoveAt(runs, i);
    KeepDrop(children, NodeSet(runs), x);
    DropNoDup(children, {x});
  }

  /** With distinct nodes, deleting run `i` deletes its node and only that. */
  lemma NodesRemoveAt(runs: seq<Run>, i: nat)
    requires NoDup(Nodes(runs)) && i < |runs|
    ensures Drop(Nodes(runs), {runs[i].node}) == Nodes(runs[..i] + runs[i + 1..])
    ensures NodeSet(runs[..i] + runs[i + 1..]) == NodeSet(runs) - {runs[i].node}
  {
    var x, ns, rest := runs[i].node, Nodes(runs), runs[..i] + runs[i + 1..];
    assert ns[i] == x;
    DropAt(ns, i);
    assert Nodes(rest) == ns[..i] + ns[i + 1..];
    NodeSetRemoveAt(ns, i, Nodes(rest));
  }

  /** The ids left after deleting position `i` of a list without duplicates
      are the ids of the list but the one at `i`. */
  lemma NodeSetRemoveAt(ns: seq<NodeId>, i: nat, rest: seq<NodeId>)
    requires NoDup(ns) && i < |ns| && rest == ns[..i] + ns[i + 1..]
    ensures (set n | n in rest) == (set n | n in ns) - {ns[i]}
  {
    forall k | 0 <= k < |rest| ensures rest[k] != ns[i] {
      if k < i { assert rest[k] == ns[k]; } else { assert rest[k] == ns[k + 1]; }
    }
    forall y | y in ns && y != ns[i] ensures y in rest {
      var k :| 0 <= k < |ns| && ns[k] == y;
      if k < i { assert rest[k] == y; } else { assert rest[k - 1] == y; }
    }
  }

  /** Removing the child and the run that were just appended gives back the
      state before: `RemoveAt(Count - 1)` undoes `Add`. */
  lemma AddUndone(children: seq<NodeId>, runs: seq<Run>, r: Run)
    requires r.node !in children
    ensures Drop(children + [r.node], {r.node}) == children
    ensures var rs := runs + [r]; rs[..|runs|] + rs[|runs| + 1..] == runs
  {
    DropAppend(children, [r.node], {r.node});
    DropAbsent(children, r.node);
    assert Drop([r.node], {r.node}) == [] + Drop([], {r.node});
  }

  /** Removing a child that no run is on keeps the two in step. */
  lemma InStepDropOther(children: seq<NodeId>, runs: seq<Run>, x: NodeId)
    requires InStep(children, runs) && x !in Nodes(runs)
    ensures InStep(Drop(children, {x}), runs)
  {
    KeepDrop(children, NodeSet(runs), x);
    assert NodeSet(runs) - {x} == NodeSet(runs);
    DropAbsent(Nodes(runs), x);
    DropNoDup(children, {x});
  }

  /** One step of the text setter's loop, with `ix == j + 1`, while the runs
      are the even positions of `o[..2 * j]` followed by `o[2 * j..]`: the run
      at `ix` is `o[2 * j + 1]`, and after it goes the same holds for `j + 1`,
      the removed children being those of the odd positions. */
  lemma SetTextStep(o: seq<Run>, j: nat, runs: seq<Run>, children: seq<NodeId>, c0: seq<NodeId>)
    requires 2 * j + 2 <= |o| && runs == Evens(o[..2 * j]) + o[2 * j..]
    requires children == Drop(c0, NodeSet(Odds(o[..2 * j])))
    ensures j + 1 < |runs| && runs[j + 1] == o[2 * j + 1]
    ensures runs[..j + 1] + runs[j + 1 + 1..] == Evens(o[..2 * (j + 1)]) + o[2 * (j + 1)..]
    ensures Drop(children, {runs[j + 1].node}) == Drop(c0, NodeSet(Odds(o[..2 * (j + 1)])))
  {
    assert 2 * (j + 1) == 2 * j + 2;
    EvensPrefixStep(o, j, runs);
    EvensOddsStep(o, j);
    NodeSetSnoc(Odds(o[..2 * j]), o[2 * j + 1]);
    DropDrop(c0, NodeSet(Odds(o[..2 * j])), {o[2 * j + 1].node});
  }

  /** When the text setter's loop stops, the runs left are those at the even
      positions of `o`, and the children removed are those of the odd ones. */
  lemma SetTextDone(o: seq<Run>, j: nat, runs: seq<Run>, children: seq<NodeId>, c0: seq<NodeId>)
    requires 2 * j <= |o| && runs == Evens(o[..2 * j]) + o[2 * j..] && j + 1 >= |runs|
    requires children == Drop(c0, NodeSet(Odds(o[..2 * j])))
    ensures runs == Evens(o) && children == Drop(c0, NodeSet(Odds(o)))
  {
    EvensPrefixDone(o, j, runs);
  }

  /** One step of removing the run at index 1 while the runs are the first run
      of `o` followed by `o[j..]`: the run removed is `o[j]`, and the removed
      children become those of `o[1..j + 1]`. */
  lemma CollapseStep(o: seq<Run>, j: nat, runs: seq<Run>, children: seq<NodeId>, c0: seq<NodeId>)
    requires 1 <= j < |o| && runs == [o[0]] + o[j..] && children == Drop(c0, NodeSet(o[1..j]))
    ensures 1 < |runs| && runs[1] == o[j]
    ensures runs[..1] + runs[2..] == [o[0]] + o[j + 1..]
    ensures Drop(children, {runs[1].node}) == Drop(c0, NodeSet(o[1..j + 1]))
  {
    assert o[1..j + 1] == o[1..j] + [o[j]];
    NodeSetSnoc(o[1..j], o[j]);
    DropDrop(c0, NodeSet(o[1..j]), {o[j].node});
  }

  /** Wraps every `r` child of the backing node, in document order. */
  method ScanRuns(backing: seq<XmlChild>) returns (rs: seq<Run>)
    ensures rs == RunsOf(backing)
  {
    rs := [];
    for i := 0 to |backing|
      invariant rs == RunsOf(backing[..i])
    {
      assert backing[..i + 1][..i] == backing[..i];
      if backing[i].RunElement? {
        rs := rs + [Wrap(backing[i])];
      }
    }
    assert backing[..|backing|] == backing;
  }

  /** The owning cell range, reduced to what the collection uses: its "is rich
      text" flag, which the collection writes, and the resolved font of its
      first cell, which it only reads. */
  class Cell {
    var isRichText: bool
    const style: CellStyle

    constructor (style: CellStyle, isRichText: bool)
      ensures this.style == style && this.isRichText == isRichText
    {
      this.style := style;
      this.isRichText := isRichText;
    }
  }

  class ExcelRichTextCollection {
    /** The runs, in document order. */
    var runs: seq<Run>
    /** The children of the backing node, in document order. */
    var children: seq<NodeId>
    /** The owning cell, when the collection is bound to one. */
    const cell: Cell?
    /** The id the document gives the next element it creates. Ids are never
        handed out twice, so an element once removed never becomes a child
        again. */
    var nextId: NodeId

    ghost predicate Valid()
      reads this
    {
      InStep(children, runs) && forall c :: c in children ==> c < nextId
    }

    /** The style a first run copies: the bound cell's, if any. */
    function BoundStyle(): (s: Option<CellStyle>)
      ensures s.Some? <==> cell != null
      ensures cell != null ==> s.value == cell.style
    {
      if cell == null then None else Some(cell.style)
    }

    /** A collection over the existing children of a backing node, not bound to
        a cell. */
    constructor (backing: seq<XmlChild>)
      requires NoDup(Ids(backing))
      ensures Valid() && cell == null
      ensures children == Ids(backing) && runs == RunsOf(backing)
      ensures nextId == NewNodeId(Ids(backing))
    {
      var rs := ScanRuns(backing);
      runs := rs;
      children := Ids(backing);
      nextId := NewNodeId(Ids(backing));
      cell := null;
      RunsOfInStep(backing);
    }

    /** A collection over the existing children of a backing node, bound to an
        owning cell; the cell's flag is left as it is. */
    constructor Bound(backing: seq<XmlChild>, owner: Cell)
      requires NoDup(Ids(backing))
      ensures Valid() && cell == owner
      ensures children == Ids(backing) && runs == RunsOf(backing)
      ensures nextId == NewNodeId(Ids(backing))
      ensures owner.isRichText == old(owner.isRichText)
    {
      var rs := ScanRuns(backing);
      runs := rs;
      children := Ids(backing);
      nextId := NewNodeId(Ids(backing));
      cell := owner;
      RunsOfInStep(backing);
    }

    /** The number of runs: never more than the backing node has children. */
    function Count(): (n: nat)
      reads this
      ensures Valid() ==> n <= |children|
    {
      |runs|
    }

    /** The run at `index`: a child of the backing node, and the one `Remove`
        finds by that child. */
    function Item(index: int): (r: Run)
      reads this
      requires Valid() && 0 <= index < |runs|
      ensures r.node in children
      ensures IndexOfNode(runs, r.node) == index
    {
      InStepNodes(children, runs);
      assert Nodes(runs)[IndexOfNode(runs, runs[index].node)] == Nodes(runs)[index];
      runs[index]
    }

    /** Appends a new `r` child and a run on it, styled by `NewRun`; the first
        run of a bound collection marks the cell as rich text. */
    method Add(text: string) returns (r: Run)
      requires Valid()
      modifies this, cell
      ensures Valid()
      ensures r == NewRun(old(nextId), text, old(runs), BoundStyle())
      ensures r.node !in old(children) && nextId == old(nextId) + 1
      ensures forall c :: c < old(nextId) && c !in old(children) ==> c !in children
      ensures children == old(children) + [r.node]
      ensures runs == old(runs) + [r]
      ensures cell != null ==> cell.isRichText == (old(runs) == [] || old(cell.isRichText))
    {
      var node := nextId;
      nextId := nextId + 1;
      children := children + [node];
      var rt := Blank(node);
      if |runs| > 0 {
        var prev := runs[|runs| - 1];
        rt := rt.(fontName := prev.fontName, size := prev.size, color := prev.color);
        rt := rt.(preserveSpace := rt.preserveSpace);
        rt := rt.(bold := prev.bold, italic := prev.italic, underline := prev.underline);
      } else if cell == null {
        rt := rt.(fontName := "Calibri", size := 11.0);
      } else {
        var style := cell.style;
        rt := rt.(fontName := style.fontName, size := style.size, bold := style.bold, italic := style.italic);
        cell.isRichText := true;
      }
      rt := rt.(text := text);
      rt := rt.(preserveSpace := true);
      if cell != null {
        rt := rt.(hasCallback := true);
      }
      InStepAppend(old(children), runs, rt);
      runs := runs + [rt];
      r := rt;
    }

    /** Removes every run and every child; a bound cell is no longer rich text. */
    method Clear()
      modifies this, cell
      ensures Valid()
      ensures runs == [] && children == [] && nextId == old(nextId)
      ensures cell != null ==> !cell.isRichText
    {
      runs := [];
      children := [];
      if cell != null {
        cell.isRichText := false;
      }
    }

    /** Removes the run at `index` and its child; a bound cell stops being rich
        text when no run is left. */
    method RemoveAt(index: int)
      requires Valid() && 0 <= index < |runs|
      modifies this, cell
      ensures Valid()
      ensures children == Drop(old(children), {old(runs)[index].node})
      ensures runs == old(runs)[..index] + old(runs)[index + 1..]
      ensures nextId == old(nextId)
      ensures cell != null ==> cell.isRichText == if runs == [] then false else old(cell.isRichText)
    {
      InStepRemoveAt(children, runs, index);
      children := Drop(children, {runs[index].node});
      runs := runs[..index] + runs[index + 1..];
      if cell != null && |runs| == 0 {
        cell.isRichText := false;
      }
    }

    /** Removes the child of `item` and the run on it, if there is one; a bound
        cell stops being rich text when no run is left. */
    method Remove(item: Run)
      requires Valid() && item.node in children
      modifies this, cell
      ensures Valid()
      ensures children == Drop(old(children), {item.node})
      ensures var i := IndexOfNode(old(runs), item.node);
        runs == if i < 0 then old(runs) else old(runs)[..i] + old(runs)[i + 1..]
      ensures nextId == old(nextId)
      ensures cell != null ==> cell.isRichText == if runs == [] then false else old(cell.isRichText)
    {
      var i := IndexOfNode(runs, item.node);
      if i < 0 {
        assert item.node !in Nodes(runs) by {
          forall k | 0 <= k < |runs| ensures Nodes(runs)[k] != item.node { }
        }
        InStepDropOther(children, runs, item.node);
      } else {
        InStepRemoveAt(children, runs, i);
      }
      children := Drop(children, {item.node});
      if i >= 0 {
        runs := runs[..i] + runs[i + 1..];
      }
      if cell != null && |runs| == 0 {
        cell.isRichText := false;
      }
    }

    /** The text of the cell: the runs' texts joined in order. */
    method GetText() returns (s: string)
      ensures s == Concat(runs)
    {
      s := "";
      for i := 0 to |runs|
        invariant s == Concat(runs[..i])
      {
        assert runs[..i + 1] == runs[..i] + [runs[i]];
        ConcatAppend(runs[..i], [runs[i]]);
        assert Concat([runs[i]]) == runs[i].text + Concat([]);
        s := s + runs[i].text;
      }
      assert runs[..|runs|] == runs;
    }

    /** Sets the text of the cell. On an empty collection this is `Add`.
        Otherwise the first run takes the text and `RemoveOddRuns` follows. */
    method SetText(value: string)
      requires Valid()
      modifies this, cell
      ensures Valid()
      ensures old(runs) == [] ==>
        var node := old(nextId);
        runs == [NewRun(node, value, [], BoundStyle())] && children == old(children) + [node] &&
        nextId == node + 1 &&
        (cell != null ==> cell.isRichText)
      ensures old(runs) != [] ==>
        var o := old(runs)[0 := old(runs)[0].(text := value)];
        runs == Evens(o) && children == Drop(old(children), NodeSet(Odds(o))) &&
        (cell != null ==> cell.isRichText == old(cell.isRichText)) && nextId == old(nextId)
      ensures old(runs) != [] ==>
        runs[0].text == value && |old(runs)| <= 2 * |runs| <= |old(runs)| + 1
    {
      if |runs| == 0 {
        var added := Add(value);
      } else {
        runs := runs[0 := runs[0].(text := value)];
        assert Nodes(runs) == Nodes(old(runs));
        RemoveOddRuns();
      }
    }

    /** The loop of the text setter: it removes at an index that advances while
        the list shrinks, so the runs at odd positions go and those at even
        positions stay. */
    method RemoveOddRuns()
      requires Valid() && runs != []
      modifies this, cell
      ensures Valid()
      ensures runs == Evens(old(runs)) && children == Drop(old(children), NodeSet(Odds(old(runs))))
      ensures cell != null ==> cell.isRichText == old(cell.isRichText)
      ensures nextId == old(nextId)
    {
      ghost var o, c0 := runs, children;
      ghost var j := 0;
      assert |Odds(o[..0])| == 0 && NodeSet(Odds(o[..0])) == {};
      assert Evens(o[..0]) + o[0..] == o;
      DropNone(c0);
      var ix := 1;
      while ix < |runs|
        invariant Valid()
        invariant ix == j + 1 && 2 * j <= |o| && |runs| == |o| - j
        invariant runs == Evens(o[..2 * j]) + o[2 * j..]
        invariant children == Drop(c0, NodeSet(Odds(o[..2 * j])))
        invariant cell != null ==> cell.isRichText == old(cell.isRichText)
        invariant nextId == old(nextId)
        decreases |runs| - ix
      {
        SetTextStep(o, j, runs, children, c0);
        RemoveAt(ix);
        ix, j := ix + 1, j + 1;
      }
      SetTextDone(o, j, runs, children, c0);
    }

    /** The text setter as evidently intended: the first run takes the text and
        every later run is removed, so the text read back is the text set. */
    method SetTextCollapsing(value: string)
      requires Valid()
      modifies this, cell
      ensures Valid()
      ensures Concat(runs) == value
      ensures old(runs) == [] ==>
        var node := old(nextId);
        runs == [NewRun(node, value, [], BoundStyle())] && children == old(children) + [node] &&
        nextId == node + 1 &&
        (cell != null ==> cell.isRichText)
      ensures old(runs) != [] ==>
        runs == [old(runs)[0].(text := value)] &&
        children == Drop(old(children), NodeSet(old(runs)[1..])) &&
        (cell != null ==> cell.isRichText == old(cell.isRichText)) && nextId == old(nextId)
    {
      if |runs| == 0 {
        var added := Add(value);
      } else {
        runs := runs[0 := runs[0].(text := value)];
        assert Nodes(runs) == Nodes(old(runs));
        assert runs[1..] == old(runs)[1..];
        RemoveRunsAfterFirst();
      }
      assert Concat(runs) == runs[0].text + Concat([]);
    }

    /** Removes every run but the first, and its child. */
    method RemoveRunsAfterFirst()
      requires Valid() && runs != []
      modifies this, cell
      ensures Valid()
      ensures runs == [old(runs)[0]] && children == Drop(old(children), NodeSet(old(runs)[1..]))
      ensures cell != null ==> cell.isRichText == old(cell.isRichText)
      ensures nextId == old(nextId)
    {
      ghost var o, c0 := runs, children;
      ghost var j := 1;
      assert o == [o[0]] + o[1..];
      assert NodeSet(o[1..1]) == {};
      DropNone(c0);
      while |runs| > 1
        invariant Valid()
        invariant 1 <= j <= |o| && |runs| == |o| - j + 1
        invariant runs == [o[0]] + o[j..]
        invariant children == Drop(c0, NodeSet(o[1..j]))
        invariant cell != null ==> cell.isRichText == old(cell.isRichText)
        invariant nextId == old(nextId)
        decreases |runs|
      {
        CollapseStep(o, j, runs, children, c0);
        RemoveAt(1);
        j := j + 1;
      }
      assert o[1..] == o[1..j];
    }
  }
}
