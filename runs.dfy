/** The values the rich-text collection works on: one rich-text run (the
    `ExcelRichText` wrapper around a SpreadsheetML `r` element, the Rich Text
    Run of section 18.4 of ECMA-376 Part 1), the child elements of the backing
    node, the owning cell's resolved font, and the functions over lists of runs
    that specify the collection's operations. */
module RichText {
  import opened NodeLists

  datatype Option<T> = None | Some(value: T)

  /** A font colour as a run reads it: not set, or an ARGB value. */
  datatype Color = NoColor | Argb(argb: int)

  /** One rich-text run: the node it wraps, its text and font properties, whether
      whitespace is preserved, and whether a change callback to the owning cell
      is registered on it. The font size is copied but never computed on. */
  datatype Run = Run(
    node: NodeId,
    text: string,
    fontName: string,
    size: real,
    color: Color,
    bold: bool,
    italic: bool,
    underline: bool,
    preserveSpace: bool,
    hasCallback: bool)

  /** The font of the first cell of the owning range, as its style resolves it. */
  datatype CellStyle = CellStyle(fontName: string, size: real, bold: bool, italic: bool)

  /** A child element of the backing node: an `r` element, with the run
      properties its markup holds, or any element that is not an `r`. */
  datatype XmlChild =
    | RunElement(id: NodeId, text: string, fontName: string, size: real, color: Color,
                 bold: bool, italic: bool, underline: bool, preserveSpace: bool)
    | OtherElement(id: NodeId)

  /** The run an `r` element carries before anything is set on it. */
  function Blank(node: NodeId): Run
  {
    Run(node, "", "", 0.0, NoColor, false, false, false, false, false)
  }

  /** Wrapping an existing `r` element: its properties, and no callback. */
  function Wrap(c: XmlChild): (r: Run)
    requires c.RunElement?
    ensures r.node == c.id && r.text == c.text && !r.hasCallback
  {
    Run(c.id, c.text, c.fontName, c.size, c.color, c.bold, c.italic, c.underline, c.preserveSpace, false)
  }

  /** The node ids of the children, in document order. */
  function Ids(b: seq<XmlChild>): (ids: seq<NodeId>)
  {
    seq(|b|, k requires 0 <= k < |b| => b[k].id)
  }

  /** The ids of the children that are `r` elements. */
  function RunIds(b: seq<XmlChild>): set<NodeId>
  {
    set c | c in b && c.RunElement? :: c.id
  }

  /** The node ids of the runs, in list order. */
  function Nodes(rs: seq<Run>): seq<NodeId>
  {
    seq(|rs|, k requires 0 <= k < |rs| => rs[k].node)
  }

  function NodeSet(rs: seq<Run>): set<NodeId>
  {
    set n | n in Nodes(rs)
  }

  /** One run for each `r` child, wrapped in document order. */
  function RunsOf(b: seq<XmlChild>): (rs: seq<Run>)
    ensures |rs| <= |b|
    ensures forall r :: r in rs ==> !r.hasCallback
  {
    if b == [] then []
    else
      var c := b[|b| - 1];
      RunsOf(b[..|b| - 1]) + (if c.RunElement? then [Wrap(c)] else [])
  }

  /** The runs built from the children are exactly the `r` children, in
      document order. */
  lemma {:induction false} RunsOfNodes(b: seq<XmlChild>)
    requires NoDup(Ids(b))
    ensures Nodes(RunsOf(b)) == Keep(Ids(b), RunIds(b))
  {
    if b != [] {
      var p, c := b[..|b| - 1], b[|b| - 1];
      assert b == p + [c];
      IdsSnoc(p, c);
      RunIdsSnoc(p, c);
      RunsOfNodes(p);
      var tail := if c.RunElement? then [Wrap(c)] else [];
      var last := if c.RunElement? then [c.id] else [];
      assert RunsOf(b) == RunsOf(p) + tail;
      NodesAppend(RunsOf(p), tail);
      assert Nodes(tail) == last;
      KeepSnoc(Ids(p), c.id, RunIds(b));
      assert (c.id in RunIds(b)) == c.RunElement?;
      KeepSame(Ids(p), RunIds(b), RunIds(p));
      calc {
        Keep(Ids(b), RunIds(b));
        Keep(Ids(p), RunIds(b)) + last;
        Keep(Ids(p), RunIds(p)) + last;
      }
    }
  }

  /** The nodes of two lists of runs, one after the other. */
  lemma NodesAppend(a: seq<Run>, b: seq<Run>)
    ensures Nodes(a + b) == Nodes(a) + Nodes(b)
  {
  }

  /** The ids of a list of children with one more at the end, whose id is new
      when the ids are distinct. */
  lemma IdsSnoc(p: seq<XmlChild>, c: XmlChild)
    ensures Ids(p + [c]) == Ids(p) + [c.id]
    ensures NoDup(Ids(p + [c])) ==> NoDup(Ids(p)) && c.id !in Ids(p)
  {
    var b := p + [c];
    assert Ids(b) == Ids(p) + [c.id];
    if NoDup(Ids(b)) {
      forall i, j | 0 <= i < j < |p| ensures Ids(p)[i] != Ids(p)[j] {
        assert Ids(p)[i] == Ids(b)[i] && Ids(p)[j] == Ids(b)[j];
      }
      forall k | 0 <= k < |p| ensures Ids(p)[k] != c.id {
        assert Ids(b)[k] != Ids(b)[|p|];
      }
    }
  }

  /** The run ids of a list with one more child at the end. */
  lemma RunIdsSnoc(p: seq<XmlChild>, c: XmlChild)
    ensures RunIds(p + [c]) == RunIds(p) + (if c.RunElement? then {c.id} else {})
    ensures forall x :: x in RunIds(p) ==> x in Ids(p)
  {
    forall x | x in RunIds(p) ensures x in Ids(p) {
      var e :| e in p && e.RunElement? && e.id == x;
      var k :| 0 <= k < |p| && p[k] == e;
      assert Ids(p)[k] == x;
    }
  }

  /** The nodes of a list with one more run at the end. */
  lemma NodeSetSnoc(rs: seq<Run>, r: Run)
    ensures Nodes(rs + [r]) == Nodes(rs) + [r.node]
    ensures NodeSet(rs + [r]) == NodeSet(rs) + {r.node}
  {
    assert Nodes(rs + [r]) == Nodes(rs) + [r.node];
  }

  /** Scanning existing children leaves the runs' nodes exactly the children
      that are in the runs' node set, in order: the collection's invariant. */
  lemma RunsOfInStep(b: seq<XmlChild>)
    requires NoDup(Ids(b))
    ensures Keep(Ids(b), NodeSet(RunsOf(b))) == Nodes(RunsOf(b))
  {
    RunsOfNodes(b);
    KeepSame(Ids(b), NodeSet(RunsOf(b)), RunIds(b));
  }

  /** The runs' texts joined in list order, with no separator. */
  function Concat(rs: seq<Run>): string
  {
    if rs == [] then "" else rs[0].text + Concat(rs[1..])
  }

  /** The joined text of two lists is the join of their joined texts. */
  lemma {:induction false} ConcatAppend(a: seq<Run>, b: seq<Run>)
    ensures Concat(a + b) == Concat(a) + Concat(b)
  {
    if a == [] {
      assert a + b == b;
    } else {
      assert (a + b)[0] == a[0];
      assert (a + b)[1..] == a[1..] + b;
      ConcatAppend(a[1..], b);
    }
  }

  /** The elements at even positions 0, 2, 4, ...: ceil(|s| / 2) of them. */
  function Evens<T>(s: seq<T>): (r: seq<T>)
    ensures |s| <= 2 * |r| <= |s| + 1
    ensures forall k :: 0 <= k < |r| ==> r[k] == s[2 * k]
  {
    if |s| <= 1 then s else [s[0]] + Evens(s[2..])
  }

  /** The elements at odd positions 1, 3, 5, ...: floor(|s| / 2) of them. */
  function Odds<T>(s: seq<T>): (r: seq<T>)
    ensures 2 * |r| <= |s| <= 2 * |r| + 1
    ensures forall k :: 0 <= k < |r| ==> r[k] == s[2 * k + 1]
  {
    if |s| <= 1 then [] else [s[1]] + Odds(s[2..])
  }

  /** Two more elements taken in: the even positions gain the first of them,
      the odd positions the second. */
  lemma EvensOddsStep<T>(s: seq<T>, j: nat)
    requires 2 * j + 2 <= |s|
    ensures Evens(s[..2 * j + 2]) == Evens(s[..2 * j]) + [s[2 * j]]
    ensures Odds(s[..2 * j + 2]) == Odds(s[..2 * j]) + [s[2 * j + 1]]
  {
    var p, q := s[..2 * j], s[..2 * j + 2];
    assert |Evens(q)| == j + 1 && |Evens(p)| == j;
    forall k | 0 <= k < j ensures Evens(q)[k] == Evens(p)[k] {
      assert q[2 * k] == p[2 * k];
    }
    assert |Odds(q)| == j + 1 && |Odds(p)| == j;
    forall k | 0 <= k < j ensures Odds(q)[k] == Odds(p)[k] {
      assert q[2 * k + 1] == p[2 * k + 1];
    }
  }

  /** A list of odd length: its even positions are those of its even-length
      prefix and its last element. */
  lemma EvensLast<T>(s: seq<T>, j: nat)
    requires 2 * j + 1 == |s|
    ensures Evens(s) == Evens(s[..2 * j]) + [s[2 * j]]
  {
    var p := s[..2 * j];
    var e, f := Evens(s), Evens(p) + [s[2 * j]];
    assert |e| == j + 1 && |Evens(p)| == j;
    forall k | 0 <= k < j + 1 ensures e[k] == f[k] {
      if k < j {
        assert f[k] == Evens(p)[k] == p[2 * k] == s[2 * k];
      }
    }
  }

  /** A list of odd length has the odd positions of its even-length prefix. */
  lemma OddsLast<T>(s: seq<T>, j: nat)
    requires 2 * j + 1 == |s|
    ensures Odds(s) == Odds(s[..2 * j])
  {
    var p := s[..2 * j];
    assert |Odds(s)| == j && |Odds(p)| == j;
    forall k | 0 <= k < j ensures Odds(s)[k] == Odds(p)[k] {
      assert s[2 * k + 1] == p[2 * k + 1];
    }
  }

  /** One step of a loop that removes at index `j + 1` of a list made of the
      even positions of the first `2 * j` elements of `o` followed by the rest
      of `o`: it removes `o[2 * j + 1]` and leaves the same shape for `j + 1`. */
  lemma EvensPrefixStep<T>(o: seq<T>, j: nat, s: seq<T>)
    requires 2 * j + 2 <= |o| && s == Evens(o[..2 * j]) + o[2 * j..]
    ensures j + 1 < |s| && s[j + 1] == o[2 * j + 1]
    ensures s[..j + 1] + s[j + 2..] == Evens(o[..2 * j + 2]) + o[2 * j + 2..]
  {
    EvensOddsStep(o, j);
    var e := Evens(o[..2 * j]);
    assert |e| == j;
    assert s[..j + 1] == e + [o[2 * j]];
    assert s[j + 2..] == o[2 * j + 2..];
  }

  /** When that loop stops, the list is the even positions of all of `o`, and
      the elements removed so far are all the odd positions of `o`. */
  lemma EvensPrefixDone<T>(o: seq<T>, j: nat, s: seq<T>)
    requires 2 * j <= |o| && s == Evens(o[..2 * j]) + o[2 * j..] && j + 1 >= |s|
    ensures s == Evens(o) && Odds(o[..2 * j]) == Odds(o)
  {
    assert |Evens(o[..2 * j])| == j;
    if 2 * j < |o| {
      assert |o| == 2 * j + 1;
      assert o[2 * j..] == [o[2 * j]];
      EvensLast(o, j);
      OddsLast(o, j);
    } else {
      assert o[..2 * j] == o;
      assert o[2 * j..] == [];
      assert s == Evens(o) + [];
    }
  }

  /** Position of the first run on node `x`, or -1 when no run is on it. */
  function IndexOfNode(rs: seq<Run>, x: NodeId): (i: int)
    ensures -1 <= i < |rs|
    ensures 0 <= i ==> rs[i].node == x && forall j :: 0 <= j < i ==> rs[j].node != x
    ensures i < 0 ==> forall j :: 0 <= j < |rs| ==> rs[j].node != x
  {
    if rs == [] then -1
    else if rs[0].node == x then 0
    else
      var k := IndexOfNode(rs[1..], x);
      if k < 0 then -1 else k + 1
  }

  /** The run `Add` appends on a fresh node: its font comes from the previous
      last run when there is one, otherwise from the owning cell's style when a
      cell is bound, otherwise it is 11-point Calibri; its text is the argument,
      whitespace is preserved, and it carries a callback when a cell is bound. */
  function NewRun(node: NodeId, text: string, prev: seq<Run>, style: Option<CellStyle>): (r: Run)
    ensures r.node == node && r.text == text && r.preserveSpace
    ensures r.hasCallback <==> style.Some?
    ensures prev != [] ==>
      var p := prev[|prev| - 1];
      r.fontName == p.fontName && r.size == p.size && r.color == p.color &&
      r.bold == p.bold && r.italic == p.italic && r.underline == p.underline
    ensures prev == [] && style.None? ==>
      r.fontName == "Calibri" && r.size == 11.0 &&
      r.color == NoColor && !r.bold && !r.italic && !r.underline
    ensures prev == [] && style.Some? ==>
      r.fontName == style.value.fontName && r.size == style.value.size &&
      r.bold == style.value.bold && r.italic == style.value.italic &&
      r.color == NoColor && !r.underline
  {
    var blank := Blank(node);
    var styled :=
      if prev != [] then
        var p := prev[|prev| - 1];
        blank.(fontName := p.fontName, size := p.size, color := p.color,
               bold := p.bold, italic := p.italic, underline := p.underline)
      else if style.None? then
        blank.(fontName := "Calibri", size := 11.0)
      else
        blank.(fontName := style.value.fontName, size := style.value.size,
               bold := style.value.bold, italic := style.value.italic);
    styled.(text := text, preserveSpace := true, hasCallback := style.Some?)
  }

  /** Keeping the runs at even positions of a list whose first run has text
      `value` leaves more text than `value` as soon as the run at position 2
      has text of its own. */
  lemma {:induction false} EvensKeepThirdRunText(o: seq<Run>, value: string)
    requires |o| >= 3 && o[0].text == value && o[2].text != ""
    ensures |Concat(Evens(o))| > |value|
  {
    var e := Evens(o);
    assert e == [e[0]] + [e[1]] + e[2..];
    ConcatAppend([e[0]] + [e[1]], e[2..]);
    ConcatAppend([e[0]], [e[1]]);
    assert Concat([e[0]]) == e[0].text + Concat([]);
    assert Concat([e[1]]) == e[1].text + Concat([]);
  }

  /** Three runs "a", "b", "c": keeping the even positions after the first
      text is set to "z" leaves the text "zc". */
  lemma EvensExample(n0: NodeId, n1: NodeId, n2: NodeId)
    ensures
      var o := [Blank(n0).(text := "z"), Blank(n1).(text := "b"), Blank(n2).(text := "c")];
      |Evens(o)| == 2 && Concat(Evens(o)) == "zc"
  {
    var o := [Blank(n0).(text := "z"), Blank(n1).(text := "b"), Blank(n2).(text := "c")];
    var e := Evens(o);
    assert e == [o[0], o[2]];
    assert Concat(e) == "z" + Concat([o[2]]);
  }
}
