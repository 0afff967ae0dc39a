/** Ordered lists of XML child nodes, identified by opaque node ids, and the two
    filters the rich-text collection applies to them: keeping the children that
    belong to a set (the run children) and dropping the children of a set (what
    `RemoveChild` and `RemoveAll` do to the backing node). */
module NodeLists {

  /** Identity of an XML node. Two children of one node never share an id. */
  type NodeId = nat

  /** No node id occurs twice in `s`. */
  ghost predicate NoDup(s: seq<NodeId>)
  {
    forall i, j :: 0 <= i < j < |s| ==> s[i] != s[j]
  }

  /** The elements of `cs` that are in `s`, in their order in `cs`. */
  function Keep(cs: seq<NodeId>, s: set<NodeId>): (r: seq<NodeId>)
    ensures |r| <= |cs|
    ensures forall x :: x in r <==> x in cs && x in s
  {
    if cs == [] then [] else (if cs[0] in s then [cs[0]] else []) + Keep(cs[1..], s)
  }

  /** The elements of `cs` that are not in `d`, in their order in `cs`. */
  function Drop(cs: seq<NodeId>, d: set<NodeId>): (r: seq<NodeId>)
    ensures |r| <= |cs|
    ensures forall x :: x in r <==> x in cs && x !in d
  {
    if cs == [] then [] else (if cs[0] in d then [] else [cs[0]]) + Drop(cs[1..], d)
  }

  /** An id larger than every id in `ids`, so not one of them: the node a
      document creates for a new child. */
  function NewNodeId(ids: seq<NodeId>): (n: NodeId)
    ensures forall i :: 0 <= i < |ids| ==> ids[i] < n
    ensures n !in ids
  {
    if ids == [] then 0
    else
      var m := NewNodeId(ids[..|ids| - 1]);
      if ids[|ids| - 1] < m then m else ids[|ids| - 1] + 1
  }

  lemma NoDupCons(x: NodeId, t: seq<NodeId>)
    ensures NoDup([x] + t) <==> x !in t && NoDup(t)
  {
    var s := [x] + t;
    assert forall k | 0 <= k < |t| :: s[k + 1] == t[k];
    if x !in t && NoDup(t) {
      forall i, j | 0 <= i < j < |s| ensures s[i] != s[j] {
        if i == 0 { assert s[j] == t[j - 1]; } else { assert s[i] == t[i - 1] && s[j] == t[j - 1]; }
      }
    }
    if NoDup(s) {
      forall k | 0 <= k < |t| ensures t[k] != x {
        assert s[0] != s[k + 1];
      }
      forall i, j | 0 <= i < j < |t| ensures t[i] != t[j] {
        assert s[i + 1] != s[j + 1];
      }
    }
  }

  /** Appending an id that is new keeps the list free of duplicates. */
  lemma NoDupSnoc(s: seq<NodeId>, x: NodeId)
    requires NoDup(s) && x !in s
    ensures NoDup(s + [x])
  {
    var t := s + [x];
    forall i, j | 0 <= i < j < |t| ensures t[i] != t[j] {
      if j == |s| { assert t[i] == s[i]; } else { assert t[i] == s[i] && t[j] == s[j]; }
    }
  }

  lemma {:induction false} KeepNoDup(cs: seq<NodeId>, s: set<NodeId>)
    requires NoDup(cs)
    ensures NoDup(Keep(cs, s))
  {
    if cs != [] {
      assert cs == [cs[0]] + cs[1..];
      NoDupCons(cs[0], cs[1..]);
      KeepNoDup(cs[1..], s);
      if cs[0] in s {
        NoDupCons(cs[0], Keep(cs[1..], s));
      }
    }
  }

  lemma {:induction false} DropNoDup(cs: seq<NodeId>, d: set<NodeId>)
    requires NoDup(cs)
    ensures NoDup(Drop(cs, d))
  {
    if cs != [] {
      assert cs == [cs[0]] + cs[1..];
      NoDupCons(cs[0], cs[1..]);
      DropNoDup(cs[1..], d);
      if cs[0] !in d {
        NoDupCons(cs[0], Drop(cs[1..], d));
      }
    }
  }

  /** Keeping from a list with one more element at the end. */
  lemma {:induction false} KeepSnoc(cs: seq<NodeId>, x: NodeId, s: set<NodeId>)
    ensures Keep(cs + [x], s) == Keep(cs, s) + (if x in s then [x] else [])
  {
    if cs == [] {
      assert [x][1..] == [];
    } else {
      var t := cs + [x];
      assert t[0] == cs[0];
      assert t[1..] == cs[1..] + [x];
      KeepSnoc(cs[1..], x, s);
      var k := if cs[0] in s then [cs[0]] else [];
      assert Keep(t, s) == k + Keep(cs[1..] + [x], s);
      assert Keep(cs, s) == k + Keep(cs[1..], s);
    }
  }

  /** Two sets that agree on every element of the list keep the same elements. */
  lemma {:induction false} KeepSame(cs: seq<NodeId>, s: set<NodeId>, t: set<NodeId>)
    requires forall x :: x in cs ==> (x in s <==> x in t)
    ensures Keep(cs, s) == Keep(cs, t)
  {
    if cs != [] {
      assert forall x :: x in cs[1..] ==> x in cs;
      KeepSame(cs[1..], s, t);
    }
  }

  /** Removing the child `x` from the list and `x` from the kept set is the same
      as removing `x` from what was kept. */
  lemma {:induction false} KeepDrop(cs: seq<NodeId>, s: set<NodeId>, x: NodeId)
    ensures Keep(Drop(cs, {x}), s - {x}) == Drop(Keep(cs, s), {x})
  {
    if cs != [] {
      var c, t := cs[0], cs[1..];
      KeepDrop(t, s, x);
      var k := if c in s then [c] else [];
      assert Keep(cs, s) == k + Keep(t, s);
      DropAppend(k, Keep(t, s), {x});
      if c == x {
        assert Drop(cs, {x}) == Drop(t, {x});
        assert Drop(k, {x}) == [] by { if c in s { assert Drop(k, {x}) == [] + Drop(k[1..], {x}); } }
      } else {
        assert Drop(cs, {x}) == [c] + Drop(t, {x});
        assert ([c] + Drop(t, {x}))[1..] == Drop(t, {x});
        assert Keep(Drop(cs, {x}), s - {x}) == k + Keep(Drop(t, {x}), s - {x});
        assert Drop(k, {x}) == k by { if c in s { assert Drop(k, {x}) == [c] + Drop(k[1..], {x}); } }
      }
    }
  }

  lemma {:induction false} DropAppend(a: seq<NodeId>, b: seq<NodeId>, d: set<NodeId>)
    ensures Drop(a + b, d) == Drop(a, d) + Drop(b, d)
  {
    if a == [] {
      assert a + b == b;
    } else {
      assert (a + b)[0] == a[0];
      assert (a + b)[1..] == a[1..] + b;
      DropAppend(a[1..], b, d);
    }
  }

  /** Dropping twice is dropping the union. */
  lemma {:induction false} DropDrop(cs: seq<NodeId>, d: set<NodeId>, e: set<NodeId>)
    ensures Drop(Drop(cs, d), e) == Drop(cs, d + e)
  {
    if cs != [] {
      DropDrop(cs[1..], d, e);
      var k := if cs[0] in d then [] else [cs[0]];
      assert Drop(cs, d) == k + Drop(cs[1..], d);
      DropAppend(k, Drop(cs[1..], d), e);
    }
  }

  /** Dropping nothing changes nothing. */
  lemma {:induction false} DropNone(cs: seq<NodeId>)
    ensures Drop(cs, {}) == cs
  {
    if cs != [] {
      DropNone(cs[1..]);
      assert cs == [cs[0]] + cs[1..];
    }
  }

  /** Dropping an id the list does not hold changes nothing. */
  lemma {:induction false} DropAbsent(cs: seq<NodeId>, x: NodeId)
    requires x !in cs
    ensures Drop(cs, {x}) == cs
  {
    if cs != [] {
      assert x !in cs[1..];
      DropAbsent(cs[1..], x);
      assert cs == [cs[0]] + cs[1..];
    }
  }

  /** In a list without duplicates, dropping the element at `i` is deleting
      position `i`. */
  lemma {:induction false} DropAt(cs: seq<NodeId>, i: nat)
    requires NoDup(cs) && i < |cs|
    ensures Drop(cs, {cs[i]}) == cs[..i] + cs[i + 1..]
  {
    assert cs == [cs[0]] + cs[1..];
    NoDupCons(cs[0], cs[1..]);
    if i == 0 {
      DropAbsent(cs[1..], cs[0]);
    } else {
      DropAt(cs[1..], i - 1);
      assert cs[1..][i - 1] == cs[i];
      assert cs[..i] == [cs[0]] + cs[1..][..i - 1];
      assert cs[i + 1..] == cs[1..][i..];
    }
  }
}
