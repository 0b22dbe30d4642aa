/** The message tree of `SML_Structure` and its leaf classes, built through a
    cursor. The source links every node to its parent object; here the
    cursor is a zipper: the root's children plus the stack of lists that
    are still open, outermost first. The last open list is the cursor. An
    open list already sits in its parent's child list in the source, so
    every open list below the top counts one child more than it stores. */
module Tree {
  import opened Base

  datatype Node =
    | Structure(arity: Option<int>, children: seq<Node>)
    | OctetString(length: int, data: Bytes)
    | SignedInteger(length: int, value: int)
    | UnsignedInteger(length: int, value: int)
    | EndOfMessage

  /** A list that is still open: its declared length and the children
      stored so far. */
  datatype Frame = Frame(arity: int, children: seq<Node>)

  datatype Cursor = Cursor(rootChildren: seq<Node>, open: seq<Frame>)

  /** `returnSelfOrParent` found more children than a list declared. */
  datatype TreeError = ArityOverflow

  /** `SML_Structure()`: a fresh root with no length and no parent. */
  const NewRoot := Cursor([], [])

  /** The leaves the decoder appends through `AddOctetString`,
      `AddSignedInteger`, `AddUnsignedInteger` and `AddEndOfMessage`. */
  predicate IsLeaf(n: Node)
  {
    !n.Structure?
  }

  /** `len(children)` of the `i`-th open list, counting the open list above
      it, which the source has already appended. */
  function Count(c: Cursor, i: nat): int
    requires i < |c.open|
  {
    |c.open[i].children| + (if i + 1 < |c.open| then 1 else 0)
  }

  /** The structure the cursor designates. */
  function Focus(c: Cursor): (r: Node)
    ensures r.Structure?
  {
    if c.open == [] then Structure(None, c.rootChildren)
    else
      var f := c.open[|c.open| - 1];
      Structure(Some(f.arity), f.children)
  }

  /** `children.append(n)` on the cursor's structure. */
  function AppendChild(c: Cursor, n: Node): (r: Cursor)
    ensures |r.open| == |c.open|
    ensures Focus(r).children == Focus(c).children + [n]
    ensures Focus(r).arity == Focus(c).arity
  {
    if c.open == [] then Cursor(c.rootChildren + [n], [])
    else
      var k := |c.open| - 1;
      Cursor(c.rootChildren, c.open[k := Frame(c.open[k].arity, c.open[k].children + [n])])
  }

  /** Moves the cursor to the parent: the open list becomes a finished
      child of the list below it. */
  function Close(c: Cursor): (r: Cursor)
    requires c.open != []
    ensures |r.open| == |c.open| - 1
  {
    var k := |c.open| - 1;
    var f := c.open[k];
    AppendChild(Cursor(c.rootChildren, c.open[..k]), Structure(Some(f.arity), f.children))
  }

  /** Every open list from index `i` upwards holds exactly its declared
      number of children. */
  predicate FullFrom(c: Cursor, i: nat)
  {
    forall j :: i <= j < |c.open| ==> Count(c, j) == c.open[j].arity
  }

  /** `returnSelfOrParent`: raise when the cursor's list holds more children
      than declared; climb to the parent while the list is exactly full.
      The root has no length and no parent, so it neither overflows nor is
      ever left. */
  function Ascend(c: Cursor): (r: Result<Cursor, TreeError>)
    ensures c.open == [] ==> r == Ok(c)
    ensures r.Ok? ==> |r.value.open| <= |c.open|
    decreases |c.open|
  {
    if c.open == [] then Ok(c)
    else
      var f := c.open[|c.open| - 1];
      if |f.children| > f.arity then Err(ArityOverflow)
      else if |f.children| == f.arity then Ascend(Close(c))
      else Ok(c)
  }

  /** Climbing only moves the cursor: the tree is the same. */
  lemma {:induction false} AscendKeepsTree(c: Cursor)
    requires Ascend(c).Ok?
    ensures GetRoot(Ascend(c).value) == GetRoot(c)
    decreases |c.open|
  {
    if c.open != [] && |c.open[|c.open| - 1].children| == c.open[|c.open| - 1].arity {
      AscendKeepsTree(Close(c));
    }
  }

  /** Closing the top list leaves every other list as it was, apart from
      the closed list becoming the last child of the list below it. */
  lemma CloseKeepsLower(c: Cursor)
    requires c.open != []
    ensures forall j :: 0 <= j < |c.open| - 2 ==> Close(c).open[j] == c.open[j]
    ensures forall j :: 0 <= j < |c.open| - 1 ==> Count(Close(c), j) == Count(c, j)
    ensures forall j :: 0 <= j < |c.open| - 1 ==> Close(c).open[j].arity == c.open[j].arity
  {
  }

  /** Where the climb stops: every list it passed was exactly full, and the
      list it stops at (unless it reached the root) still has room; the
      lists below are untouched. */
  lemma AscendStops(c: Cursor)
    requires Ascend(c).Ok?
    ensures var r := Ascend(c).value; var m := |r.open|;
      && FullFrom(c, m)
      && (forall j :: 0 <= j < m - 1 ==> r.open[j] == c.open[j])
      && (m > 0 ==> r.open[m - 1].arity == c.open[m - 1].arity)
      && (m > 0 ==> |r.open[m - 1].children| == Count(c, m - 1) < c.open[m - 1].arity)
      && (m == |c.open| ==> r == c)
  {
    AscendFull(c);
    AscendBelow(c);
    AscendRoom(c);
  }

  /** Every list the climb passes is exactly full. */
  lemma {:induction false} AscendFull(c: Cursor)
    requires Ascend(c).Ok?
    ensures FullFrom(c, |Ascend(c).value.open|)
    ensures |Ascend(c).value.open| == |c.open| ==> Ascend(c).value == c
    decreases |c.open|
  {
    if c.open != [] {
      var k := |c.open| - 1;
      if |c.open[k].children| == c.open[k].arity {
        var p := Close(c);
        CloseKeepsLower(c);
        AscendFull(p);
        assert Ascend(c) == Ascend(p);
        var m := |Ascend(p).value.open|;
        forall j | m <= j < |c.open|
          ensures Count(c, j) == c.open[j].arity
        {
          if j < k {
            assert Count(p, j) == p.open[j].arity;
          }
        }
      }
    }
  }

  /** The lists below the stopping point are untouched, and the list it
      stops at keeps its length and its children apart from the closed
      ones. */
  lemma {:induction false} AscendBelow(c: Cursor)
    requires Ascend(c).Ok?
    ensures var r := Ascend(c).value; var m := |r.open|;
      && (forall j :: 0 <= j < m - 1 ==> r.open[j] == c.open[j])
      && (m > 0 ==> r.open[m - 1].arity == c.open[m - 1].arity)
      && (m > 0 ==> |r.open[m - 1].children| == Count(c, m - 1))
    decreases |c.open|
  {
    if c.open != [] {
      var k := |c.open| - 1;
      if |c.open[k].children| == c.open[k].arity {
        var p := Close(c);
        CloseKeepsLower(c);
        AscendBelow(p);
        assert Ascend(c) == Ascend(p);
      }
    }
  }

  /** The climb stops at a list with room left, or at the root. */
  lemma {:induction false} AscendRoom(c: Cursor)
    requires Ascend(c).Ok?
    ensures var r := Ascend(c).value;
      r.open != [] ==> |r.open[|r.open| - 1].children| < r.open[|r.open| - 1].arity
    decreases |c.open|
  {
    if c.open != [] {
      var k := |c.open| - 1;
      if |c.open[k].children| == c.open[k].arity {
        AscendRoom(Close(c));
      }
    }
  }

  /** Below a full top list, closing it changes no list's fullness. */
  lemma CloseKeepsFullness(c: Cursor, i: nat)
    requires c.open != [] && i < |c.open| - 1
    requires Count(c, |c.open| - 1) == c.open[|c.open| - 1].arity
    ensures FullFrom(Close(c), i + 1) <==> FullFrom(c, i + 1)
    ensures Count(Close(c), i) == Count(c, i) && Close(c).open[i].arity == c.open[i].arity
  {
    CloseKeepsLower(c);
  }

  /** Some list holds too many children while every list above it is
      exactly full: the climb reaches it and raises. */
  predicate Overflows(c: Cursor)
  {
    exists i :: 0 <= i < |c.open| && FullFrom(c, i + 1) && Count(c, i) > c.open[i].arity
  }

  /** The climb raises exactly when, above some list that holds too many
      children, every list is exactly full. */
  lemma {:induction false} AscendFails(c: Cursor)
    ensures Ascend(c).Err? <==> exists i :: 0 <= i < |c.open| && FullFrom(c, i + 1) && Count(c, i) > c.open[i].arity
    decreases |c.open|
  {
    if c.open != [] {
      var k := |c.open| - 1;
      var f := c.open[k];
      if |f.children| > f.arity {
        assert FullFrom(c, k + 1) && Count(c, k) > c.open[k].arity;
      } else if |f.children| == f.arity {
        AscendFails(Close(c));
        AscendFailsFull(c);
      } else {
        AscendFailsRoom(c);
      }
    }
  }

  /** With the top list exactly full, the climb raises from `c` exactly
      when it raises from the closed cursor. */
  lemma AscendFailsFull(c: Cursor)
    requires c.open != [] && |c.open[|c.open| - 1].children| == c.open[|c.open| - 1].arity
    requires Ascend(Close(c)).Err? <==> Overflows(Close(c))
    ensures Ascend(c).Err? <==> Overflows(c)
  {
    var p := Close(c);
    assert Ascend(c) == Ascend(p);
    if Overflows(p) {
      var i :| 0 <= i < |p.open| && FullFrom(p, i + 1) && Count(p, i) > p.open[i].arity;
      CloseKeepsFullness(c, i);
      assert FullFrom(c, i + 1) && Count(c, i) > c.open[i].arity;
    }
    if Overflows(c) {
      var i :| 0 <= i < |c.open| && FullFrom(c, i + 1) && Count(c, i) > c.open[i].arity;
      CloseKeepsFullness(c, i);
      assert FullFrom(p, i + 1) && Count(p, i) > p.open[i].arity;
    }
  }

  /** With room left in the top list, no list overflows on the way up. */
  lemma AscendFailsRoom(c: Cursor)
    requires c.open != [] && |c.open[|c.open| - 1].children| < c.open[|c.open| - 1].arity
    ensures !Overflows(c)
  {
    var k := |c.open| - 1;
    forall i | 0 <= i < |c.open| && FullFrom(c, i + 1)
      ensures Count(c, i) <= c.open[i].arity
    {
      assert i == k;
    }
  }

  /** `AddStructure(length)`: a new empty list becomes the last child of the
      cursor's structure and the new cursor. No arity check happens here. */
  function AddStructure(c: Cursor, arity: int): (r: Cursor)
    ensures Focus(r) == Structure(Some(arity), [])
    ensures |r.open| == |c.open| + 1 && r.open[..|c.open|] == c.open && r.rootChildren == c.rootChildren
  {
    Cursor(c.rootChildren, c.open + [Frame(arity, [])])
  }

  /** `AddOctetString`, `AddSignedInteger`, `AddUnsignedInteger` and
      `AddEndOfMessage`: append the leaf, then `returnSelfOrParent`. At the
      root the leaf is simply appended; a list that already holds its
      declared number of children overflows; a list with room for more
      than this leaf keeps the cursor. */
  function AddLeaf(c: Cursor, n: Node): (r: Result<Cursor, TreeError>)
    requires IsLeaf(n)
    ensures c.open == [] ==> r == Ok(Cursor(c.rootChildren + [n], []))
    ensures c.open != [] && |c.open[|c.open| - 1].children| >= c.open[|c.open| - 1].arity ==>
      r == Err(ArityOverflow)
    ensures c.open != [] && |c.open[|c.open| - 1].children| + 1 < c.open[|c.open| - 1].arity ==>
      r == Ok(AppendChild(c, n))
    ensures r.Ok? ==> |r.value.open| <= |c.open|
  {
    Ascend(AppendChild(c, n))
  }

  /** `GetRoot`: the whole tree, every open list closed into its parent. */
  function GetRoot(c: Cursor): (r: Node)
    ensures r.Structure? && r.arity.None?
    decreases |c.open|
  {
    if c.open == [] then Structure(None, c.rootChildren) else GetRoot(Close(c))
  }

  /** Follows the last child `d` times. */
  function LastDescendant(n: Node, d: nat): Option<Node>
  {
    if d == 0 then Some(n)
    else if n.Structure? && |n.children| > 0 then LastDescendant(n.children[|n.children| - 1], d - 1)
    else None
  }

  lemma {:induction false} LastDescendantStep(n: Node, d: nat)
    ensures LastDescendant(n, d + 1) ==
      match LastDescendant(n, d)
      case Some(m) => if m.Structure? && |m.children| > 0 then Some(m.children[|m.children| - 1]) else None
      case None => None
  {
    if d > 0 && n.Structure? && |n.children| > 0 {
      LastDescendantStep(n.children[|n.children| - 1], d - 1);
    }
  }

  /** The parent chain of the source, read downwards: from the root,
      following the last child once per open list reaches the cursor. */
  lemma {:induction false} CursorOnRightmostPath(c: Cursor)
    ensures LastDescendant(GetRoot(c), |c.open|) == Some(Focus(c))
    decreases |c.open|
  {
    if c.open != [] {
      var p := Close(c);
      CursorOnRightmostPath(p);
      LastDescendantStep(GetRoot(c), |p.open|);
      var f := c.open[|c.open| - 1];
      assert Focus(p).children[|Focus(p).children| - 1] == Structure(Some(f.arity), f.children);
    }
  }

  /** A list the decoder has closed: it holds exactly its declared number
      of children, and so does every list inside it. The root is never a
      child. */
  predicate Exact(n: Node)
  {
    match n
    case Structure(a, ch) => a.Some? && |ch| == a.value && forall k :: 0 <= k < |ch| ==> Exact(ch[k])
    case _ => true
  }

  predicate AllExact(ns: seq<Node>)
  {
    forall k :: 0 <= k < |ns| ==> Exact(ns[k])
  }

  /** An open list holds finished children only, and fewer than it declared
      unless it is still empty. */
  predicate FrameOk(f: Frame)
  {
    AllExact(f.children) && (|f.children| < f.arity || f.children == [])
  }

  /** The cursor invariant the decoder keeps. */
  predicate Wf(c: Cursor)
  {
    AllExact(c.rootChildren) && forall i :: 0 <= i < |c.open| ==> FrameOk(c.open[i])
  }

  /** `Wf`, except that the top list may have just become full or too full. */
  predicate ReadyToAscend(c: Cursor)
  {
    && AllExact(c.rootChildren)
    && (forall i :: 0 <= i < |c.open| ==> AllExact(c.open[i].children))
    && (forall i :: 0 <= i < |c.open| - 1 ==> FrameOk(c.open[i]))
  }

  lemma {:induction false} AscendKeepsWf(c: Cursor)
    requires ReadyToAscend(c)
    ensures Ascend(c).Ok? ==> Wf(Ascend(c).value)
    decreases |c.open|
  {
    if c.open != [] {
      var k := |c.open| - 1;
      var f := c.open[k];
      if |f.children| == f.arity {
        var p := Close(c);
        var closed := Structure(Some(f.arity), f.children);
        assert Exact(closed);
        assert ReadyToAscend(p) by {
          if k == 0 {
            assert p.rootChildren == c.rootChildren + [closed];
          } else {
            assert p.open[k - 1].children == c.open[k - 1].children + [closed];
            assert forall i :: 0 <= i < k - 1 ==> p.open[i] == c.open[i];
          }
        }
        AscendKeepsWf(p);
      }
    }
  }

  /** Appending a leaf and climbing keeps the cursor invariant. */
  lemma AddLeafKeepsWf(c: Cursor, n: Node)
    requires Wf(c) && IsLeaf(n)
    ensures AddLeaf(c, n).Ok? ==> Wf(AddLeaf(c, n).value)
  {
    var a := AppendChild(c, n);
    assert ReadyToAscend(a) by {
      if c.open != [] {
        var k := |c.open| - 1;
        assert forall i :: 0 <= i < k ==> a.open[i] == c.open[i];
        assert a.open[k].children == c.open[k].children + [n];
      }
    }
    AscendKeepsWf(a);
  }

  /** Opening a list keeps the cursor invariant. */
  lemma AddStructureKeepsWf(c: Cursor, arity: int)
    requires Wf(c)
    ensures Wf(AddStructure(c, arity))
  {
  }

  /** The leaf ends up as the last child of the structure that was the
      cursor, wherever the cursor moves afterwards. */
  lemma AddLeafAppends(c: Cursor, n: Node)
    requires IsLeaf(n) && AddLeaf(c, n).Ok?
    ensures LastDescendant(GetRoot(AddLeaf(c, n).value), |c.open|) == Some(Structure(Focus(c).arity, Focus(c).children + [n]))
  {
    CursorOnRightmostPath(AppendChild(c, n));
    AscendKeepsTree(AppendChild(c, n));
  }

  /** The new list ends up as the last child of the structure that was the
      cursor, and becomes the cursor. */
  lemma AddStructureAppends(c: Cursor, arity: int)
    ensures LastDescendant(GetRoot(AddStructure(c, arity)), |c.open|) == Some(Structure(Focus(c).arity, Focus(c).children + [Structure(Some(arity), [])]))
    ensures LastDescendant(GetRoot(AddStructure(c, arity)), |c.open| + 1) == Some(Structure(Some(arity), []))
  {
    var d := AddStructure(c, arity);
    assert Close(d) == AppendChild(c, Structure(Some(arity), []));
    CursorOnRightmostPath(Close(d));
    CursorOnRightmostPath(d);
  }
}
