/** `getAllVisibleNodes` of tree.go: the depth-first, pre-order listing of
    the nodes whose ancestors are all expanded. A node is listed by its path. */
module Visibility {
  import opened Tree
  import opened Subsequences

  /** Each path of `ps`, placed below `prefix`. */
  function Under(prefix: Path, ps: seq<Path>): (r: seq<Path>)
    ensures |r| == |ps| && forall i :: 0 <= i < |ps| ==> r[i] == prefix + ps[i]
  {
    seq(|ps|, i requires 0 <= i < |ps| => prefix + ps[i])
  }

  lemma UnderConcat(prefix: Path, a: seq<Path>, b: seq<Path>)
    ensures Under(prefix, a + b) == Under(prefix, a) + Under(prefix, b)
  {
  }

  lemma UnderUnder(prefix: Path, k: nat, ps: seq<Path>)
    ensures Under(prefix + [k], ps) == Under(prefix, Under([k], ps))
  {
    forall i | 0 <= i < |ps| ensures prefix + [k] + ps[i] == prefix + ([k] + ps[i]) { }
  }

  lemma UnderRoot(ps: seq<Path>)
    ensures Under([], ps) == ps
  {
    forall i | 0 <= i < |ps| ensures Under([], ps)[i] == ps[i] {
      assert [] + ps[i] == ps[i];
    }
  }

  lemma UnderSelf(prefix: Path)
    ensures Under(prefix, [[]]) == [prefix]
  {
    assert prefix + [] == prefix;
  }

  lemma UnderPrefix(prefix: Path, ps: seq<Path>, n: nat)
    requires n <= |ps|
    ensures Under(prefix, ps)[..n] == Under(prefix, ps[..n])
  {
  }

  lemma UnderMember(k: nat, ps: seq<Path>, x: Path)
    ensures x in Under([k], ps) <==> |x| >= 1 && x[0] == k && x[1..] in ps
  {
    if |x| >= 1 && x[0] == k && x[1..] in ps {
      var i :| 0 <= i < |ps| && ps[i] == x[1..];
      assert Under([k], ps)[i] == x;
    }
  }

  /** The pre-order listing of the paths of `t`: the node itself, then, when
      `all` is set or the node is expanded, the listing of each child in
      order. With `all` set this is the whole tree. */
  function Preorder(t: Node, all: bool): (r: seq<Path>)
    ensures |r| >= 1 && r[0] == []
    decreases t, |t.children| + 1
  {
    [[]] + (if all || t.expanded then ChildrenPreorder(t, 0, all) else [])
  }

  /** The listings of the children of `t` from the `j`-th on. */
  function ChildrenPreorder(t: Node, j: nat, all: bool): seq<Path>
    decreases t, |t.children| - j
  {
    if j >= |t.children| then []
    else Under([j], Preorder(t.children[j], all)) + ChildrenPreorder(t, j + 1, all)
  }

  /** What `getAllVisibleNodes` returns. */
  function Visible(t: Node): seq<Path>
  {
    Preorder(t, false)
  }

  /** The node at `p` is visible: `p` leads to a node and every node above it
      on the way is expanded. */
  predicate Shown(t: Node, p: Path)
    decreases p
  {
    p == [] || (t.expanded && p[0] < |t.children| && Shown(t.children[p[0]], p[1..]))
  }

  lemma {:induction false} ShownValid(t: Node, p: Path)
    requires Shown(t, p)
    ensures ValidPath(t, p)
    decreases p
  {
    if p != [] {
      ShownValid(t.children[p[0]], p[1..]);
    }
  }

  lemma {:induction false} InChildrenPreorder(t: Node, j: nat, all: bool, x: Path)
    ensures x in ChildrenPreorder(t, j, all) <==>
      |x| >= 1 && j <= x[0] < |t.children| && x[1..] in Preorder(t.children[x[0]], all)
    decreases |t.children| - j
  {
    if j < |t.children| {
      UnderMember(j, Preorder(t.children[j], all), x);
      InChildrenPreorder(t, j + 1, all, x);
    }
  }

  /** A path is listed exactly when its node is visible. */
  lemma {:induction false} VisibleIff(t: Node, p: Path)
    ensures p in Visible(t) <==> Shown(t, p)
    decreases p
  {
    if p != [] {
      if t.expanded {
        InChildrenPreorder(t, 0, false, p);
        if p[0] < |t.children| {
          VisibleIff(t.children[p[0]], p[1..]);
        }
      }
    }
  }

  /** With `all` set, a path is listed exactly when it leads to a node. */
  lemma {:induction false} FullPreorderIff(t: Node, p: Path)
    ensures p in Preorder(t, true) <==> ValidPath(t, p)
    decreases p
  {
    if p != [] {
      InChildrenPreorder(t, 0, true, p);
      if p[0] < |t.children| {
        FullPreorderIff(t.children[p[0]], p[1..]);
      }
    }
  }

  /** Every listed path leads to a node of the tree. */
  lemma VisibleValid(t: Node, p: Path)
    requires p in Visible(t)
    ensures ValidPath(t, p)
  {
    VisibleIff(t, p);
    ShownValid(t, p);
  }

  lemma {:induction false} ShownAncestorExpanded(t: Node, p: Path, q: Path)
    requires ValidPath(t, p) && Shown(t, q)
    requires |q| > |p| && q[..|p|] == p
    ensures At(t, p).expanded
    decreases p
  {
    if p != [] {
      assert q[1..][..|p| - 1] == p[1..];
      ShownAncestorExpanded(t.children[p[0]], p[1..], q[1..]);
    }
  }

  /** A collapsed node hides every node below it. */
  lemma CollapsedHidesDescendants(t: Node, p: Path, q: Path)
    requires ValidPath(t, p) && !At(t, p).expanded
    requires |q| > |p| && q[..|p|] == p
    ensures q !in Visible(t)
  {
    VisibleIff(t, q);
    if Shown(t, q) {
      ShownAncestorExpanded(t, p, q);
    }
  }

  /** The visible listing keeps the order of the full pre-order listing and
      only leaves nodes out. */
  lemma {:induction false} VisibleSubseqOfPreorder(t: Node)
    ensures IsSubseq(Visible(t), Preorder(t, true))
    decreases t, |t.children| + 1
  {
    var full := ChildrenPreorder(t, 0, true);
    if t.expanded {
      ChildrenSubseqOfPreorder(t, 0);
    } else {
      SubseqEmpty(full);
    }
    SubseqRefl<Path>([[]]);
    SubseqConcat([[]], [[]], if t.expanded then ChildrenPreorder(t, 0, false) else [], full);
  }

  lemma {:induction false} ChildrenSubseqOfPreorder(t: Node, j: nat)
    ensures IsSubseq(ChildrenPreorder(t, j, false), ChildrenPreorder(t, j, true))
    decreases t, |t.children| - j
  {
    if j >= |t.children| {
      SubseqRefl<Path>([]);
    } else {
      var c := t.children[j];
      VisibleSubseqOfPreorder(c);
      SubseqPrepend([j], Preorder(c, false), Preorder(c, true));
      ChildrenSubseqOfPreorder(t, j + 1);
      SubseqConcat(Under([j], Preorder(c, false)), Under([j], Preorder(c, true)),
                   ChildrenPreorder(t, j + 1, false), ChildrenPreorder(t, j + 1, true));
    }
  }

  /** Changing the flag of the node listed at position `i` leaves the listing
      up to and including position `i` as it was: only nodes below it, which
      come after it, appear or disappear. */
  lemma {:induction false} PrefixStable(t: Node, i: nat, b: bool)
    requires i < |Visible(t)|
    ensures ValidPath(t, Visible(t)[i])
    ensures var t' := SetExpanded(t, Visible(t)[i], b);
      i < |Visible(t')| && Visible(t')[..i + 1] == Visible(t)[..i + 1]
    decreases t, |t.children| + 1
  {
    var q := Visible(t)[i];
    if i == 0 {
      assert q == [];
      var t' := SetExpanded(t, q, b);
      assert t' == t.(expanded := b);
      assert Visible(t')[..1] == [[]] == Visible(t)[..1];
    } else {
      var cs := ChildrenPreorder(t, 0, false);
      assert t.expanded;
      assert Visible(t) == [[]] + cs;
      assert q == cs[i - 1];
      ChildrenPrefixStable(t, 0, i - 1, b);
      var t' := SetExpanded(t, q, b);
      assert t'.expanded;
      var cs' := ChildrenPreorder(t', 0, false);
      assert Visible(t') == [[]] + cs';
      assert Visible(t')[..i + 1] == [[]] + cs'[..i];
      assert Visible(t)[..i + 1] == [[]] + cs[..i];
    }
  }

  lemma {:induction false} ChildrenPrefixStable(t: Node, j: nat, i: nat, b: bool)
    requires i < |ChildrenPreorder(t, j, false)|
    ensures var q := ChildrenPreorder(t, j, false)[i];
      ValidPath(t, q) && |q| >= 1 && q[0] >= j
    ensures var q := ChildrenPreorder(t, j, false)[i];
      var t' := SetExpanded(t, q, b);
      && i < |ChildrenPreorder(t', j, false)|
      && ChildrenPreorder(t', j, false)[..i + 1] == ChildrenPreorder(t, j, false)[..i + 1]
    decreases t, |t.children| - j, 1
  {
    assert j < |t.children|;
    var block := Under([j], Visible(t.children[j]));
    if i < |block| {
      FirstChildPrefixStable(t, j, i, b);
    } else {
      LaterChildPrefixStable(t, j, i, b);
    }
  }

  /** The position lies in the listing of the `j`-th child. */
  lemma {:induction false} FirstChildPrefixStable(t: Node, j: nat, i: nat, b: bool)
    requires j < |t.children| && i < |Visible(t.children[j])|
    ensures i < |ChildrenPreorder(t, j, false)|
    ensures var q := ChildrenPreorder(t, j, false)[i];
      ValidPath(t, q) && |q| >= 1 && q[0] == j
    ensures var q := ChildrenPreorder(t, j, false)[i];
      var t' := SetExpanded(t, q, b);
      && i < |ChildrenPreorder(t', j, false)|
      && ChildrenPreorder(t', j, false)[..i + 1] == ChildrenPreorder(t, j, false)[..i + 1]
    decreases t, |t.children| - j, 0
  {
    var all := ChildrenPreorder(t, j, false);
    var c := t.children[j];
    var block := Under([j], Visible(c));
    assert all == block + ChildrenPreorder(t, j + 1, false);
    var q := all[i];
    var r := Visible(c)[i];
    assert q == [j] + r;
    assert q[0] == j && q[1..] == r;
    PrefixStable(c, i, b);
    var c' := SetExpanded(c, r, b);
    var t' := SetExpanded(t, q, b);
    assert t' == t.(children := t.children[j := c']);
    assert t'.children[j] == c';
    var all' := ChildrenPreorder(t', j, false);
    assert all' == Under([j], Visible(c')) + ChildrenPreorder(t', j + 1, false);
    assert all'[..i + 1] == Under([j], Visible(c'))[..i + 1];
    UnderPrefix([j], Visible(c'), i + 1);
    UnderPrefix([j], Visible(c), i + 1);
    assert all[..i + 1] == block[..i + 1];
  }

  /** The position lies beyond the listing of the `j`-th child. */
  lemma {:induction false} LaterChildPrefixStable(t: Node, j: nat, i: nat, b: bool)
    requires j < |t.children|
    requires |Visible(t.children[j])| <= i < |ChildrenPreorder(t, j, false)|
    ensures var q := ChildrenPreorder(t, j, false)[i];
      ValidPath(t, q) && |q| >= 1 && q[0] > j
    ensures var q := ChildrenPreorder(t, j, false)[i];
      var t' := SetExpanded(t, q, b);
      && i < |ChildrenPreorder(t', j, false)|
      && ChildrenPreorder(t', j, false)[..i + 1] == ChildrenPreorder(t, j, false)[..i + 1]
    decreases t, |t.children| - j, 0
  {
    var all := ChildrenPreorder(t, j, false);
    var c := t.children[j];
    var block := Under([j], Visible(c));
    var rest := ChildrenPreorder(t, j + 1, false);
    assert all == block + rest;
    var q := all[i];
    var k := i - |block|;
    assert q == rest[k];
    ChildrenPrefixStable(t, j + 1, k, b);
    var t' := SetExpanded(t, q, b);
    assert t'.children[j] == c;
    var rest' := ChildrenPreorder(t', j + 1, false);
    var all' := ChildrenPreorder(t', j, false);
    assert all' == block + rest';
    assert all'[..i + 1] == block + rest'[..k + 1];
    assert all[..i + 1] == block + rest[..k + 1];
  }

  /** Collapsing the node at position `i` keeps it at position `i`, hides
      everything below it, and expanding it again restores the listing. */
  lemma CollapseAndRestore(t: Node, i: nat)
    requires i < |Visible(t)|
    ensures ValidPath(t, Visible(t)[i])
    ensures var q := Visible(t)[i];
      var t' := SetExpanded(t, q, false);
      && i < |Visible(t')| && Visible(t')[i] == q
      && (forall x :: x in Visible(t') && |x| > |q| ==> x[..|q|] != q)
      && Visible(SetExpanded(t', q, At(t, q).expanded)) == Visible(t)
  {
    PrefixStable(t, i, false);
    var q := Visible(t)[i];
    var t' := SetExpanded(t, q, false);
    assert Visible(t')[i] == Visible(t')[..i + 1][i];
    forall x | x in Visible(t') && |x| > |q| ensures x[..|q|] != q {
      if x[..|q|] == q {
        CollapsedHidesDescendants(t', q, x);
      }
    }
    SetExpandedTwice(t, q, false, At(t, q).expanded);
    SetExpandedUnchanged(t, q);
  }

  /** Where `collectNodes` starts: the node's own path, then the listings
      of its children when it is expanded. */
  lemma CollectStart(node: Node, path: Path, acc: seq<Path>)
    ensures acc + Under(path, Visible(node)) ==
      (acc + [path]) + (if node.expanded then Under(path, ChildrenPreorder(node, 0, false)) else [])
  {
    UnderSelf(path);
    if node.expanded {
      assert Visible(node) == [[]] + ChildrenPreorder(node, 0, false);
      UnderConcat(path, [[]], ChildrenPreorder(node, 0, false));
    } else {
      assert Visible(node) == [[]];
    }
  }

  /** One child of `collectNodes`: its listing, below its path, comes next. */
  lemma CollectChild(node: Node, path: Path, i: nat, nodes: seq<Path>, next: seq<Path>, target: seq<Path>)
    requires i < |node.children|
    requires nodes + Under(path, ChildrenPreorder(node, i, false)) == target
    requires next == nodes + Under(path + [i], Visible(node.children[i]))
    ensures next + Under(path, ChildrenPreorder(node, i + 1, false)) == target
  {
    var c := node.children[i];
    var block := Under([i], Visible(c));
    var rest := ChildrenPreorder(node, i + 1, false);
    assert ChildrenPreorder(node, i, false) == block + rest;
    UnderConcat(path, block, rest);
    UnderUnder(path, i, Visible(c));
  }

  /** The closure `collectNodes` of `getAllVisibleNodes`: append the node,
      then, if it is expanded, collect each child in turn. `path` is the
      node's place in the whole tree. */
  method CollectNodes(node: Node, path: Path, acc: seq<Path>) returns (nodes: seq<Path>)
    ensures nodes == acc + Under(path, Visible(node))
    decreases node
  {
    ghost var target := acc + Under(path, Visible(node));
    CollectStart(node, path, acc);
    nodes := acc + [path];
    if node.expanded {
      var i := 0;
      while i < |node.children|
        invariant 0 <= i <= |node.children|
        invariant nodes + Under(path, ChildrenPreorder(node, i, false)) == target
      {
        ghost var before := nodes;
        nodes := CollectNodes(node.children[i], path + [i], nodes);
        CollectChild(node, path, i, before, nodes, target);
        i := i + 1;
      }
      assert ChildrenPreorder(node, i, false) == [];
    } else {
      assert nodes + [] == nodes;
    }
  }

  /** `getAllVisibleNodes`: the visible nodes, in pre-order. */
  method GetAllVisibleNodes(root: Node) returns (nodes: seq<Path>)
    ensures nodes == Visible(root)
  {
    nodes := CollectNodes(root, [], []);
    UnderRoot(Visible(root));
  }
}
