/** The node model of tree.go: building the tree from a decoded document and
    the per-node views (display name, value preview, search match).

    A node is a value. Its position is its index path from the root (the
    child numbers taken on the way down), so the parent of the node at `p`
    is the node at `p` without its last step; the `Parent` back-pointer of
    the source is this path arithmetic. The `Expanded` flag is a field of
    the node, and changing it yields the tree with that one flag replaced. */
module Tree {
  import opened JsonValue
  import opened Strings

  type Path = seq<nat>

  /** `JSONNode`: `Type` is not stored, since the source derives it from the
      value in the same switch that creates the node. */
  datatype Node = Node(key: string, value: JValue, children: seq<Node>, expanded: bool)
  {
    function Kind(): Kind
    {
      KindOf(value)
    }
  }

  /** The path of the parent. */
  function Parent(p: Path): Path
    requires p != []
  {
    p[..|p| - 1]
  }

  /** `p` leads from the root to a node of `t`. */
  predicate ValidPath(t: Node, p: Path)
    decreases p
  {
    p == [] || (p[0] < |t.children| && ValidPath(t.children[p[0]], p[1..]))
  }

  /** The node of `t` at path `p`. */
  function At(t: Node, p: Path): Node
    requires ValidPath(t, p)
    decreases p
  {
    if p == [] then t else At(t.children[p[0]], p[1..])
  }

  /** Every prefix of a valid path is valid, and so the ancestors exist. */
  lemma {:induction false} ValidPrefix(t: Node, p: Path, j: nat)
    requires ValidPath(t, p) && j <= |p|
    ensures ValidPath(t, p[..j])
    decreases p
  {
    if j > 0 {
      assert p[..j][1..] == p[1..][..j - 1];
      ValidPrefix(t.children[p[0]], p[1..], j - 1);
    }
  }

  /** One step down from the node at `p` to its `k`-th child. */
  lemma {:induction false} AtExtend(t: Node, p: Path, k: nat)
    requires ValidPath(t, p) && k < |At(t, p).children|
    ensures ValidPath(t, p + [k]) && At(t, p + [k]) == At(t, p).children[k]
    decreases p
  {
    if p != [] {
      assert (p + [k])[1..] == p[1..] + [k];
      AtExtend(t.children[p[0]], p[1..], k);
    }
  }

  /** `buildJSONTree`, as the value it returns. */
  function Build(data: JValue, key: string): Node
    decreases data
  {
    match data
    case JObject(fields) =>
      Node(key, data, seq(|fields|, i requires 0 <= i < |fields| => Build(fields[i].1, fields[i].0)), true)
    case JArray(items) =>
      Node(key, data, seq(|items|, i requires 0 <= i < |items| => Build(items[i], NatToString(i))), true)
    case _ => Node(key, data, [], true)
  }

  /** `buildJSONTree`: allocate the node, then append one child per member
      of an object or element of an array. */
  method BuildJSONTree(data: JValue, key: string) returns (node: Node)
    ensures node == Build(data, key)
    decreases data
  {
    node := Node(key, data, [], true);
    match data {
      case JObject(fields) =>
        var i := 0;
        while i < |fields|
          invariant 0 <= i <= |fields|
          invariant node == Build(data, key).(children := Build(data, key).children[..i])
        {
          assert fields[i] in fields;
          var child := BuildJSONTree(fields[i].1, fields[i].0);
          node := node.(children := node.children + [child]);
          i := i + 1;
        }
      case JArray(items) =>
        var i := 0;
        while i < |items|
          invariant 0 <= i <= |items|
          invariant node == Build(data, key).(children := Build(data, key).children[..i])
        {
          var child := BuildJSONTree(items[i], NatToString(i));
          node := node.(children := node.children + [child]);
          i := i + 1;
        }
      case _ =>
    }
  }

  /** The built node carries the given key and value, starts expanded, and its
      kind is the value's kind. */
  lemma BuildNode(data: JValue, key: string)
    ensures Build(data, key).key == key && Build(data, key).value == data
    ensures Build(data, key).expanded && Build(data, key).Kind() == KindOf(data)
  {
  }

  /** Every node of a freshly built tree, not only the root, is expanded. */
  lemma {:induction false} BuildAllExpanded(data: JValue, key: string, p: Path)
    requires ValidPath(Build(data, key), p)
    ensures At(Build(data, key), p).expanded
    decreases p
  {
    if p != [] {
      var t := Build(data, key);
      var k := p[0];
      match data {
        case JObject(fields) =>
          assert fields[k] in fields;
          BuildAllExpanded(fields[k].1, fields[k].0, p[1..]);
        case JArray(items) =>
          BuildAllExpanded(items[k], NatToString(k), p[1..]);
      }
    }
  }

  /** A scalar value gives a node without children. */
  lemma BuildScalar(data: JValue, key: string)
    requires !IsContainer(KindOf(data))
    ensures Build(data, key).children == []
  {
  }

  /** An array gives one child per element, in index order; the i-th child is
      built from the i-th element under the decimal key of i, and these keys
      are pairwise different. */
  lemma BuildArray(items: seq<JValue>, key: string)
    ensures |Build(JArray(items), key).children| == |items|
    ensures forall i :: 0 <= i < |items| ==>
      Build(JArray(items), key).children[i] == Build(items[i], NatToString(i))
    ensures forall i :: 0 <= i < |items| ==>
      DecimalValue(Build(JArray(items), key).children[i].key) == i
    ensures forall i, j :: 0 <= i < j < |items| ==>
      Build(JArray(items), key).children[i].key != Build(JArray(items), key).children[j].key
  {
    var cs := Build(JArray(items), key).children;
    forall i | 0 <= i < |items| ensures cs[i].key == NatToString(i) {
      assert cs[i] == Build(items[i], NatToString(i));
    }
    forall i | 0 <= i < |items| ensures DecimalValue(cs[i].key) == i {
      NatToStringRoundTrip(i);
    }
    forall i, j | 0 <= i < j < |items| ensures cs[i].key != cs[j].key {
      assert cs[i] == Build(items[i], NatToString(i)) && cs[j] == Build(items[j], NatToString(j));
      NatToStringInjective(i, j);
    }
  }

  /** An object gives one child per member: the children's keys are exactly
      the member keys, and each key names one child. The children come in
      the map's iteration order, about which nothing is promised. */
  lemma BuildObject(fields: seq<(string, JValue)>, key: string)
    requires DistinctKeys(fields)
    ensures |Build(JObject(fields), key).children| == |fields|
    ensures (set c | c in Build(JObject(fields), key).children :: c.key) == (set f | f in fields :: f.0)
    ensures forall i, j :: 0 <= i < j < |fields| ==>
      Build(JObject(fields), key).children[i].key != Build(JObject(fields), key).children[j].key
  {
    var cs := Build(JObject(fields), key).children;
    forall i | 0 <= i < |fields| ensures cs[i].key == fields[i].0 {
      assert cs[i] == Build(fields[i].1, fields[i].0);
    }
    var ck := set c | c in cs :: c.key;
    var fk := set f | f in fields :: f.0;
    forall x | x in ck ensures x in fk {
      var c :| c in cs && c.key == x;
      var i :| 0 <= i < |cs| && cs[i] == c;
      assert fields[i] in fields;
    }
    forall x | x in fk ensures x in ck {
      var f :| f in fields && f.0 == x;
      var i :| 0 <= i < |fields| && fields[i] == f;
      assert cs[i] in cs;
    }
  }

  /** An empty object or array also gives a node without children: having no
      children does not make a node a scalar. */
  lemma BuildEmptyContainer(key: string)
    ensures Build(JObject([]), key).children == [] && Build(JObject([]), key).Kind() == Object
    ensures Build(JArray([]), key).children == [] && Build(JArray([]), key).Kind() == Array
  {
  }

  /** The kind of the parent of the node at `p`, found by following the
      back-link. */
  function ParentKind(root: Node, p: Path): Kind
    requires ValidPath(root, p) && p != []
  {
    ValidPrefix(root, p, |p| - 1);
    At(root, Parent(p)).Kind()
  }

  /** `getDisplayName`: the key, in brackets when the parent is an array. The
      root has no parent and shows its key as it is. */
  function DisplayName(root: Node, p: Path): (r: string)
    requires ValidPath(root, p)
    ensures |r| == |At(root, p).key| + 2 <==> p != [] && ParentKind(root, p) == Array
    ensures p == [] ==> r == At(root, p).key
    ensures p != [] && ParentKind(root, p) == Array ==>
      r[0] == '[' && r[|r| - 1] == ']' && r[1..|r| - 1] == At(root, p).key
    ensures p != [] && ParentKind(root, p) != Array ==> r == At(root, p).key
  {
    if p != [] && ParentKind(root, p) == Array then "[" + At(root, p).key + "]"
    else At(root, p).key
  }

  /** `getValuePreview`: a string in quotes, cut to its first 47 bytes and an
      ellipsis when it is longer than 50; a number or boolean as printed;
      `null`; a container as a summary with its number of children. */
  function Preview(n: Node): string
  {
    match n.value
    case JString(s) => if |s| > 50 then "\"" + s[..47] + "...\"" else "\"" + s + "\""
    case JNumber(text) => text
    case JBool(b) => if b then "true" else "false"
    case JNull => "null"
    case JObject(_) => "{...} (" + NatToString(|n.children|) + " keys)"
    case JArray(_) => "[...] (" + NatToString(|n.children|) + " items)"
  }

  /** The preview of a string shows the string itself between quotes when
      it has at most 50 bytes; otherwise its first 47 bytes between a quote
      and an ellipsis with a closing quote, 52 bytes in all. */
  lemma PreviewString(n: Node, s: string)
    requires n.value == JString(s)
    ensures var r := Preview(n);
      && |r| <= 52 && r[0] == '"' && r[|r| - 1] == '"'
      && (|s| <= 50 ==> r[1..|r| - 1] == s)
      && (|s| > 50 ==> |r| == 52 && r[1..48] == s[..47] && r[48..] == "...\"")
  {
  }

  /** The preview of a container states its number of children in decimal,
      and reading that number back gives the child count. */
  lemma PreviewCount(n: Node)
    requires IsContainer(n.Kind())
    ensures var r := Preview(n);
      var tail := if n.Kind() == Object then " keys)" else " items)";
      && |r| > 7 + |tail|
      && r[..7] == (if n.Kind() == Object then "{...} (" else "[...] (")
      && r[|r| - |tail|..] == tail
      && IsDecimal(r[7..|r| - |tail|])
      && DecimalValue(r[7..|r| - |tail|]) == |n.children|
  {
    var r := Preview(n);
    var tail := if n.Kind() == Object then " keys)" else " items)";
    var head := if n.Kind() == Object then "{...} (" else "[...] (";
    assert r == head + NatToString(|n.children|) + tail;
    assert r[7..|r| - |tail|] == NatToString(|n.children|);
    NatToStringRoundTrip(|n.children|);
  }

  /** `matchesSearch`: the empty term matches every node; otherwise the
      lower-cased term must occur in the lower-cased key, value preview or
      kind name. */
  predicate MatchesSearch(n: Node, term: string)
  {
    term == "" ||
    var t := Lower(term);
    Contains(Lower(n.key), t) || Contains(Lower(Preview(n)), t) || Contains(Lower(KindName(n.Kind())), t)
  }

  /** A node matches a term exactly when the term is empty or, with both
      lower-cased, the term occurs at some position of the key, of the
      value preview or of the kind name. */
  lemma MatchesSearchIff(n: Node, term: string)
    ensures MatchesSearch(n, term) <==>
      || term == ""
      || (exists j :: OccursAt(Lower(n.key), Lower(term), j))
      || (exists j :: OccursAt(Lower(Preview(n)), Lower(term), j))
      || (exists j :: OccursAt(Lower(KindName(n.Kind())), Lower(term), j))
  {
    ContainsIff(Lower(n.key), Lower(term));
    ContainsIff(Lower(Preview(n)), Lower(term));
    ContainsIff(Lower(KindName(n.Kind())), Lower(term));
  }

  /** The match ignores the letter case of the term. */
  lemma MatchesIgnoreTermCase(n: Node, term: string)
    ensures MatchesSearch(n, term) <==> MatchesSearch(n, Lower(term))
  {
    LowerIdempotent(term);
  }

  /** A node always matches its own kind name, written in any letter case
      (so `array` and `ARRAY` find every array node). */
  lemma MatchesOwnKind(n: Node, term: string)
    requires Lower(term) == KindName(n.Kind())
    ensures MatchesSearch(n, term)
  {
    var name := KindName(n.Kind());
    assert Lower(name) == name;
    ContainsSelf(name);
  }

  /** A term found in the key, ignoring case, always matches. */
  lemma MatchesKeyOccurrence(n: Node, term: string, j: int)
    requires OccursAt(Lower(n.key), Lower(term), j)
    ensures MatchesSearch(n, term)
  {
    ContainsIff(Lower(n.key), Lower(term));
  }

  /** A term that is neither empty nor found in key, preview or kind name
      does not match. */
  lemma NoMatchWhenAbsent(n: Node, term: string)
    requires term != ""
    requires forall j :: !OccursAt(Lower(n.key), Lower(term), j)
    requires forall j :: !OccursAt(Lower(Preview(n)), Lower(term), j)
    requires forall j :: !OccursAt(Lower(KindName(n.Kind())), Lower(term), j)
    ensures !MatchesSearch(n, term)
  {
    ContainsIff(Lower(n.key), Lower(term));
    ContainsIff(Lower(Preview(n)), Lower(term));
    ContainsIff(Lower(KindName(n.Kind())), Lower(term));
  }

  /** The tree `t` with the `Expanded` flag of the node at `p` set to `b`. */
  function SetExpanded(t: Node, p: Path, b: bool): (r: Node)
    requires ValidPath(t, p)
    ensures ValidPath(r, p) && At(r, p).expanded == b
    decreases p
  {
    if p == [] then t.(expanded := b)
    else t.(children := t.children[p[0] := SetExpanded(t.children[p[0]], p[1..], b)])
  }

  /** Two trees with the same keys, values and children, flags aside. */
  predicate SameShape(t: Node, u: Node)
  {
    && t.key == u.key && t.value == u.value && |t.children| == |u.children|
    && forall i :: 0 <= i < |t.children| ==> SameShape(t.children[i], u.children[i])
  }

  /** Setting a flag touches nothing but that flag; every other node keeps
      its own. */
  lemma {:induction false} SetExpandedOnlyFlag(t: Node, p: Path, b: bool, q: Path)
    requires ValidPath(t, p)
    ensures ValidPath(SetExpanded(t, p, b), q) <==> ValidPath(t, q)
    ensures ValidPath(t, q) ==>
      && At(SetExpanded(t, p, b), q).key == At(t, q).key
      && At(SetExpanded(t, p, b), q).value == At(t, q).value
      && |At(SetExpanded(t, p, b), q).children| == |At(t, q).children|
      && At(SetExpanded(t, p, b), q).expanded == (if q == p then b else At(t, q).expanded)
    decreases q
  {
    if q != [] && p != [] && q[0] < |t.children| {
      if q[0] == p[0] {
        SetExpandedOnlyFlag(t.children[p[0]], p[1..], b, q[1..]);
        assert q[1..] == p[1..] <==> q == p;
      }
    }
  }

  /** Setting a flag keeps the shape of the tree. */
  lemma {:induction false} SetExpandedSameShape(t: Node, p: Path, b: bool)
    requires ValidPath(t, p)
    ensures SameShape(SetExpanded(t, p, b), t)
    decreases p
  {
    if p == [] {
      SameShapeRefl(t);
    } else {
      var r := SetExpanded(t, p, b);
      forall i | 0 <= i < |t.children| ensures SameShape(r.children[i], t.children[i]) {
        if i == p[0] {
          SetExpandedSameShape(t.children[i], p[1..], b);
        } else {
          SameShapeRefl(t.children[i]);
        }
      }
    }
  }

  lemma {:induction false} SameShapeRefl(t: Node)
    ensures SameShape(t, t)
    decreases t
  {
    forall i | 0 <= i < |t.children| ensures SameShape(t.children[i], t.children[i]) {
      SameShapeRefl(t.children[i]);
    }
  }

  /** Trees of the same shape have the same valid paths, and their nodes at a
      path have the same shape. */
  lemma {:induction false} SameShapeAt(t: Node, u: Node, p: Path)
    requires SameShape(t, u)
    ensures ValidPath(t, p) <==> ValidPath(u, p)
    ensures ValidPath(t, p) ==> SameShape(At(t, p), At(u, p))
    decreases p
  {
    if p != [] && p[0] < |t.children| {
      SameShapeAt(t.children[p[0]], u.children[p[0]], p[1..]);
    }
  }

  /** Setting a flag to the value it already has changes nothing. */
  lemma {:induction false} SetExpandedUnchanged(t: Node, p: Path)
    requires ValidPath(t, p)
    ensures SetExpanded(t, p, At(t, p).expanded) == t
    decreases p
  {
    if p != [] {
      SetExpandedUnchanged(t.children[p[0]], p[1..]);
    }
  }

  /** Setting the same flag twice leaves the second value. */
  lemma {:induction false} SetExpandedTwice(t: Node, p: Path, b: bool, c: bool)
    requires ValidPath(t, p)
    ensures SetExpanded(SetExpanded(t, p, b), p, c) == SetExpanded(t, p, c)
    decreases p
  {
    if p != [] {
      SetExpandedTwice(t.children[p[0]], p[1..], b, c);
    }
  }

  /** Toggling a flag twice gives back the same tree. */
  lemma ToggleTwice(t: Node, p: Path)
    requires ValidPath(t, p)
    ensures var once := SetExpanded(t, p, !At(t, p).expanded);
      SetExpanded(once, p, !At(once, p).expanded) == t
  {
    SetExpandedTwice(t, p, !At(t, p).expanded, At(t, p).expanded);
    SetExpandedUnchanged(t, p);
  }
}
