/** `buildJqQuery` of tree.go: the jq path expression of a node, built by
    walking from the node up to the root and then joining the parts. */
module JqPath {
  import opened JsonValue
  import opened Strings
  import opened Tree

  /** What the walk up collects for one step: the key in brackets when the
      parent is an array, the bare key otherwise. */
  function Part(parentKind: Kind, key: string): string
  {
    if parentKind == Array then "[" + key + "]" else key
  }

  /** The part for the step into the node at `p[..j + 1]`. */
  function StepPart(root: Node, p: Path, j: nat): string
    requires ValidPath(root, p) && j < |p|
  {
    ValidPrefix(root, p, j + 1);
    Part(ParentKind(root, p[..j + 1]), At(root, p[..j + 1]).key)
  }

  /** `pathParts` once the walk has reached the root: one part per step, in
      root-to-node order. */
  function Parts(root: Node, p: Path): (r: seq<string>)
    requires ValidPath(root, p)
    ensures |r| == |p|
  {
    seq(|p|, j requires 0 <= j < |p| => StepPart(root, p, j))
  }

  /** How the joining loop writes one part: a part that starts with `[` is
      appended as it is, any other after a dot. */
  function Dotted(part: string): string
  {
    if HasPrefix(part, "[") then part else "." + part
  }

  /** The joining loop, over the first parts. */
  function Assemble(parts: seq<string>): string
  {
    if parts == [] then "" else Assemble(parts[..|parts| - 1]) + Dotted(parts[|parts| - 1])
  }

  /** `buildJqQuery` as written: `.` for the root, else the joined parts. */
  function JqQuery(root: Node, p: Path): string
    requires ValidPath(root, p)
  {
    if p == [] then "." else Assemble(Parts(root, p))
  }

  /** One step of the walk up: the part for the step into `p[..n]` goes in
      front of the parts already collected. */
  lemma WalkStep(root: Node, p: Path, n: nat)
    requires ValidPath(root, p) && 0 < n <= |p|
    ensures ValidPath(root, p[..n]) && ValidPath(root, p[..n - 1]) && p[..n][..n - 1] == p[..n - 1]
    ensures Parts(root, p)[n - 1..] ==
      [Part(At(root, p[..n - 1]).Kind(), At(root, p[..n]).key)] + Parts(root, p)[n..]
  {
    ValidPrefix(root, p, n);
    ValidPrefix(root, p[..n], n - 1);
    assert p[..n][..n - 1] == p[..n - 1];
    assert Parts(root, p)[n - 1] == StepPart(root, p, n - 1);
  }

  /** One step of the joining loop. */
  lemma AssembleStep(parts: seq<string>, i: nat)
    requires i < |parts|
    ensures Assemble(parts[..i + 1]) == Assemble(parts[..i]) + Dotted(parts[i])
  {
    assert parts[..i + 1][..i] == parts[..i];
  }

  /** `buildJqQuery`: walk up the parent links prepending parts, then join
      them left to right. */
  method BuildJqQuery(root: Node, p: Path) returns (query: string)
    requires ValidPath(root, p)
    ensures query == JqQuery(root, p)
  {
    if p == [] {
      return ".";
    }
    var pathParts: seq<string> := [];
    var current := p;
    while current != []
      invariant |current| <= |p| && current == p[..|current|]
      invariant pathParts == Parts(root, p)[|current|..]
      decreases |current|
    {
      var parent := current[..|current| - 1];
      WalkStep(root, p, |current|);
      if At(root, parent).Kind() == Array {
        pathParts := ["[" + At(root, current).key + "]"] + pathParts;
      } else {
        pathParts := [At(root, current).key] + pathParts;
      }
      current := parent;
    }
    query := JoinParts(pathParts);
  }

  /** The joining loop of `buildJqQuery`: a part in brackets is appended as
      it is, the first other part after a dot, any later one after a dot
      as well. */
  method JoinParts(pathParts: seq<string>) returns (query: string)
    ensures query == Assemble(pathParts)
  {
    query := "";
    var i := 0;
    while i < |pathParts|
      invariant 0 <= i <= |pathParts|
      invariant query == Assemble(pathParts[..i])
    {
      var part := pathParts[i];
      AssembleStep(pathParts, i);
      if HasPrefix(part, "[") {
        query := query + part;
      } else if query == "" {
        query := "." + part;
      } else {
        AppendAssoc(query, ".", part);
        query := query + "." + part;
      }
      i := i + 1;
    }
    assert pathParts[..i] == pathParts;
  }

  /** The canonical path grammar: `[k]` for a step into an array, `.k` for
      a step into an object. */
  function Segment(parentKind: Kind, key: string): string
  {
    if parentKind == Array then "[" + key + "]" else "." + key
  }

  /** The root-to-node concatenation of the segments. */
  function PathExpr(root: Node, p: Path): string
    requires ValidPath(root, p)
    decreases |p|
  {
    if p == [] then ""
    else
      ValidPrefix(root, p, |p| - 1);
      PathExpr(root, Parent(p)) + Segment(ParentKind(root, p), At(root, p).key)
  }

  /** No step into an object uses a key that starts with `[`. */
  predicate NoBracketFieldKeys(root: Node, p: Path)
    requires ValidPath(root, p)
    decreases |p|
  {
    p == [] ||
    (ValidPrefix(root, p, |p| - 1);
     && NoBracketFieldKeys(root, Parent(p))
     && (ParentKind(root, p) == Array || !HasPrefix(At(root, p).key, "[")))
  }

  /** The segment of a step is the node's display name, after a dot unless
      the parent is an array. */
  lemma SegmentIsDisplayName(root: Node, p: Path)
    requires ValidPath(root, p) && p != []
    ensures Segment(ParentKind(root, p), At(root, p).key) ==
      (if ParentKind(root, p) == Array then DisplayName(root, p) else "." + DisplayName(root, p))
  {
  }

  lemma PartsParent(root: Node, p: Path)
    requires ValidPath(root, p) && p != []
    ensures ValidPath(root, Parent(p))
    ensures Parts(root, p)[..|p| - 1] == Parts(root, Parent(p))
    ensures Parts(root, p)[|p| - 1] == Part(ParentKind(root, p), At(root, p).key)
  {
    ValidPrefix(root, p, |p| - 1);
    var q := Parent(p);
    forall j | 0 <= j < |q| ensures StepPart(root, p, j) == StepPart(root, q, j) {
      assert p[..j + 1] == q[..j + 1];
    }
    assert p[..|p|] == p;
  }

  /** Where no object key starts with `[`, joining the parts gives exactly
      the root-to-node concatenation of the segments. */
  lemma {:induction false} AssembleIsPathExpr(root: Node, p: Path)
    requires ValidPath(root, p) && NoBracketFieldKeys(root, p)
    ensures Assemble(Parts(root, p)) == PathExpr(root, p)
    decreases |p|
  {
    if p != [] {
      PartsParent(root, p);
      AssembleIsPathExpr(root, Parent(p));
      var parts := Parts(root, p);
      assert Assemble(parts) == Assemble(parts[..|p| - 1]) + Dotted(parts[|p| - 1]);
    }
  }

  /** The query of every node but the root is the path grammar's
      concatenation of segments (`.users[0].name`, `.settings.theme`). */
  lemma QueryIsPathExpr(root: Node, p: Path)
    requires ValidPath(root, p) && NoBracketFieldKeys(root, p) && p != []
    ensures JqQuery(root, p) == PathExpr(root, p)
  {
    AssembleIsPathExpr(root, p);
  }

  /** The query of a child extends the query of its parent by the child's
      part: after a dot, unless the part is in brackets. Below the root
      the parent's query is kept as it is; the root's own `.` is dropped. */
  lemma QueryOfChild(root: Node, p: Path, k: nat)
    requires ValidPath(root, p) && k < |At(root, p).children|
    ensures ValidPath(root, p + [k]) && At(root, p + [k]) == At(root, p).children[k]
    ensures JqQuery(root, p + [k]) ==
      (if p == [] then "" else JqQuery(root, p)) + Dotted(Part(At(root, p).Kind(), At(root, p).children[k].key))
  {
    AtExtend(root, p, k);
    var c := p + [k];
    assert Parent(c) == p;
    PartsParent(root, c);
    var parts := Parts(root, c);
    var last := Part(At(root, p).Kind(), At(root, p).children[k].key);
    assert parts[|c| - 1] == last;
    assert Assemble(parts) == Assemble(parts[..|c| - 1]) + Dotted(last);
    if p == [] {
      assert parts[..|c| - 1] == [];
    } else {
      assert parts[..|c| - 1] == Parts(root, p);
    }
  }

  /** The step into a member of an object: `.key` after the parent's query. */
  lemma QueryOfField(root: Node, p: Path, k: nat, key: string)
    requires ValidPath(root, p) && k < |At(root, p).children|
    requires At(root, p).Kind() != Array && At(root, p).children[k].key == key
    requires key == "" || key[0] != '['
    ensures ValidPath(root, p + [k]) && At(root, p + [k]) == At(root, p).children[k]
    ensures JqQuery(root, p + [k]) == (if p == [] then "" else JqQuery(root, p)) + "." + key
  {
    QueryOfChild(root, p, k);
    assert !HasPrefix(key, "[") by {
      if key != "" {
        assert key[..1][0] == key[0];
      }
    }
    AppendAssoc(if p == [] then "" else JqQuery(root, p), ".", key);
  }

  /** The step into an element of an array: `[key]` after the parent's
      query. */
  lemma QueryOfElement(root: Node, p: Path, k: nat, key: string)
    requires ValidPath(root, p) && k < |At(root, p).children|
    requires At(root, p).Kind() == Array && At(root, p).children[k].key == key
    ensures ValidPath(root, p + [k]) && At(root, p + [k]) == At(root, p).children[k]
    ensures JqQuery(root, p + [k]) == (if p == [] then "" else JqQuery(root, p)) + "[" + key + "]"
  {
    QueryOfChild(root, p, k);
    var part := "[" + key + "]";
    assert part[..1] == "[";
    var before := if p == [] then "" else JqQuery(root, p);
    AppendAssoc(before, "[" + key, "]");
    AppendAssoc(before, "[", key);
  }

  /** The parts of a path of one step. */
  lemma PartsOfChild(root: Node, k: nat)
    requires k < |root.children|
    ensures ValidPath(root, [k]) && At(root, [k]) == root.children[k]
    ensures ParentKind(root, [k]) == root.Kind()
    ensures JqQuery(root, [k]) == Dotted(Part(root.Kind(), root.children[k].key))
  {
    assert [k][1..] == [];
    assert Parent([k]) == [];
    PartsParent(root, [k]);
    var parts := Parts(root, [k]);
    assert parts[..0] == [];
    assert Assemble(parts) == Assemble(parts[..0]) + Dotted(parts[0]);
  }

  /** An object key that starts with `[` is taken for an array step: it is
      written without the dot. */
  lemma BracketKeyUnderObject(root: Node, k: nat)
    requires root.Kind() != Array && k < |root.children|
    requires HasPrefix(root.children[k].key, "[")
    ensures ValidPath(root, [k]) && JqQuery(root, [k]) == root.children[k].key
  {
    PartsOfChild(root, k);
  }

  /** The query depends on the keys and values of the ancestors only, not on
      any expanded flag. */
  lemma QueryIgnoresFlags(t: Node, u: Node, p: Path)
    requires SameShape(t, u) && ValidPath(t, p)
    ensures ValidPath(u, p) && JqQuery(t, p) == JqQuery(u, p)
  {
    SameShapeAt(t, u, p);
    forall j | 0 <= j < |p| ensures StepPart(t, p, j) == StepPart(u, p, j) {
      ValidPrefix(t, p, j + 1);
      var q := p[..j + 1];
      SameShapeAt(t, u, q);
      ValidPrefix(t, q, j);
      SameShapeAt(t, u, q[..j]);
    }
    assert Parts(t, p) == Parts(u, p);
  }

  /** At step `j` of `p`, the two trees agree on the kind of the node
      stepped from and on the key of the node stepped into. */
  predicate StepAgrees(t: Node, u: Node, p: Path, j: nat)
    requires ValidPath(t, p) && ValidPath(u, p) && j < |p|
  {
    ValidPrefix(t, p, j + 1);
    ValidPrefix(u, p, j + 1);
    ValidPrefix(t, p, j);
    ValidPrefix(u, p, j);
    && At(t, p[..j]).Kind() == At(u, p[..j]).Kind()
    && At(t, p[..j + 1]).key == At(u, p[..j + 1]).key
  }

  /** The query of a node depends on nothing but the kinds of its ancestors
      and the keys along its path: two trees that agree on those give it
      the same query, whatever their other nodes and flags. */
  lemma QueryDependsOnSteps(t: Node, u: Node, p: Path)
    requires ValidPath(t, p) && ValidPath(u, p)
    requires forall j :: 0 <= j < |p| ==> StepAgrees(t, u, p, j)
    ensures JqQuery(t, p) == JqQuery(u, p)
  {
    forall j | 0 <= j < |p| ensures StepPart(t, p, j) == StepPart(u, p, j) {
      assert StepAgrees(t, u, p, j);
      ValidPrefix(t, p, j + 1);
      assert p[..j + 1][..j] == p[..j];
    }
    assert Parts(t, p) == Parts(u, p);
  }

  /** In particular, expanding or collapsing any node keeps every query. */
  lemma QueryIgnoresSetExpanded(t: Node, q: Path, b: bool, p: Path)
    requires ValidPath(t, q) && ValidPath(t, p)
    ensures ValidPath(SetExpanded(t, q, b), p)
    ensures JqQuery(SetExpanded(t, q, b), p) == JqQuery(t, p)
  {
    SetExpandedSameShape(t, q, b);
    SameShapeAt(SetExpanded(t, q, b), t, p);
    QueryIgnoresFlags(SetExpanded(t, q, b), t, p);
  }

  /** As written, a child of a root-level array gets a query without the
      leading dot: `[0]`, where the repository's tests expect `.[0]`. */
  lemma RootArrayChildAsWritten(root: Node, k: nat)
    requires root.Kind() == Array && k < |root.children|
    ensures ValidPath(root, [k])
    ensures JqQuery(root, [k]) == "[" + root.children[k].key + "]"
    ensures !HasPrefix(JqQuery(root, [k]), ".")
  {
    PartsOfChild(root, k);
  }

  /** The same for the built document, so for the first element of
      `[{"name": "John"}, {"name": "Jane"}]` the query is `[0]`. */
  lemma BuiltRootArrayChildAsWritten(items: seq<JValue>, k: nat)
    requires k < |items|
    ensures ValidPath(Build(JArray(items), ""), [k])
    ensures JqQuery(Build(JArray(items), ""), [k]) == "[" + NatToString(k) + "]"
  {
    var root := Build(JArray(items), "");
    BuildArray(items, "");
    BuildNode(items[k], NatToString(k));
    RootArrayChildAsWritten(root, k);
  }

  /** The query with the leading dot the tests expect: the as-written query,
      with a dot put in front when it does not start with one. */
  function JqQueryIntended(root: Node, p: Path): (r: string)
    requires ValidPath(root, p)
    ensures HasPrefix(r, ".")
  {
    var q := JqQuery(root, p);
    if HasPrefix(q, ".") then q else "." + q
  }

  lemma {:induction false} PathExprStart(root: Node, p: Path)
    requires ValidPath(root, p) && p != []
    ensures |PathExpr(root, p)| > 0
    ensures PathExpr(root, p)[0] == (if root.Kind() == Array then '[' else '.')
    decreases |p|
  {
    ValidPrefix(root, p, |p| - 1);
    if |p| == 1 {
      assert Parent(p) == [];
    } else {
      PathExprStart(root, Parent(p));
    }
  }

  /** The corrected query follows the path grammar everywhere, with the one
      convention that a query always starts with a dot: `.[0]` and
      `.[0].name` for a root-level array, `.users[0].name` otherwise. */
  lemma IntendedIsPathExpr(root: Node, p: Path)
    requires ValidPath(root, p) && NoBracketFieldKeys(root, p) && p != []
    ensures JqQueryIntended(root, p) ==
      (if root.Kind() == Array then "." + PathExpr(root, p) else PathExpr(root, p))
  {
    QueryIsPathExpr(root, p);
    PathExprStart(root, p);
  }

  /** The corrected query of a child of a root-level array is `.[key]`. */
  lemma RootArrayChildIntended(root: Node, k: nat)
    requires root.Kind() == Array && k < |root.children|
    ensures ValidPath(root, [k])
    ensures JqQueryIntended(root, [k]) == ".[" + root.children[k].key + "]"
  {
    RootArrayChildAsWritten(root, k);
  }

  /** So the corrected query of the k-th element of a root-level array is
      `.[k]`. */
  lemma BuiltRootArrayChildIntended(items: seq<JValue>, k: nat)
    requires k < |items|
    ensures ValidPath(Build(JArray(items), ""), [k])
    ensures JqQueryIntended(Build(JArray(items), ""), [k]) == ".[" + NatToString(k) + "]"
  {
    BuildArray(items, "");
    BuildNode(items[k], NatToString(k));
    RootArrayChildIntended(Build(JArray(items), ""), k);
  }

  /** Wherever the as-written query already starts with a dot, the
      correction leaves it alone. */
  lemma IntendedKeepsDottedQueries(root: Node, p: Path)
    requires ValidPath(root, p) && HasPrefix(JqQuery(root, p), ".")
    ensures JqQueryIntended(root, p) == JqQuery(root, p)
  {
  }

  /** `buildJqQuery` with the leading dot restored: the corrected
      computation, which starts every query with a dot. */
  method BuildJqQueryCorrected(root: Node, p: Path) returns (query: string)
    requires ValidPath(root, p)
    ensures query == JqQueryIntended(root, p)
  {
    query := BuildJqQuery(root, p);
    if !HasPrefix(query, ".") {
      query := "." + query;
    }
  }

  /** Expanding or collapsing any node keeps every corrected query too. */
  lemma IntendedIgnoresSetExpanded(t: Node, q: Path, b: bool, p: Path)
    requires ValidPath(t, q) && ValidPath(t, p)
    ensures ValidPath(SetExpanded(t, q, b), p)
    ensures JqQueryIntended(SetExpanded(t, q, b), p) == JqQueryIntended(t, p)
  {
    QueryIgnoresSetExpanded(t, q, b, p);
  }
}
