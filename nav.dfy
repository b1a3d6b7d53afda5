/** The state of the explorer (`model` in main.go) and what each key and
    mouse event handled by `Update` in ui.go does to it. Nodes are named by
    their index paths, so `selected` and `filtered` hold paths where the
    source holds node pointers. */
module Navigation {
  import opened Strings
  import opened JsonValue
  import opened Tree
  import opened Visibility
  import opened Search
  import opened JqPath
  import opened Render
  import opened Subsequences

  datatype Option<T> = None | Some(value: T)

  /** All fields of the state at once, so that an operation can say which
      of them it changes and that the rest stay as they were. */
  datatype Snapshot = Snapshot(
    root: Node, cursor: int, selected: Option<Path>, height: int, width: int,
    jqQuery: string, showHelp: bool, searchMode: bool, searchTerm: string,
    filtered: seq<Path>, wrapValues: bool)

  /** The mouse events `Update` distinguishes. */
  datatype MouseButton = MouseLeft | MouseRight | MouseWheelUp | MouseWheelDown | MouseOther

  /** What the collapse, expand and space keys do to the flag of a node. */
  datatype FlagChange = Collapse | Expand | Toggle

  /** What a key does outside search mode: the first binding of `keys` in
      ui.go that lists the key, tried in the order of the switch in
      `Update`, and last the literal key name "space". */
  datatype Command =
    | Quit | CursorUp | CursorDown | PageBack | PageForward
    | CollapseNode | ExpandNode | SelectNode | CopyQuery
    | StartSearch | ToggleHelpScreen | ToggleWrapping | ToggleNode | Unbound

  function KeyCommand(k: string): Command
  {
    if k == "q" || k == "ctrl+c" then Quit
    else if k == "up" || k == "k" then CursorUp
    else if k == "down" || k == "j" then CursorDown
    else if k == "pgup" || k == "ctrl+u" then PageBack
    else if k == "pgdown" || k == "ctrl+d" then PageForward
    else if k == "left" || k == "h" then CollapseNode
    else if k == "right" || k == "l" then ExpandNode
    else if k == "enter" then SelectNode
    else if k == "y" then CopyQuery
    else if k == "/" then StartSearch
    else if k == "?" then ToggleHelpScreen
    else if k == "w" then ToggleWrapping
    else if k == "space" then ToggleNode
    else Unbound
  }

  /** Only q and ctrl+c quit, and every other bound key does something
      else. */
  lemma QuitKeys(k: string)
    ensures KeyCommand(k) == Quit <==> k == "q" || k == "ctrl+c"
    ensures KeyCommand("space") == ToggleNode && KeyCommand("esc") == Unbound
  {
  }

  /** What a key does in search mode. */
  datatype SearchCommand = ClearSearch | DeleteChar | AcceptSearch | MatchUp | MatchDown | TypeChar | IgnoreKey

  function SearchCommandOf(k: string): SearchCommand
  {
    if k == "esc" then ClearSearch
    else if k == "backspace" then DeleteChar
    else if k == "enter" then AcceptSearch
    else if k == "up" then MatchUp
    else if k == "down" then MatchDown
    else if |k| == 1 then TypeChar
    else IgnoreKey
  }

  /** The term with its last character dropped, when it has one. */
  function DropLast(term: string): (r: string)
    ensures term != "" ==> r + [term[|term| - 1]] == term
    ensures term == "" ==> r == ""
  {
    if |term| > 0 then term[..|term| - 1] else term
  }

  function NewFlag(change: FlagChange, current: bool): bool
  {
    match change
    case Collapse => false
    case Expand => true
    case Toggle => !current
  }

  /** Go's `/` on `int`, which truncates toward zero. */
  function GoDiv(a: int, b: int): int
    requires b > 0
  {
    if a >= 0 then a / b else -((-a) / b)
  }

  /** The step of page up and page down: half the height, or 10 when that
      is below one. */
  function PageSize(height: int): (r: int)
    ensures r >= 1
    ensures height >= 2 ==> 2 * r <= height <= 2 * r + 1
    ensures height < 2 ==> r == 10
  {
    var pageSize := GoDiv(height, 2);
    if pageSize < 1 then 10 else pageSize
  }

  /** Every listed path leads to a node. */
  lemma AllVisibleValid(t: Node)
    ensures forall p :: p in Visible(t) ==> ValidPath(t, p)
  {
    forall p | p in Visible(t) ensures ValidPath(t, p) {
      VisibleValid(t, p);
    }
  }

  /** The visible nodes that match `term`, in listing order: what
      `updateFilteredNodes` stores. */
  function Matching(t: Node, term: string): seq<Path>
  {
    AllVisibleValid(t);
    Filter(t, Visible(t), term)
  }

  /** Exactly the shown nodes that match the term are kept. */
  lemma MatchingIff(t: Node, term: string, p: Path)
    ensures p in Matching(t, term) <==> Shown(t, p) && ValidPath(t, p) && MatchesSearch(At(t, p), term)
  {
    AllVisibleValid(t);
    FilterMembers(t, Visible(t), term, p);
    VisibleIff(t, p);
    if Shown(t, p) {
      ShownValid(t, p);
    }
  }

  /** The matches keep the listing order, so there are never more of them
      than listed rows. */
  lemma MatchingOrder(t: Node, term: string)
    ensures IsSubseq(Matching(t, term), Visible(t))
    ensures |Matching(t, term)| <= |Visible(t)|
  {
    AllVisibleValid(t);
    FilterSubseq(t, Visible(t), term);
    SubseqLength(Matching(t, term), Visible(t));
  }

  /** An empty term keeps the whole listing. */
  lemma MatchingEmpty(t: Node)
    ensures Matching(t, "") == Visible(t)
  {
    AllVisibleValid(t);
    FilterEmptyTerm(t, Visible(t));
  }

  /** The state after `updateFilteredNodes`: the whole listing for an
      empty term; otherwise the matches, with the cursor moved onto the
      last match when it lies beyond them. */
  function AfterFilter(s: Snapshot): Snapshot
  {
    var f := Matching(s.root, s.searchTerm);
    if s.searchTerm == "" then s.(filtered := f)
    else s.(filtered := f, cursor := if s.cursor >= |f| && |f| > 0 then |f| - 1 else s.cursor)
  }

  /** After filtering with a term that matches something, the cursor
      points at one of the matches; the cursor never moves forward and
      never becomes negative. */
  lemma AfterFilterCursor(s: Snapshot)
    requires s.cursor >= 0
    ensures var r := AfterFilter(s);
      && 0 <= r.cursor <= s.cursor
      && (s.searchTerm != "" && |r.filtered| > 0 ==> r.cursor < |r.filtered|)
      && (s.searchTerm == "" ==> r.filtered == Visible(s.root) && r.cursor == s.cursor)
  {
    if s.searchTerm == "" {
      MatchingEmpty(s.root);
    }
  }

  /** The tree after a flag key: the node listed at position `c`, when
      there is one and it is an object or an array, gets its new flag. */
  function FlagAt(t: Node, c: int, change: FlagChange): Node
  {
    if 0 <= c < |Visible(t)| then
      var q := Visible(t)[c];
      VisibleValid(t, q);
      if IsContainer(At(t, q).Kind()) then SetExpanded(t, q, NewFlag(change, At(t, q).expanded)) else t
    else t
  }

  /** A flag key leaves the listing up to the cursor as it was, so the
      cursor stays on the same node. */
  lemma FlagAtKeepsCursorNode(t: Node, c: int, change: FlagChange)
    requires 0 <= c < |Visible(t)|
    ensures var t' := FlagAt(t, c, change);
      c < |Visible(t')| && Visible(t')[..c + 1] == Visible(t)[..c + 1]
  {
    var q := Visible(t)[c];
    VisibleValid(t, q);
    PrefixStable(t, c, NewFlag(change, At(t, q).expanded));
  }

  /** Pressing space twice on the same row restores the tree. */
  lemma ToggleTwiceRestores(t: Node, c: int)
    requires 0 <= c < |Visible(t)|
    ensures FlagAt(FlagAt(t, c, Toggle), c, Toggle) == t
  {
    var q := Visible(t)[c];
    VisibleValid(t, q);
    if IsContainer(At(t, q).Kind()) {
      var t' := FlagAt(t, c, Toggle);
      FlagAtKeepsCursorNode(t, c, Toggle);
      assert t' == SetExpanded(t, q, !At(t, q).expanded);
      assert Visible(t')[c] == Visible(t')[..c + 1][c];
      SetExpandedSameShape(t, q, !At(t, q).expanded);
      SameShapeAt(t', t, q);
      ToggleTwice(t, q);
    }
  }

  /** The query `buildJqQuery` gives the node listed at position `i`. */
  function ListedQuery(t: Node, i: nat): string
    requires i < |Visible(t)|
  {
    VisibleValid(t, Visible(t)[i]);
    JqQuery(t, Visible(t)[i])
  }

  /** The first row a tree of `n` visible rows shows when `viewHeight`
      rows fit and the cursor, not negative, is at `cursor`. */
  function ShownFrom(n: nat, cursor: int, viewHeight: int): int
  {
    if n <= viewHeight then 0 else Max(0, cursor - viewHeight + 1)
  }

  class Model {
    var root: Node
    var cursor: int
    var selected: Option<Path>
    var height: int
    var width: int
    var jqQuery: string
    var showHelp: bool
    var searchMode: bool
    var searchTerm: string
    var filtered: seq<Path>
    var wrapValues: bool

    function View(): Snapshot
      reads this
    {
      Snapshot(root, cursor, selected, height, width, jqQuery, showHelp,
               searchMode, searchTerm, filtered, wrapValues)
    }

    /** The cursor is never negative, every remembered path leads to a
        node, and the query panel is in step with the selection. */
    predicate Valid()
      reads this
    {
      && cursor >= 0
      && (forall p :: p in filtered ==> ValidPath(root, p))
      && InSync()
    }

    /** The query panel holds the query of the selected node, and is empty
        while nothing is selected. */
    predicate InSync()
      reads this`root, this`selected, this`jqQuery
    {
      && (selected.None? ==> jqQuery == "")
      && (selected.Some? ==> ValidPath(root, selected.value) && jqQuery == JqQuery(root, selected.value))
    }

    /** The state main.go starts the program with. */
    constructor (doc: JValue)
      ensures View() == Snapshot(Build(doc, ""), 0, None, 0, 0, "", false, false, "", [], false)
      ensures Valid()
    {
      root := Build(doc, "");
      cursor := 0;
      selected := None;
      height := 0;
      width := 0;
      jqQuery := "";
      showHelp := false;
      searchMode := false;
      searchTerm := "";
      filtered := [];
      wrapValues := false;
    }

    /** Up or k. */
    method MoveUp()
      requires Valid()
      modifies this
      ensures Valid()
      ensures View() == old(View()).(cursor := if old(cursor) > 0 then old(cursor) - 1 else old(cursor))
    {
      if cursor > 0 {
        cursor := cursor - 1;
      }
    }

    /** Down or j: one row further, but not past the last visible row. */
    method MoveDown()
      requires Valid()
      modifies this
      ensures Valid()
      ensures View() == old(View()).(cursor := if old(cursor) < |Visible(root)| - 1 then old(cursor) + 1 else old(cursor))
      ensures old(cursor) < |Visible(root)| ==> cursor < |Visible(root)|
    {
      var visibleNodes := GetAllVisibleNodes(root);
      if cursor < |visibleNodes| - 1 {
        cursor := cursor + 1;
      }
    }

    /** Page up: half a screen back, stopping at the first row. */
    method PageUp()
      requires Valid()
      modifies this
      ensures Valid()
      ensures View() == old(View()).(cursor := Max(0, old(cursor) - PageSize(height)))
      ensures cursor <= old(cursor)
    {
      var pageSize := PageSize(height);
      cursor := cursor - pageSize;
      if cursor < 0 {
        cursor := 0;
      }
    }

    /** Page down: half a screen on, stopping at the last visible row. */
    method PageDown()
      requires Valid()
      modifies this
      ensures Valid()
      ensures View() == old(View()).(cursor := Min(old(cursor) + PageSize(height), |Visible(root)| - 1))
      ensures cursor < |Visible(root)|
    {
      var visibleNodes := GetAllVisibleNodes(root);
      var pageSize := PageSize(height);
      cursor := cursor + pageSize;
      if cursor >= |visibleNodes| {
        cursor := |visibleNodes| - 1;
      }
    }

    /** The flag change shared by the collapse, expand and space keys and
        the right click: the node listed at row `i`, when there is one and
        it is an object or an array, gets its new flag. */
    method SetFlagAt(visibleNodes: seq<Path>, i: int, change: FlagChange)
      requires Valid() && visibleNodes == Visible(root)
      modifies this`root
      ensures Valid()
      ensures View() == old(View()).(root := FlagAt(old(root), i, change))
    {
      if 0 <= i < |visibleNodes| {
        var current := visibleNodes[i];
        VisibleValid(root, current);
        if IsContainer(At(root, current).Kind()) {
          ghost var t := root;
          var flag := NewFlag(change, At(root, current).expanded);
          root := SetExpanded(root, current, flag);
          forall p | p in filtered ensures ValidPath(root, p) {
            QueryIgnoresSetExpanded(t, current, flag, p);
          }
          if selected.Some? {
            QueryIgnoresSetExpanded(t, current, flag, selected.value);
          }
        }
      }
    }

    /** Left or h, right or l, and space: change the flag of the node
        under the cursor. The cursor stays on that node. */
    method ChangeFlag(change: FlagChange)
      requires Valid()
      modifies this`root
      ensures Valid()
      ensures View() == old(View()).(root := FlagAt(old(root), old(cursor), change))
      ensures old(cursor) < |Visible(old(root))| ==>
        cursor < |Visible(root)| && Visible(root)[..cursor + 1] == Visible(old(root))[..cursor + 1]
    {
      var visibleNodes := GetAllVisibleNodes(root);
      if cursor < |visibleNodes| {
        FlagAtKeepsCursorNode(root, cursor, change);
      }
      SetFlagAt(visibleNodes, cursor, change);
    }

    /** Selecting the node listed at row `i`: the selection and the query
        panel now name it. */
    method SelectRow(visibleNodes: seq<Path>, i: nat)
      requires Valid() && visibleNodes == Visible(root) && i < |visibleNodes|
      modifies this`selected, this`jqQuery
      ensures Valid()
      ensures View() == old(View()).(selected := Some(Visible(root)[i]), jqQuery := ListedQuery(root, i))
    {
      VisibleValid(root, visibleNodes[i]);
      selected := Some(visibleNodes[i]);
      jqQuery := BuildJqQuery(root, visibleNodes[i]);
    }

    /** Enter: select the node under the cursor and show its query. */
    method Select()
      requires Valid()
      modifies this`selected, this`jqQuery
      ensures Valid()
      ensures 0 <= cursor < |Visible(root)| ==>
        View() == old(View()).(selected := Some(Visible(root)[cursor]), jqQuery := ListedQuery(root, cursor))
      ensures cursor >= |Visible(root)| ==> View() == old(View())
    {
      var visibleNodes := GetAllVisibleNodes(root);
      if cursor < |visibleNodes| {
        SelectRow(visibleNodes, cursor);
      }
    }

    /** y: recompute the query of the selection and hand it to the
        clipboard; the result is what is copied, if anything. The panel
        already holds that query, so nothing changes. */
    method Copy() returns (copied: Option<string>)
      requires Valid()
      modifies this
      ensures Valid()
      ensures View() == old(View())
      ensures copied == if selected.Some? then Some(JqQuery(root, selected.value)) else None
      ensures copied.Some? ==> copied.value == jqQuery
    {
      copied := None;
      if selected.Some? {
        var query := BuildJqQuery(root, selected.value);
        jqQuery := query;
        copied := Some(query);
      }
    }

    /** `/`: start typing a search term. */
    method EnterSearch()
      requires Valid()
      modifies this
      ensures Valid()
      ensures View() == old(View()).(searchMode := true)
    {
      searchMode := true;
    }

    /** `?`: show or hide the help screen. */
    method ToggleHelp()
      requires Valid()
      modifies this
      ensures Valid()
      ensures View() == old(View()).(showHelp := !old(showHelp))
    {
      showHelp := !showHelp;
    }

    /** w: turn wrapping of long string values on or off. */
    method ToggleWrap()
      requires Valid()
      modifies this
      ensures Valid()
      ensures View() == old(View()).(wrapValues := !old(wrapValues))
    {
      wrapValues := !wrapValues;
    }

    /** A window size message. */
    method Resize(h: int, w: int)
      requires Valid()
      modifies this
      ensures Valid()
      ensures View() == old(View()).(height := h, width := w)
    {
      height := h;
      width := w;
    }

    /** updateFilteredNodes. */
    method UpdateFilteredNodes()
      requires Valid()
      modifies this
      ensures Valid()
      ensures View() == AfterFilter(old(View()))
    {
      AllVisibleValid(root);
      if searchTerm == "" {
        filtered := GetAllVisibleNodes(root);
        FilterEmptyTerm(root, Visible(root));
        return;
      }
      var allNodes := GetAllVisibleNodes(root);
      filtered := FilterMatching(root, allNodes, searchTerm);
      if cursor >= |filtered| && |filtered| > 0 {
        cursor := |filtered| - 1;
      }
      AfterFilterCursor(old(View()));
      forall p | p in filtered ensures ValidPath(root, p) {
        FilterMembers(root, allNodes, searchTerm, p);
      }
    }

    /** A key while a search term is being typed: esc clears the term and
        leaves search mode, backspace drops the last character, enter
        leaves search mode keeping the term, up and down move within the
        matches, and any other single character is added to the term. */
    method SearchKey(k: string)
      requires Valid()
      modifies this
      ensures Valid()
      ensures SearchCommandOf(k) == ClearSearch ==>
        View() == AfterFilter(old(View()).(searchMode := false, searchTerm := ""))
      ensures SearchCommandOf(k) == DeleteChar ==>
        View() == AfterFilter(old(View()).(searchTerm := DropLast(old(searchTerm))))
      ensures SearchCommandOf(k) == AcceptSearch ==> View() == old(View()).(searchMode := false)
      ensures SearchCommandOf(k) == MatchUp ==>
        View() == old(View()).(cursor := if old(cursor) > 0 then old(cursor) - 1 else old(cursor))
      ensures SearchCommandOf(k) == MatchDown ==>
        View() == old(View()).(cursor := if old(cursor) < |old(filtered)| - 1 then old(cursor) + 1 else old(cursor))
      ensures SearchCommandOf(k) == TypeChar ==> View() == AfterFilter(old(View()).(searchTerm := old(searchTerm) + k))
      ensures SearchCommandOf(k) == IgnoreKey ==> View() == old(View())
    {
      match SearchCommandOf(k) {
        case ClearSearch => CancelSearch();
        case DeleteChar => EraseChar();
        case AcceptSearch => searchMode := false;
        case MatchUp =>
          if cursor > 0 {
            cursor := cursor - 1;
          }
        case MatchDown =>
          if cursor < |filtered| - 1 {
            cursor := cursor + 1;
          }
        case TypeChar => AppendChar(k);
        case IgnoreKey =>
      }
    }

    /** esc in search mode: the term is cleared, search mode ends and the
        listing is filtered again. */
    method CancelSearch()
      requires Valid()
      modifies this
      ensures Valid()
      ensures View() == AfterFilter(old(View()).(searchMode := false, searchTerm := ""))
    {
      searchMode := false;
      searchTerm := "";
      UpdateFilteredNodes();
    }

    /** backspace in search mode: the term loses its last character, if
        any, and the listing is filtered again. */
    method EraseChar()
      requires Valid()
      modifies this
      ensures Valid()
      ensures View() == AfterFilter(old(View()).(searchTerm := DropLast(old(searchTerm))))
    {
      if |searchTerm| > 0 {
        searchTerm := searchTerm[..|searchTerm| - 1];
      }
      UpdateFilteredNodes();
    }

    /** A printable key in search mode: it is added to the term and the
        listing is filtered again. */
    method AppendChar(k: string)
      requires Valid()
      modifies this
      ensures Valid()
      ensures View() == AfterFilter(old(View()).(searchTerm := old(searchTerm) + k))
    {
      searchTerm := searchTerm + k;
      UpdateFilteredNodes();
    }

    /** A key message. In search mode every key goes to `SearchKey`;
        otherwise the key's command decides. The result says whether to
        quit, and what was copied to the clipboard. */
    method HandleKey(k: string) returns (quit: bool, copied: Option<string>)
      requires Valid()
      modifies this
      ensures Valid()
      ensures quit <==> !old(searchMode) && KeyCommand(k) == Quit
      ensures copied.Some? ==> !old(searchMode) && KeyCommand(k) == CopyQuery && copied.value == jqQuery
      ensures !old(searchMode) && old(cursor) < |Visible(old(root))| ==> cursor < |Visible(root)|
      // Outside search mode, the new state for each command.
      ensures !old(searchMode) && KeyCommand(k) in {Quit, Unbound} ==> View() == old(View())
      ensures !old(searchMode) && KeyCommand(k) == CursorUp ==>
        View() == old(View()).(cursor := if old(cursor) > 0 then old(cursor) - 1 else old(cursor))
      ensures !old(searchMode) && KeyCommand(k) == CursorDown ==>
        View() == old(View()).(cursor := if old(cursor) < |Visible(root)| - 1 then old(cursor) + 1 else old(cursor))
      ensures !old(searchMode) && KeyCommand(k) == PageBack ==>
        View() == old(View()).(cursor := Max(0, old(cursor) - PageSize(height)))
      ensures !old(searchMode) && KeyCommand(k) == PageForward ==>
        View() == old(View()).(cursor := Min(old(cursor) + PageSize(height), |Visible(root)| - 1))
      ensures !old(searchMode) && KeyCommand(k) == CollapseNode ==>
        View() == old(View()).(root := FlagAt(old(root), old(cursor), Collapse))
      ensures !old(searchMode) && KeyCommand(k) == ExpandNode ==>
        View() == old(View()).(root := FlagAt(old(root), old(cursor), Expand))
      ensures !old(searchMode) && KeyCommand(k) == ToggleNode ==>
        View() == old(View()).(root := FlagAt(old(root), old(cursor), Toggle))
      ensures !old(searchMode) && KeyCommand(k) == SelectNode && old(cursor) < |Visible(root)| ==>
        View() == old(View()).(selected := Some(Visible(root)[old(cursor)]), jqQuery := ListedQuery(root, old(cursor)))
      ensures !old(searchMode) && KeyCommand(k) == SelectNode && old(cursor) >= |Visible(root)| ==>
        View() == old(View())
      ensures !old(searchMode) && KeyCommand(k) == CopyQuery ==>
        View() == old(View()) && copied == if selected.Some? then Some(JqQuery(root, selected.value)) else None
      ensures !old(searchMode) && KeyCommand(k) != CopyQuery ==> copied == None
      ensures !old(searchMode) && KeyCommand(k) == StartSearch ==> View() == old(View()).(searchMode := true)
      ensures !old(searchMode) && KeyCommand(k) == ToggleHelpScreen ==> View() == old(View()).(showHelp := !old(showHelp))
      ensures !old(searchMode) && KeyCommand(k) == ToggleWrapping ==> View() == old(View()).(wrapValues := !old(wrapValues))
      // In search mode, the new state for each search command.
      ensures old(searchMode) && SearchCommandOf(k) == ClearSearch ==>
        View() == AfterFilter(old(View()).(searchMode := false, searchTerm := ""))
      ensures old(searchMode) && SearchCommandOf(k) == DeleteChar ==>
        View() == AfterFilter(old(View()).(searchTerm := DropLast(old(searchTerm))))
      ensures old(searchMode) && SearchCommandOf(k) == AcceptSearch ==> View() == old(View()).(searchMode := false)
      ensures old(searchMode) && SearchCommandOf(k) == MatchUp ==>
        View() == old(View()).(cursor := if old(cursor) > 0 then old(cursor) - 1 else old(cursor))
      ensures old(searchMode) && SearchCommandOf(k) == MatchDown ==>
        View() == old(View()).(cursor := if old(cursor) < |old(filtered)| - 1 then old(cursor) + 1 else old(cursor))
      ensures old(searchMode) && SearchCommandOf(k) == TypeChar ==>
        View() == AfterFilter(old(View()).(searchTerm := old(searchTerm) + k))
      ensures old(searchMode) && SearchCommandOf(k) == IgnoreKey ==> View() == old(View())
      ensures old(searchMode) ==> copied == None
    {
      quit := false;
      copied := None;
      if searchMode {
        SearchKey(k);
        return;
      }
      match KeyCommand(k) {
        case Quit => quit := true;
        case CursorUp => MoveUp();
        case CursorDown => MoveDown();
        case PageBack => PageUp();
        case PageForward => PageDown();
        case CollapseNode => ChangeFlag(Collapse);
        case ExpandNode => ChangeFlag(Expand);
        case SelectNode => Select();
        case CopyQuery => copied := Copy();
        case StartSearch => EnterSearch();
        case ToggleHelpScreen => ToggleHelp();
        case ToggleWrapping => ToggleWrap();
        case ToggleNode => ChangeFlag(Toggle);
        case Unbound =>
      }
    }

    /** The first screen row of the tree: below the title, and below the
        search line when there is one. */
    function TreeTop(): int
      reads this
    {
      2 + (if searchMode || searchTerm != "" then 1 else 0)
    }

    /** The screen rows of the tree, header row included: the height less
        the title, search, query and help lines and one spare row. */
    function TreeHeight(): int
      reads this
    {
      var searchHeight := if searchMode || searchTerm != "" then 1 else 0;
      var queryHeight := if jqQuery != "" && selected.Some? then 4 else 0;
      height - 2 - searchHeight - queryHeight - 2 - 1
    }

    /** A click on a tree row below the header. */
    predicate OnTreeRow(y: int)
      reads this
    {
      TreeTop() < y < TreeTop() + TreeHeight()
    }

    /** The row index a click at screen row `y` picks. */
    function Clicked(y: int): int
      reads this
    {
      var n := |Visible(root)|;
      ClickIndex(ShownFrom(n, cursor, TreeHeight() - 1), y - TreeTop(), n)
    }

    /** Where a mouse event at screen row `y` lands: the listing, and the
        row of it under the pointer when the event is on a tree row below
        the header. The rows are worked out as the tree view draws them. */
    method MouseTarget(y: int) returns (visibleNodes: seq<Path>, target: Option<nat>)
      requires Valid()
      ensures visibleNodes == Visible(root)
      ensures target == if OnTreeRow(y) then Some(Clicked(y)) else None
      ensures target.Some? ==> target.value < |visibleNodes|
    {
      var titleHeight := 2;
      var searchHeight := if searchMode || searchTerm != "" then 1 else 0;
      var queryHeight := if jqQuery != "" && selected.Some? then 4 else 0;
      var helpHeight := 2;
      var treeHeight := height - titleHeight - searchHeight - queryHeight - helpHeight - 1;
      var treeStartY := titleHeight + searchHeight;
      visibleNodes := GetAllVisibleNodes(root);
      target := None;
      if treeStartY <= y < treeStartY + treeHeight {
        var startIdx, _ := Viewport(|visibleNodes|, cursor, treeHeight - 1);
        var rel := y - treeStartY;
        if rel > 0 {
          var idx := ClickIndex(startIdx, rel, |visibleNodes|);
          target := Some(idx);
        }
      }
    }

    /** A mouse event at screen row `y`: a left click moves the cursor to
        the row clicked and selects it, a right click toggles it, and the
        wheel moves the cursor as the up and down keys do. Events off the
        tree rows change nothing. */
    method Mouse(y: int, button: MouseButton)
      requires Valid()
      modifies this
      ensures Valid()
      ensures !old(OnTreeRow(y)) || button == MouseOther ==> View() == old(View())
      ensures old(OnTreeRow(y)) && button == MouseLeft ==>
        var i := old(Clicked(y));
        && 0 <= i < |Visible(root)|
        && View() == old(View()).(cursor := i, selected := Some(Visible(root)[i]), jqQuery := ListedQuery(root, i))
      ensures old(OnTreeRow(y)) && button == MouseRight ==>
        View() == old(View()).(root := FlagAt(old(root), old(Clicked(y)), Toggle))
      ensures old(OnTreeRow(y)) && button == MouseWheelUp ==>
        View() == old(View()).(cursor := if old(cursor) > 0 then old(cursor) - 1 else old(cursor))
      ensures old(OnTreeRow(y)) && button == MouseWheelDown ==>
        View() == old(View()).(cursor := if old(cursor) < |Visible(root)| - 1 then old(cursor) + 1 else old(cursor))
    {
      var visibleNodes, target := MouseTarget(y);
      if target.Some? {
        var idx := target.value;
        match button {
          case MouseLeft =>
            cursor := idx;
            SelectRow(visibleNodes, idx);
          case MouseRight =>
            SetFlagAt(visibleNodes, idx, Toggle);
          case MouseWheelUp =>
            MoveUp();
          case MouseWheelDown =>
            MoveDown();
          case MouseOther =>
        }
      }
    }
  }
}
