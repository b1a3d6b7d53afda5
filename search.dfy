/** Search: the filter that `updateFilteredNodes` of ui.go computes, and the
    split of a rendered text into plain and highlighted runs that
    `highlightMatch` writes. Styling is reduced to the tag of a segment. */
module Search {
  import opened Strings
  import opened Tree
  import opened Subsequences

  /** The nodes of `ps` that match the term, in their order. */
  function Filter(t: Node, ps: seq<Path>, term: string): seq<Path>
    requires forall p :: p in ps ==> ValidPath(t, p)
    decreases |ps|
  {
    if ps == [] then []
    else
      var init := Filter(t, ps[..|ps| - 1], term);
      if MatchesSearch(At(t, ps[|ps| - 1]), term) then init + [ps[|ps| - 1]] else init
  }

  /** The filter keeps the order of the list it selects from. */
  lemma {:induction false} FilterSubseq(t: Node, ps: seq<Path>, term: string)
    requires forall p :: p in ps ==> ValidPath(t, p)
    ensures IsSubseq(Filter(t, ps, term), ps)
    decreases |ps|
  {
    if ps != [] {
      var init := ps[..|ps| - 1];
      var last := ps[|ps| - 1];
      FilterSubseq(t, init, term);
      assert ps == init + [last];
      if MatchesSearch(At(t, last), term) {
        SubseqRefl([last]);
        SubseqConcat(Filter(t, init, term), init, [last], [last]);
      } else {
        SubseqEmpty<Path>([]);
        SubseqConcat(Filter(t, init, term), init, [], [last]);
        assert Filter(t, init, term) + [] == Filter(t, init, term);
      }
    }
  }

  /** A node is in the filter exactly when it is in the list and matches. */
  lemma {:induction false} FilterMembers(t: Node, ps: seq<Path>, term: string, p: Path)
    requires forall q :: q in ps ==> ValidPath(t, q)
    ensures p in Filter(t, ps, term) <==> p in ps && MatchesSearch(At(t, p), term)
    decreases |ps|
  {
    if ps != [] {
      var init := ps[..|ps| - 1];
      var last := ps[|ps| - 1];
      FilterMembers(t, init, term, p);
      assert ps == init + [last];
      assert p in ps <==> p in init || p == last;
      var f := Filter(t, init, term);
      if MatchesSearch(At(t, last), term) {
        assert Filter(t, ps, term) == f + [last];
      } else {
        assert Filter(t, ps, term) == f;
      }
    }
  }

  /** With the empty term every node matches and the filter is the whole
      list. */
  lemma {:induction false} FilterEmptyTerm(t: Node, ps: seq<Path>)
    requires forall p :: p in ps ==> ValidPath(t, p)
    ensures Filter(t, ps, "") == ps
    decreases |ps|
  {
    if ps != [] {
      FilterEmptyTerm(t, ps[..|ps| - 1]);
      assert ps == ps[..|ps| - 1] + [ps[|ps| - 1]];
    }
  }

  /** The loop of `updateFilteredNodes`: append every node that matches. */
  method FilterMatching(t: Node, ps: seq<Path>, term: string) returns (filtered: seq<Path>)
    requires forall p :: p in ps ==> ValidPath(t, p)
    ensures filtered == Filter(t, ps, term)
  {
    filtered := [];
    var i := 0;
    while i < |ps|
      invariant 0 <= i <= |ps|
      invariant forall p :: p in ps[..i] ==> p in ps
      invariant filtered == Filter(t, ps[..i], term)
    {
      assert ps[..i + 1][..i] == ps[..i];
      assert forall p :: p in ps[..i + 1] ==> p in ps;
      if MatchesSearch(At(t, ps[i]), term) {
        filtered := filtered + [ps[i]];
      }
      i := i + 1;
    }
    assert ps[..i] == ps;
  }

  /** A run of rendered text: in the base style, or in the match style. */
  datatype Segment = Plain(text: string) | Hit(text: string)

  /** The text the segments render, styles aside. */
  function Joined(segs: seq<Segment>): string
  {
    if segs == [] then "" else segs[0].text + Joined(segs[1..])
  }

  lemma {:induction false} JoinedAppend(a: seq<Segment>, b: seq<Segment>)
    ensures Joined(a + b) == Joined(a) + Joined(b)
    decreases |a|
  {
    if a == [] {
      assert a + b == b;
    } else {
      assert (a + b)[1..] == a[1..] + b;
      JoinedAppend(a[1..], b);
    }
  }

  lemma JoinedOne(s: Segment)
    ensures Joined([s]) == s.text
  {
    assert [s][1..] == [];
  }

  /** No occurrence of `t` in `s` starts at a position in [lo, hi). */
  predicate NoHitStartsIn(s: string, t: string, lo: int, hi: int)
  {
    forall k :: lo <= k < hi ==> !OccursAt(s, t, k)
  }

  /** The first position at or after `from` at which `t` occurs in `s`, or
      -1: what `strings.Index` on the rest of the text gives, as a
      position in the whole text. */
  function NextHit(s: string, t: string, from: nat): (r: int)
    requires from <= |s|
    ensures r == -1 || (from <= r && r + |t| <= |s|)
    decreases |s| - from
  {
    if from + |t| > |s| then -1
    else if s[from..from + |t|] == t then from
    else if from == |s| then -1
    else NextHit(s, t, from + 1)
  }

  /** The position found is the first occurrence at or after `from`; -1
      means there is none. */
  lemma {:induction false} NextHitSpec(s: string, t: string, from: nat)
    requires from <= |s|
    ensures var r := NextHit(s, t, from);
      && (r == -1 || (OccursAt(s, t, r) && NoHitStartsIn(s, t, from, r)))
      && (r == -1 <==> forall k :: from <= k ==> !OccursAt(s, t, k))
    decreases |s| - from
  {
    if from + |t| <= |s| && s[from..from + |t|] != t && from < |s| {
      NextHitSpec(s, t, from + 1);
    }
  }

  /** `strings.Index` of the rest of the text names the same position. */
  lemma {:induction false} NextHitIsIndex(s: string, t: string, from: nat)
    requires from <= |s|
    ensures NextHit(s, t, from) == (var j := Index(s[from..], t); if j == -1 then -1 else from + j)
    decreases |s| - from
  {
    var u := s[from..];
    if from + |t| <= |s| {
      assert u[..|t|] == s[from..from + |t|];
      if s[from..from + |t|] != t && from < |s| {
        assert u[1..] == s[from + 1..];
        NextHitIsIndex(s, t, from + 1);
      }
    }
  }

  /** The segments `highlightMatch` writes from position `from` on, where
      `low` is the lower-cased text and `lt` the lower-cased term. */
  function HitsFrom(text: string, low: string, lt: string, from: nat): (r: seq<Segment>)
    requires |low| == |text| && |lt| > 0 && from <= |text|
    decreases |text| - from
  {
    var idx := NextHit(low, lt, from);
    if idx == -1 then (if from < |text| then [Plain(text[from..])] else [])
    else
      (if idx > from then [Plain(text[from..idx])] else []) + [Hit(text[idx..idx + |lt|])]
      + HitsFrom(text, low, lt, idx + |lt|)
  }

  /** `highlightMatch`: one plain run for the empty term or a text without
      a hit; otherwise the runs between and at the hits. */
  function Highlight(text: string, term: string): seq<Segment>
  {
    if term == "" || NextHit(Lower(text), Lower(term), 0) == -1 then [Plain(text)]
    else HitsFrom(text, Lower(text), Lower(term), 0)
  }

  /** The offset in the text at which segment `i` starts: the length of
      the runs before it. */
  function Offset(segs: seq<Segment>, i: nat): nat
    requires i <= |segs|
  {
    if i == 0 then 0 else |segs[0].text| + Offset(segs[1..], i - 1)
  }

  /** The offset of a run is the length of the text rendered before it. */
  lemma {:induction false} OffsetIsJoinedPrefix(segs: seq<Segment>, i: nat)
    requires i <= |segs|
    ensures Offset(segs, i) == |Joined(segs[..i])|
  {
    if i > 0 {
      OffsetIsJoinedPrefix(segs[1..], i - 1);
      assert segs[..i][1..] == segs[1..][..i - 1];
    }
  }

  /** The plain run `highlightMatch` writes before a hit at `idx`. */
  function Before(text: string, from: nat, idx: nat): (r: seq<Segment>)
    requires from <= idx <= |text|
    ensures Joined(r) == text[from..idx]
    ensures |r| <= 1 && forall i :: 0 <= i < |r| ==> r[i] == Plain(text[from..idx]) && r[i].text != ""
  {
    if idx > from then
      JoinedOne(Plain(text[from..idx]));
      [Plain(text[from..idx])]
    else
      []
  }

  /** One step of `HitsFrom` when a hit remains: the run before it (none
      when the hit starts at `from`), the hit, and the runs after it. */
  lemma HitsFromUnfold(text: string, low: string, lt: string, from: nat)
    requires |low| == |text| && |lt| > 0 && from <= |text|
    requires NextHit(low, lt, from) != -1
    ensures var idx := NextHit(low, lt, from);
      && from <= idx && idx + |lt| <= |text|
      && HitsFrom(text, low, lt, from) ==
         Before(text, from, idx) + [Hit(text[idx..idx + |lt|])] + HitsFrom(text, low, lt, idx + |lt|)
  {
  }

  /** The runs when no hit remains. */
  lemma HitsFromTail(text: string, low: string, lt: string, from: nat)
    requires |low| == |text| && |lt| > 0 && from <= |text|
    requires NextHit(low, lt, from) == -1
    ensures HitsFrom(text, low, lt, from) == (if from < |text| then [Plain(text[from..])] else [])
  {
  }

  /** Rendering a step: the run before the hit, the hit and what follows
      render the text from `from` on. */
  lemma JoinedStep(text: string, from: nat, idx: nat, n: nat, b: seq<Segment>)
    requires from <= idx && idx + n <= |text| && Joined(b) == text[idx + n..]
    ensures Joined(Before(text, from, idx) + [Hit(text[idx..idx + n])] + b) == text[from..]
  {
    JoinedAround(Before(text, from, idx), Hit(text[idx..idx + n]), b);
    SlicesJoin(text, from, idx, idx + n);
  }

  lemma JoinedAround(a: seq<Segment>, s: Segment, b: seq<Segment>)
    ensures Joined(a + [s] + b) == Joined(a) + s.text + Joined(b)
  {
    JoinedAppend(a, [s]);
    JoinedOne(s);
    JoinedAppend(a + [s], b);
  }

  lemma SlicesJoin(s: string, i: nat, j: nat, k: nat)
    requires i <= j <= k <= |s|
    ensures s[i..j] + s[j..k] + s[k..] == s[i..]
  {
  }

  lemma JoinedAt(text: string, low: string, lt: string, from: nat, idx: nat, b: seq<Segment>)
    requires |low| == |text| && |lt| > 0 && from <= |text|
    requires idx == NextHit(low, lt, from) && idx + |lt| <= |text|
    requires b == HitsFrom(text, low, lt, idx + |lt|) && Joined(b) == text[idx + |lt|..]
    ensures Joined(HitsFrom(text, low, lt, from)) == text[from..]
  {
    HitsFromUnfold(text, low, lt, from);
    var r := HitsFrom(text, low, lt, from);
    assert r == Before(text, from, idx) + [Hit(text[idx..idx + |lt|])] + b;
    JoinedStep(text, from, idx, |lt|, b);
  }

  /** The runs from `from` on render the rest of the text. */
  lemma {:induction false} HitsFromJoined(text: string, low: string, lt: string, from: nat)
    requires |low| == |text| && |lt| > 0 && from <= |text|
    ensures Joined(HitsFrom(text, low, lt, from)) == text[from..]
    decreases |text| - from
  {
    var idx := NextHit(low, lt, from);
    if idx == -1 {
      HitsFromTail(text, low, lt, from);
      if from < |text| {
        JoinedOne(Plain(text[from..]));
      }
    } else {
      HitsFromJoined(text, low, lt, idx + |lt|);
      JoinedAt(text, low, lt, from, idx, HitsFrom(text, low, lt, idx + |lt|));
    }
  }

  /** The runs are well formed when every hit is the term up to case and no
      plain run is empty. */
  predicate WellFormedRuns(r: seq<Segment>, lt: string)
  {
    forall i :: 0 <= i < |r| ==> RunOK(r[i], lt)
  }

  predicate RunOK(s: Segment, lt: string)
  {
    && (s.Hit? ==> Lower(s.text) == lt)
    && (s.Plain? ==> s.text != "")
  }

  lemma RunsStep(text: string, from: nat, idx: nat, lt: string, b: seq<Segment>)
    requires from <= idx && idx + |lt| <= |text|
    requires Lower(text[idx..idx + |lt|]) == lt && WellFormedRuns(b, lt)
    ensures WellFormedRuns(Before(text, from, idx) + [Hit(text[idx..idx + |lt|])] + b, lt)
  {
    var hit := Hit(text[idx..idx + |lt|]);
    var a := Before(text, from, idx) + [hit];
    var r := a + b;
    forall i | 0 <= i < |r|
      ensures RunOK(r[i], lt)
    {
      if i < |a| - 1 {
        assert r[i] == Before(text, from, idx)[i];
      } else if i == |a| - 1 {
        assert r[i] == hit;
      } else {
        assert r[i] == b[i - |a|];
      }
    }
  }

  /** The hit found in the lower-cased text is the term up to case. */
  lemma HitIsTerm(text: string, lt: string, idx: nat)
    requires idx + |lt| <= |text| && OccursAt(Lower(text), lt, idx)
    ensures Lower(text[idx..idx + |lt|]) == lt
  {
    LowerSlice(text, idx, idx + |lt|);
  }

  lemma RunsAt(text: string, low: string, lt: string, from: nat, idx: nat, b: seq<Segment>)
    requires low == Lower(text) && |lt| > 0 && from <= |text|
    requires idx == NextHit(low, lt, from) && idx + |lt| <= |text|
    requires b == HitsFrom(text, low, lt, idx + |lt|) && WellFormedRuns(b, lt)
    ensures WellFormedRuns(HitsFrom(text, low, lt, from), lt)
  {
    HitsFromUnfold(text, low, lt, from);
    var r := HitsFrom(text, low, lt, from);
    assert r == Before(text, from, idx) + [Hit(text[idx..idx + |lt|])] + b;
    NextHitSpec(low, lt, from);
    HitIsTerm(text, lt, idx);
    RunsStep(text, from, idx, lt, b);
  }

  /** Every hit is the term up to case, and no plain run is empty. */
  lemma {:induction false} HitsFromRuns(text: string, low: string, lt: string, from: nat)
    requires low == Lower(text) && |lt| > 0 && from <= |text|
    ensures WellFormedRuns(HitsFrom(text, low, lt, from), lt)
    decreases |text| - from
  {
    var idx := NextHit(low, lt, from);
    if idx == -1 {
      HitsFromTail(text, low, lt, from);
    } else {
      HitsFromRuns(text, low, lt, idx + |lt|);
      RunsAt(text, low, lt, from, idx, HitsFrom(text, low, lt, idx + |lt|));
    }
  }

  /** No occurrence of `lt` in `low` starts inside a plain run of `r`, where
      the runs are laid out from position `pos` on. */
  predicate CleanFrom(r: seq<Segment>, low: string, lt: string, pos: nat)
    decreases |r|
  {
    r == [] ||
    (&& (r[0].Plain? ==> NoHitStartsIn(low, lt, pos, pos + |r[0].text|))
     && CleanFrom(r[1..], low, lt, pos + |r[0].text|))
  }

  /** The same, stated run by run with the offset of each run. */
  lemma {:induction false} CleanFromAll(r: seq<Segment>, low: string, lt: string, pos: nat)
    requires CleanFrom(r, low, lt, pos)
    ensures forall i :: 0 <= i < |r| && r[i].Plain? ==>
      NoHitStartsIn(low, lt, pos + Offset(r, i), pos + Offset(r, i) + |r[i].text|)
    decreases |r|
  {
    if r != [] {
      CleanFromAll(r[1..], low, lt, pos + |r[0].text|);
      forall i | 0 < i < |r| ensures r[i] == r[1..][i - 1] && Offset(r, i) == |r[0].text| + Offset(r[1..], i - 1) {
      }
    }
  }

  lemma CleanStep(text: string, low: string, from: nat, idx: nat, lt: string, b: seq<Segment>)
    requires from <= idx && idx + |lt| <= |text|
    requires NoHitStartsIn(low, lt, from, idx)
    requires CleanFrom(b, low, lt, idx + |lt|)
    ensures CleanFrom(Before(text, from, idx) + [Hit(text[idx..idx + |lt|])] + b, low, lt, from)
  {
    var hit := Hit(text[idx..idx + |lt|]);
    var hb := [hit] + b;
    assert hb[1..] == b;
    assert CleanFrom(hb, low, lt, idx);
    if idx > from {
      var r := Before(text, from, idx) + hb;
      assert r == [Plain(text[from..idx])] + hb;
      assert r[1..] == hb;
    } else {
      assert Before(text, from, idx) + [hit] + b == hb;
    }
  }

  lemma CleanAt(text: string, low: string, lt: string, from: nat, idx: nat, b: seq<Segment>)
    requires |low| == |text| && |lt| > 0 && from <= |text|
    requires idx == NextHit(low, lt, from) && idx + |lt| <= |text|
    requires b == HitsFrom(text, low, lt, idx + |lt|) && CleanFrom(b, low, lt, idx + |lt|)
    ensures CleanFrom(HitsFrom(text, low, lt, from), low, lt, from)
  {
    HitsFromUnfold(text, low, lt, from);
    var r := HitsFrom(text, low, lt, from);
    assert r == Before(text, from, idx) + [Hit(text[idx..idx + |lt|])] + b;
    NextHitSpec(low, lt, from);
    CleanStep(text, low, from, idx, lt, b);
  }

  lemma TailClean(text: string, low: string, lt: string, from: nat)
    requires |low| == |text| && from < |text| && NextHit(low, lt, from) == -1
    ensures CleanFrom([Plain(text[from..])], low, lt, from)
  {
    NextHitSpec(low, lt, from);
    assert [Plain(text[from..])][1..] == [];
  }

  /** No occurrence of the term starts inside a plain run: each hit is the
      leftmost occurrence after the previous hit. */
  lemma {:induction false} HitsFromLeftmost(text: string, low: string, lt: string, from: nat)
    requires |low| == |text| && |lt| > 0 && from <= |text|
    ensures CleanFrom(HitsFrom(text, low, lt, from), low, lt, from)
    decreases |text| - from
  {
    var idx := NextHit(low, lt, from);
    if idx == -1 {
      HitsFromTail(text, low, lt, from);
      if from < |text| {
        TailClean(text, low, lt, from);
      }
    } else {
      HitsFromLeftmost(text, low, lt, idx + |lt|);
      CleanAt(text, low, lt, from, idx, HitsFrom(text, low, lt, idx + |lt|));
    }
  }

  /** The search finds a hit exactly when the lower-cased term occurs. */
  lemma ContainsIffHit(low: string, lt: string)
    ensures Contains(low, lt) <==> NextHit(low, lt, 0) != -1
  {
    NextHitIsIndex(low, lt, 0);
    assert low[0..] == low;
  }

  /** With a hit, the result holds a hit run, so it is not one plain run. */
  lemma HighlightHasHit(text: string, term: string)
    requires term != "" && NextHit(Lower(text), Lower(term), 0) != -1
    ensures Highlight(text, term) != [Plain(text)]
  {
    HitsFromUnfold(text, Lower(text), Lower(term), 0);
    var idx := NextHit(Lower(text), Lower(term), 0);
    var r := Highlight(text, term);
    assert r[|Before(text, 0, idx)|].Hit?;
  }

  /** The facts when there is at least one hit. */
  lemma HighlightHits(text: string, term: string)
    requires term != "" && NextHit(Lower(text), Lower(term), 0) != -1
    ensures var r := Highlight(text, term);
      && Joined(r) == text
      && WellFormedRuns(r, Lower(term))
      && CleanFrom(r, Lower(text), Lower(term), 0)
  {
    HitsFromJoined(text, Lower(text), Lower(term), 0);
    HitsFromRuns(text, Lower(text), Lower(term), 0);
    HitsFromLeftmost(text, Lower(text), Lower(term), 0);
    assert text[0..] == text;
  }

  /** The one plain run of the empty term or a text with no hit. */
  lemma HighlightNone(text: string, term: string)
    requires term == "" || NextHit(Lower(text), Lower(term), 0) == -1
    ensures var r := Highlight(text, term);
      && r == [Plain(text)] && Joined(r) == text
      && (term != "" ==> CleanFrom(r, Lower(text), Lower(term), 0))
  {
    JoinedOne(Plain(text));
    if term != "" {
      NextHitSpec(Lower(text), Lower(term), 0);
      assert [Plain(text)][1..] == [];
    }
  }

  /** What `highlightMatch` promises: the runs render the text exactly;
      every hit is the term up to case and no plain run is empty (unless it
      is the whole text); for a non-empty term no occurrence starts inside
      a plain run, so the hits are the leftmost occurrences, taken left to
      right without overlap; and the result is one plain run exactly when
      the term is empty or does not occur. */
  lemma HighlightSegmentation(text: string, term: string)
    ensures var r := Highlight(text, term);
      && Joined(r) == text
      && (forall i :: 0 <= i < |r| && r[i].Hit? ==> Lower(r[i].text) == Lower(term))
      && (term != "" ==> forall i :: 0 <= i < |r| && r[i].Plain? ==>
            NoHitStartsIn(Lower(text), Lower(term), Offset(r, i), Offset(r, i) + |r[i].text|))
      && (r == [Plain(text)] <==> term == "" || !Contains(Lower(text), Lower(term)))
  {
    var r := Highlight(text, term);
    ContainsIffHit(Lower(text), Lower(term));
    if term == "" || NextHit(Lower(text), Lower(term), 0) == -1 {
      HighlightNone(text, term);
      if term != "" {
        CleanFromAll(r, Lower(text), Lower(term), 0);
      }
    } else {
      HighlightHits(text, term);
      HighlightHasHit(text, term);
      CleanFromAll(r, Lower(text), Lower(term), 0);
      forall i | 0 <= i < |r| ensures r[i].Hit? ==> Lower(r[i].text) == Lower(term) {
        assert RunOK(r[i], Lower(term));
      }
    }
  }

  /** One turn of the loop of `highlightMatch`: the runs still to come from
      `lastEnd` are the run before the hit, the hit and the runs after it,
      and the next search starts after the hit. */
  lemma LoopTurn(text: string, low: string, lt: string, lastEnd: nat, idx: int, e: int,
                 segs: seq<Segment>, next: seq<Segment>, target: seq<Segment>)
    requires |low| == |text| && |lt| > 0 && lastEnd <= |text|
    requires idx == NextHit(low, lt, lastEnd) && idx != -1 && e == idx + |lt|
    requires segs + HitsFrom(text, low, lt, lastEnd) == target
    requires next == segs + (if idx > lastEnd then [Plain(text[lastEnd..idx])] else []) + [Hit(text[idx..e])]
    ensures lastEnd < e <= |text| && next + HitsFrom(text, low, lt, e) == target
  {
    HitsFromUnfold(text, low, lt, lastEnd);
    var before := Before(text, lastEnd, idx);
    var rest := HitsFrom(text, low, lt, e);
    AppendRegroup(segs, before + [Hit(text[idx..e])], rest, HitsFrom(text, low, lt, lastEnd), target, next);
  }

  lemma AppendRegroup<T>(segs: seq<T>, step: seq<T>, rest: seq<T>, r: seq<T>, target: seq<T>, next: seq<T>)
    requires r == step + rest && segs + r == target && next == segs + step
    ensures next + rest == target
  {
  }

  /** The search of `highlightMatch` after a hit: `strings.Index` on the
      rest of the text, as a position in the whole text. */
  method IndexFrom(s: string, t: string, from: nat) returns (idx: int)
    requires from <= |s|
    ensures idx == NextHit(s, t, from)
  {
    var nextIdx := Index(s[from..], t);
    NextHitIsIndex(s, t, from);
    if nextIdx == -1 {
      idx := -1;
    } else {
      idx := from + nextIdx;
    }
  }

  /** `highlightMatch`: search the lower-cased text from the end of the last
      hit, writing the run before each hit and the hit itself, then the
      rest. */
  method HighlightMatch(text: string, term: string) returns (segs: seq<Segment>)
    ensures segs == Highlight(text, term)
  {
    if term == "" {
      return [Plain(text)];
    }
    var lower := Lower(text);
    var searchLower := Lower(term);
    var idx := Index(lower, searchLower);
    NextHitIsIndex(lower, searchLower, 0);
    assert lower[0..] == lower;
    if idx == -1 {
      return [Plain(text)];
    }
    ghost var target := HitsFrom(text, lower, searchLower, 0);
    segs := [];
    var lastEnd := 0;
    while idx != -1
      invariant 0 <= lastEnd <= |text|
      invariant idx == NextHit(lower, searchLower, lastEnd)
      invariant segs + HitsFrom(text, lower, searchLower, lastEnd) == target
      decreases |text| - lastEnd
    {
      ghost var s0 := segs;
      if idx > lastEnd {
        segs := segs + [Plain(text[lastEnd..idx])];
      }
      var matchEnd := idx + |term|;
      segs := segs + [Hit(text[idx..matchEnd])];
      LoopTurn(text, lower, searchLower, lastEnd, idx, matchEnd, s0, segs, target);
      lastEnd := matchEnd;
      idx := IndexFrom(lower, searchLower, lastEnd);
    }
    HitsFromTail(text, lower, searchLower, lastEnd);
    if lastEnd < |text| {
      segs := segs + [Plain(text[lastEnd..])];
    } else {
      assert segs + [] == segs;
    }
  }
}
