/** The layout arithmetic of the tree view in ui.go: which window of the
    visible rows is drawn around the cursor, how deep a row is indented,
    and how a long string value is wrapped onto continuation lines. */
module Render {
  import opened Strings
  import opened JsonValue
  import opened Tree

  function Max(a: int, b: int): int { if a < b then b else a }
  function Min(a: int, b: int): int { if a < b then a else b }

  /** The rows left for nodes below the header line of the tree view: one
      less than the height given, or 10 when that leaves no row at all. */
  function ViewHeight(availableHeight: int): (r: int)
    ensures r >= 1
    ensures availableHeight >= 2 ==> r == availableHeight - 1
    ensures availableHeight < 2 ==> r == 10
  {
    var viewHeight := availableHeight - 1;
    if viewHeight < 1 then 10 else viewHeight
  }

  /** The window [startIdx, endIdx) of `n` rows drawn when `viewHeight`
      rows fit: all of them when they fit, otherwise the first window of
      `viewHeight` rows that holds the cursor. */
  method Viewport(n: nat, cursor: int, viewHeight: int) returns (startIdx: int, endIdx: int)
    ensures n <= viewHeight ==> startIdx == 0 && endIdx == n
    ensures n > viewHeight >= 1 && cursor >= 0 ==>
      startIdx == Max(0, cursor - viewHeight + 1) && endIdx == Min(startIdx + viewHeight, n)
    ensures viewHeight >= 1 && 0 <= cursor < n ==>
      0 <= startIdx <= cursor < endIdx <= n && endIdx - startIdx == Min(n, viewHeight)
  {
    startIdx := 0;
    endIdx := n;
    if n > viewHeight {
      if cursor >= startIdx + viewHeight {
        startIdx := cursor - viewHeight + 1;
      }
      if cursor < startIdx {
        startIdx := cursor;
      }
      endIdx := startIdx + viewHeight;
      if endIdx > n {
        endIdx := n;
      }
    }
  }

  /** The row a click lands on: the node drawn `rel - 1` rows below the
      first drawn one, clamped into the visible rows. */
  function ClickIndex(startIdx: int, rel: int, n: nat): (idx: int)
    ensures n >= 1 ==> 0 <= idx < n
    ensures 0 <= startIdx + (rel - 1) < n ==> idx == startIdx + (rel - 1)
  {
    var idx := startIdx + (rel - 1);
    var idx := if idx < 0 then 0 else idx;
    if idx >= n then n - 1 else idx
  }

  /** The indentation of a row: two blanks for each parent link walked up
      from the node to the root. */
  method GetIndent(p: Path) returns (indent: string)
    ensures indent == Repeat("  ", |p|)
    ensures |indent| == 2 * |p| && AllBlank(indent)
  {
    var level := 0;
    var current := p;
    while current != []
      invariant level + |current| == |p|
      decreases |current|
    {
      level := level + 1;
      current := Parent(current);
    }
    indent := Repeat("  ", level);
    RepeatBlank("  ", level);
  }

  // ---------------------------------------------------------------------
  // Word wrap of long string values

  /** The rightmost blank among positions 1..k of `s`, or 0 when there is
      none: the backwards scan of `wrapLine`. */
  function LastBlank(s: string, k: nat): (r: nat)
    requires k < |s|
    ensures r <= k && (r == 0 || s[r] == ' ')
    ensures forall j :: r < j <= k ==> s[j] != ' '
    decreases k
  {
    if k == 0 || s[k] == ' ' then k else LastBlank(s, k - 1)
  }

  /** Only one position has the two properties of `LastBlank`. */
  lemma {:induction false} LastBlankUnique(s: string, k: nat, b: nat)
    requires k < |s| && b <= k && (b == 0 || s[b] == ' ')
    requires forall j :: b < j <= k ==> s[j] != ' '
    ensures b == LastBlank(s, k)
    decreases k
  {
    if k != 0 && s[k] != ' ' {
      LastBlankUnique(s, k - 1, b);
    }
  }

  /** Where a remaining text longer than `width` is cut: before the last
      blank within the first `width + 1` characters, or hard at `width`. */
  function BreakPoint(s: string, width: nat): (b: nat)
    requires 0 < width < |s|
    ensures 0 < b <= width
    ensures b < width ==> s[b] == ' '
    ensures forall j :: b < j <= width ==> s[j] != ' '
  {
    var k := LastBlank(s, width);
    if k == 0 then width else k
  }

  /** The pieces `wrapLine` writes for `rem`, one per output line. */
  function Chunks(rem: string, width: nat): seq<string>
    requires width > 0
    decreases |rem|
  {
    if rem == [] then []
    else if |rem| <= width then [rem]
    else
      var b := BreakPoint(rem, width);
      [rem[..b]] + Chunks(TrimLeftBlanks(rem[b..]), width)
  }

  /** The pieces laid end to end. */
  function Flatten(cs: seq<string>): string
  {
    if cs == [] then "" else cs[0] + Flatten(cs[1..])
  }

  /** The characters of `s` that are not blanks, in order. */
  function NonBlanks(s: string): string
  {
    if s == [] then "" else (if s[0] == ' ' then "" else [s[0]]) + NonBlanks(s[1..])
  }

  lemma {:induction false} NonBlanksConcat(a: string, b: string)
    ensures NonBlanks(a + b) == NonBlanks(a) + NonBlanks(b)
    decreases |a|
  {
    if a != [] {
      assert (a + b)[1..] == a[1..] + b;
      NonBlanksConcat(a[1..], b);
    } else {
      assert a + b == b;
    }
  }

  lemma {:induction false} NonBlanksOfBlanks(s: string)
    requires AllBlank(s)
    ensures NonBlanks(s) == ""
    decreases |s|
  {
    if s != [] {
      NonBlanksOfBlanks(s[1..]);
    }
  }

  /** Every piece is a non-empty line of at most `width` characters. */
  lemma {:induction false} ChunksBounded(rem: string, width: nat)
    requires width > 0
    ensures forall i :: 0 <= i < |Chunks(rem, width)| ==> 0 < |Chunks(rem, width)[i]| <= width
    decreases |rem|
  {
    if |rem| > width {
      var b := BreakPoint(rem, width);
      var t := TrimLeftBlanks(rem[b..]);
      ChunksBounded(t, width);
      assert Chunks(rem, width) == [rem[..b]] + Chunks(t, width);
    }
  }

  lemma SplitAt(s: string, i: nat, j: nat)
    requires i <= j <= |s|
    ensures s == s[..i] + (s[i..][..j - i] + s[j..]) && s[i..][j - i..] == s[j..]
  {
    assert s[i..] == s[i..][..j - i] + s[j..];
  }

  lemma FlattenCons(c: string, cs: seq<string>)
    ensures Flatten([c] + cs) == c + Flatten(cs)
  {
    assert ([c] + cs)[1..] == cs;
  }

  /** Replacing blanks and what follows them by anything with the same
      non-blank characters keeps the non-blank characters. */
  lemma DropBlanks(head: string, gap: string, t: string, f: string)
    requires AllBlank(gap) && NonBlanks(f) == NonBlanks(t)
    ensures NonBlanks(head + f) == NonBlanks(head + (gap + t))
  {
    NonBlanksConcat(head, f);
    NonBlanksOfBlanks(gap);
    NonBlanksConcat(gap, t);
    assert NonBlanks(gap) + NonBlanks(t) == NonBlanks(t);
    NonBlanksConcat(head, gap + t);
  }

  /** Wrapping loses nothing but blanks: the pieces together hold the
      non-blank characters of the value, in their order. */
  lemma {:induction false} ChunksKeepText(rem: string, width: nat)
    requires width > 0
    ensures NonBlanks(Flatten(Chunks(rem, width))) == NonBlanks(rem)
    decreases |rem|
  {
    if rem == [] {
    } else if |rem| <= width {
      FlattenCons(rem, []);
      assert rem + "" == rem;
    } else {
      var b := BreakPoint(rem, width);
      var tail := rem[b..];
      var t := TrimLeftBlanks(tail);
      ChunksKeepText(t, width);
      FlattenCons(rem[..b], Chunks(t, width));
      var gap := tail[..|tail| - |t|];
      SplitAt(rem, b, |rem| - |t|);
      DropBlanks(rem[..b], gap, t, Flatten(Chunks(t, width)));
    }
  }

  /** When `wrapLine` wraps rather than returning the line unchanged. */
  predicate Wraps(line: string, value: string, prefixLen: nat, kind: Kind, width: int)
  {
    && width > 0 && |line| > width
    && kind == String && |value| >= 50
    && width - prefixLen - 4 >= 20
    && Index(line, value) != -1
  }

  /** The text `wrapLine` returns when it wraps: what stands before the
      value, then the pieces of the value, each one after the first on a
      new line indented by `prefixLen` blanks. */
  function Wrapped(line: string, value: string, prefixLen: nat, width: int): string
    requires width - prefixLen - 4 >= 20
    requires 0 <= Index(line, value) <= |line|
  {
    line[..Index(line, value)]
      + Join(Chunks(value, width - prefixLen - 4), "\n" + Repeat(" ", prefixLen))
  }

  /** The break point search of `wrapLine`: scan back from `width` to the
      nearest blank, and cut hard at `width` when the scan reaches 0. */
  method FindBreak(remaining: string, width: nat) returns (breakAt: nat)
    requires 0 < width < |remaining|
    ensures breakAt == BreakPoint(remaining, width)
  {
    breakAt := width;
    while breakAt > 0 && remaining[breakAt] != ' '
      invariant 0 <= breakAt <= width
      invariant forall j :: breakAt < j <= width ==> remaining[j] != ' '
      decreases breakAt
    {
      breakAt := breakAt - 1;
    }
    LastBlankUnique(remaining, width, breakAt);
    if breakAt == 0 {
      breakAt := width;
    }
  }

  lemma JoinStep(done: seq<string>, c: string, sep: string)
    ensures Join(done + [c], sep) == Join(done, sep) + (if done == [] then "" else sep) + c
  {
    assert (done + [c])[..|done|] == done;
  }

  /** One turn of the loop of `wrapLine`: the piece written next is the
      first of the pieces still to come, written after a line break unless
      it is the first. */
  lemma WrapTurn(all: seq<string>, done: seq<string>, rem: string, width: nat,
                 piece: string, rest: string, prefix: string, sep: string,
                 before: string, result: string)
    requires width > 0 && rem != []
    requires all == done + Chunks(rem, width)
    requires before == prefix + Join(done, sep)
    requires |rem| <= width ==> piece == rem && rest == ""
    requires |rem| > width ==>
      var b := BreakPoint(rem, width);
      piece == rem[..b] && rest == TrimLeftBlanks(rem[b..])
    requires result == before + (if done == [] then "" else sep) + piece
    ensures all == (done + [piece]) + Chunks(rest, width)
    ensures rest == "" ==> all == done + [piece]
    ensures result == prefix + Join(done + [piece], sep)
  {
    JoinStep(done, piece, sep);
    var gap := if done == [] then "" else sep;
    AppendAssoc(prefix, Join(done, sep), gap);
    AppendAssoc(prefix, Join(done, sep) + gap, piece);
    ChunksHead(rem, width, piece, rest);
    AppendAssoc(done, [piece], Chunks(rest, width));
    if rest == "" {
      assert Chunks(rest, width) == [];
      assert (done + [piece]) + [] == done + [piece];
    }
  }

  lemma ChunksHead(rem: string, width: nat, piece: string, rest: string)
    requires width > 0 && rem != []
    requires |rem| <= width ==> piece == rem && rest == ""
    requires |rem| > width ==>
      var b := BreakPoint(rem, width);
      piece == rem[..b] && rest == TrimLeftBlanks(rem[b..])
    ensures Chunks(rem, width) == [piece] + Chunks(rest, width)
  {
    if |rem| <= width {
      assert Chunks(rest, width) == [];
    }
  }

  /** wrapLine: the line unchanged when it fits, is not a long string value
      or leaves too little room; otherwise the wrapped value after the text
      that precedes it. */
  method WrapLine(line: string, value: string, prefixLen: nat, kind: Kind, width: int)
    returns (out: string)
    ensures !Wraps(line, value, prefixLen, kind, width) ==> out == line
    ensures Wraps(line, value, prefixLen, kind, width) ==> out == Wrapped(line, value, prefixLen, width)
  {
    if width <= 0 || |line| <= width {
      return line;
    }
    if kind != String || |value| < 50 {
      return line;
    }
    var availableWidth := width - prefixLen - 4;
    if availableWidth < 20 {
      return line;
    }
    var valueStart := Index(line, value);
    if valueStart == -1 {
      return line;
    }
    var prefix := line[..valueStart];
    var wrapIndent := Repeat(" ", prefixLen);
    out := WrapValue(prefix, value, availableWidth, wrapIndent);
    WrappedIs(line, value, prefixLen, width, prefix, wrapIndent, out);
  }

  lemma WrappedIs(line: string, value: string, prefixLen: nat, width: int, prefix: string, wrapIndent: string, out: string)
    requires width - prefixLen - 4 >= 20
    requires 0 <= Index(line, value) <= |line|
    requires prefix == line[..Index(line, value)] && wrapIndent == Repeat(" ", prefixLen)
    requires out == prefix + Join(Chunks(value, width - prefixLen - 4), "\n" + wrapIndent)
    ensures out == Wrapped(line, value, prefixLen, width)
  {
  }

  /** The loop of `wrapLine` that writes the pieces of `value` after
      `prefix`, starting a new line indented by `wrapIndent` before each
      piece but the first. */
  method WrapValue(prefix: string, value: string, availableWidth: nat, wrapIndent: string)
    returns (result: string)
    requires availableWidth > 0
    ensures result == prefix + Join(Chunks(value, availableWidth), "\n" + wrapIndent)
  {
    ghost var sep := "\n" + wrapIndent;
    result := prefix;
    var remaining := value;
    var firstLine := true;
    ghost var done: seq<string> := [];
    while |remaining| > 0
      invariant Chunks(value, availableWidth) == done + Chunks(remaining, availableWidth)
      invariant result == prefix + Join(done, sep)
      invariant firstLine <==> done == []
      decreases |remaining|
    {
      ghost var before := result;
      if !firstLine {
        result := result + "\n";
        result := result + wrapIndent;
        AppendAssoc(before, "\n", wrapIndent);
      }
      if |remaining| <= availableWidth {
        result := result + remaining;
        WrapTurn(Chunks(value, availableWidth), done, remaining, availableWidth, remaining, "", prefix, sep, before, result);
        done := done + [remaining];
        break;
      }
      var breakAt := FindBreak(remaining, availableWidth);
      ghost var rem0 := remaining;
      result := result + remaining[..breakAt];
      remaining := TrimLeftBlanks(remaining[breakAt..]);
      WrapTurn(Chunks(value, availableWidth), done, rem0, availableWidth, rem0[..breakAt], remaining, prefix, sep, before, result);
      done := done + [rem0[..breakAt]];
      firstLine := false;
    }
    if remaining == [] {
      assert Chunks(remaining, availableWidth) == [];
      assert done + [] == done;
    }
  }
}
