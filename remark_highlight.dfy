/**
 * The `remarkHighlight` plugin: every `text` node of the markdown syntax tree
 * whose value contains `??inner??` is replaced, in its parent's child list, by
 * the text before each match, an `html` node with the highlight span, and the
 * text after the last match; empty text pieces are not emitted.
 *
 * The tree is rebuilt rather than mutated in place: `TransformChildren` is the
 * parent's child list after the visit, and `VisitChildren` reaches it by the
 * same splice the plugin performs.
 */
module RemarkHighlight {
  import opened HighlightMatch
  import opened HighlightSpan
  import opened Wrappers

  /** A node's `type`: `text`, `html`, or any other type the parser emits. */
  datatype Kind = TextKind | HtmlKind | OtherKind(name: string)

  /** A syntax-tree node: its `type`, its `value` (for literals) and its
      `children` (empty when the node has none). */
  datatype Node = Node(kind: Kind, value: string, children: seq<Node>)

  function TextNode(s: string): Node {
    Node(TextKind, s, [])
  }

  function HtmlNode(v: Variant, inner: string): Node {
    Node(HtmlKind, SpanHtml(v, inner), [])
  }

  predicate IsText(n: Node) {
    n.kind == TextKind
  }

  /** The nodes pushed onto `newNodes` for the matches `ms` once `lastIndex`
      has reached `last`. */
  function Pieces(v: Variant, s: string, ms: seq<Match>, last: int): (r: seq<Node>)
    requires Chain(s, ms, last)
    ensures |ms| <= |r| <= 2 * |ms| + 1
    ensures ms != [] ==> r != []
    decreases |ms|
  {
    if ms == [] then
      if last < |s| then [TextNode(s[last..])] else []
    else
      var m := ms[0];
      (if m.start > last then [TextNode(s[last..m.start])] else [])
      + [HtmlNode(v, Capture(s, m))]
      + Pieces(v, s, ms[1..], m.end)
  }

  /** `newNodes` for a text value: empty when the regex finds no match,
      otherwise at least one node per match and at most one text piece
      between, before and after them. */
  function Split(v: Variant, s: string): (r: seq<Node>)
    ensures r == [] <==> AllMatches(s) == []
    ensures |AllMatches(s)| <= |r| <= 2 * |AllMatches(s)| + 1
  {
    var ms := AllMatches(s);
    MatchesFromIsScan(s, 0);
    if ms == [] then [] else Pieces(v, s, ms, 0)
  }

  /** The source text a piece stands for: a text node's value, and
      `??inner??` for a highlight span. */
  function Restore(v: Variant, n: Node): string {
    if n.kind == HtmlKind then
      match SpanInner(v, n.value)
      case Some(inner) => "??" + inner + "??"
      case None => n.value
    else if IsText(n) then n.value
    else ""
  }

  /** `Restore` for one variant, as a function value. */
  function Restorer(v: Variant): Node -> string {
    n => Restore(v, n)
  }

  /** The pieces' source texts, concatenated in order. */
  function Join<T>(f: T -> string, xs: seq<T>): string
    decreases |xs|
  {
    if xs == [] then "" else f(xs[0]) + Join(f, xs[1..])
  }

  function Unsplit(v: Variant, ns: seq<Node>): string {
    Join(Restorer(v), ns)
  }

  lemma {:induction false} JoinConcat<T>(f: T -> string, a: seq<T>, b: seq<T>)
    ensures Join(f, a + b) == Join(f, a) + Join(f, b)
    decreases |a|
  {
    if a == [] {
      assert a + b == b;
    } else {
      assert (a + b)[1..] == a[1..] + b;
      JoinConcat(f, a[1..], b);
    }
  }

  lemma UnsplitConcat(v: Variant, a: seq<Node>, b: seq<Node>)
    ensures Unsplit(v, a + b) == Unsplit(v, a) + Unsplit(v, b)
  {
    JoinConcat(Restorer(v), a, b);
  }

  /** A single piece restores to its own source text. */
  lemma UnsplitOne(v: Variant, n: Node)
    ensures Unsplit(v, [n]) == Restore(v, n)
  {
    var f := Restorer(v);
    assert [n][1..] == [];
    assert Join(f, [n]) == f(n) + Join(f, []);
    assert f(n) == Restore(v, n);
  }

  /** The captured texts of a chain of matches, in order. */
  function Captures(s: string, ms: seq<Match>, last: int): (r: seq<string>)
    requires Chain(s, ms, last)
    ensures |r| == |ms|
    decreases |ms|
  {
    if ms == [] then [] else [Capture(s, ms[0])] + Captures(s, ms[1..], ms[0].end)
  }

  /** The values of the html nodes, in order. */
  function HtmlValues(ns: seq<Node>): seq<string>
    decreases |ns|
  {
    if ns == [] then []
    else (if ns[0].kind == HtmlKind then [ns[0].value] else []) + HtmlValues(ns[1..])
  }

  function Spans(v: Variant, caps: seq<string>): (r: seq<string>)
    ensures |r| == |caps|
    ensures forall k :: 0 <= k < |caps| ==> r[k] == SpanHtml(v, caps[k])
    decreases |caps|
  {
    if caps == [] then [] else [SpanHtml(v, caps[0])] + Spans(v, caps[1..])
  }

  lemma {:induction false} HtmlValuesConcat(a: seq<Node>, b: seq<Node>)
    ensures HtmlValues(a + b) == HtmlValues(a) + HtmlValues(b)
    decreases |a|
  {
    if a == [] {
      assert a + b == b;
    } else {
      assert (a + b)[1..] == a[1..] + b;
      HtmlValuesConcat(a[1..], b);
    }
  }

  /** Output shape: only text and html leaves, no empty text node, never two
      text nodes side by side. */
  predicate WellShaped(ns: seq<Node>) {
    && (forall k :: 0 <= k < |ns| ==> (IsText(ns[k]) || ns[k].kind == HtmlKind) && ns[k].children == [])
    && (forall k :: 0 <= k < |ns| && IsText(ns[k]) ==> ns[k].value != "")
    && (forall k :: 0 <= k < |ns| - 1 ==> !(IsText(ns[k]) && IsText(ns[k + 1])))
  }

  /** Every text piece is clean: it holds no match of its own. */
  predicate CleanText(ns: seq<Node>) {
    forall k :: 0 <= k < |ns| && IsText(ns[k]) ==> AllMatches(ns[k].value) == []
  }

  /** A prefix s[last..b] of a region with no match start holds no match. */
  lemma GapIsClean(s: string, last: int, b: int)
    requires 0 <= last <= b <= |s|
    requires forall i, e :: last <= i < b ==> !IsMatch(s, i, e)
    ensures AllMatches(s[last..b]) == []
  {
    var p := s[last..b];
    NoMatchesIff(p);
    forall i, e | IsMatch(p, i, e) ensures false {
      MatchInSlice(s, last, b, i, e);
    }
  }

  /** A chain's first piece: the text before the first match, if any. */
  function Before(s: string, m: Match, last: int): (r: seq<Node>)
    requires 0 <= last <= m.start <= |s|
    ensures |r| <= 1
  {
    if m.start > last then [TextNode(s[last..m.start])] else []
  }

  lemma PiecesUnfold(v: Variant, s: string, ms: seq<Match>, last: int)
    requires Chain(s, ms, last) && ms != []
    ensures Pieces(v, s, ms, last)
      == Before(s, ms[0], last) + [HtmlNode(v, Capture(s, ms[0]))] + Pieces(v, s, ms[1..], ms[0].end)
  {
  }

  /** Restoring the pieces gives back the text from `last` on. */
  lemma {:induction false} PiecesRestore(v: Variant, s: string, ms: seq<Match>, last: int)
    requires Chain(s, ms, last)
    ensures Unsplit(v, Pieces(v, s, ms, last)) == s[last..]
    decreases |ms|
  {
    if ms == [] {
      if last < |s| {
        TextPieceRestores(v, s[last..]);
      }
    } else {
      var m := ms[0];
      var before := Before(s, m, last);
      var h := HtmlNode(v, Capture(s, m));
      var rest := Pieces(v, s, ms[1..], m.end);
      PiecesUnfold(v, s, ms, last);
      PiecesRestore(v, s, ms[1..], m.end);
      UnsplitConcat(v, before + [h], rest);
      UnsplitConcat(v, before, [h]);
      BeforeRestores(v, s, m, last);
      HtmlPieceRestores(v, s, m);
      Join3(s, last, m.start, m.end, Unsplit(v, before), Unsplit(v, [h]), Unsplit(v, rest));
    }
  }

  lemma Join3(s: string, i: int, j: int, k: int, a: string, b: string, c: string)
    requires 0 <= i <= j <= k <= |s|
    requires a == s[i..j] && b == s[j..k] && c == s[k..]
    ensures a + b + c == s[i..]
  {
    assert s[i..] == s[i..j] + s[j..k] + s[k..];
  }

  lemma BeforeRestores(v: Variant, s: string, m: Match, last: int)
    requires 0 <= last <= m.start <= |s|
    ensures Unsplit(v, Before(s, m, last)) == s[last..m.start]
  {
    if m.start > last {
      TextPieceRestores(v, s[last..m.start]);
    }
  }

  /** The span of a match restores to the matched text `??inner??`. */
  lemma HtmlPieceRestores(v: Variant, s: string, m: Match)
    requires IsMatch(s, m.start, m.end)
    ensures Unsplit(v, [HtmlNode(v, Capture(s, m))]) == s[m.start..m.end]
  {
    var cap := Capture(s, m);
    SpanRoundTrip(v, cap);
    UnsplitOne(v, HtmlNode(v, cap));
  }

  /** The html pieces carry the captures of the matches, in order. */
  lemma {:induction false} PiecesCaptures(v: Variant, s: string, ms: seq<Match>, last: int)
    requires Chain(s, ms, last)
    ensures HtmlValues(Pieces(v, s, ms, last)) == Spans(v, Captures(s, ms, last))
    decreases |ms|
  {
    if ms == [] {
      if last < |s| {
        assert [TextNode(s[last..])][1..] == [];
      }
    } else {
      var m := ms[0];
      var before := Before(s, m, last);
      var h := HtmlNode(v, Capture(s, m));
      var rest := Pieces(v, s, ms[1..], m.end);
      PiecesUnfold(v, s, ms, last);
      PiecesCaptures(v, s, ms[1..], m.end);
      HtmlValuesConcat(before + [h], rest);
      HtmlValuesConcat(before, [h]);
      if before != [] {
        assert before[1..] == [];
      }
      assert [h][1..] == [];
      assert HtmlValues(before) == [];
    }
  }

  /** The pieces are text and html leaves, no text piece is empty and no two
      text pieces are adjacent. */
  lemma {:induction false} PiecesShape(v: Variant, s: string, ms: seq<Match>, last: int)
    requires Chain(s, ms, last)
    ensures WellShaped(Pieces(v, s, ms, last))
    ensures ms != [] ==> Pieces(v, s, ms, last) != []
    decreases |ms|
  {
    if ms != [] {
      var m := ms[0];
      var before := Before(s, m, last);
      var h := HtmlNode(v, Capture(s, m));
      var rest := Pieces(v, s, ms[1..], m.end);
      PiecesUnfold(v, s, ms, last);
      PiecesShape(v, s, ms[1..], m.end);
      var l := before + [h];
      var r := l + rest;
      ShapeJoin(l, rest, h);
    }
  }

  /** Joining a list that ends in a span with a well-shaped list. */
  lemma ShapeJoin(l: seq<Node>, rest: seq<Node>, h: Node)
    requires |l| <= 2 && l != [] && l[|l| - 1] == h && h.kind == HtmlKind && h.children == []
    requires |l| == 2 ==> IsText(l[0]) && l[0].value != "" && l[0].children == []
    requires WellShaped(rest)
    ensures WellShaped(l + rest)
  {
    var r := l + rest;
    forall k | 0 <= k < |r| ensures (IsText(r[k]) || r[k].kind == HtmlKind) && r[k].children == []
      && (IsText(r[k]) ==> r[k].value != "")
    {
      if k >= |l| { assert r[k] == rest[k - |l|]; }
    }
    forall k | 0 <= k < |r| - 1 ensures !(IsText(r[k]) && IsText(r[k + 1])) {
      if k + 1 < |l| {
        assert r[k + 1] == h;
      } else if k + 1 == |l| {
        assert r[k] == h;
      } else {
        assert r[k] == rest[k - |l|] && r[k + 1] == rest[k + 1 - |l|];
      }
    }
  }

  /** No match starts between `from` and the first match of a scan. */
  lemma NoMatchBeforeFirst(s: string, ms: seq<Match>, from: int)
    requires IsScan(s, ms, from)
    ensures forall i, e :: from <= i && (ms == [] || i < ms[0].start) ==> !IsMatch(s, i, e)
  {
    if ms == [] {
      EmptyScan(s, ms, from);
    } else {
      forall i, e | from <= i < ms[0].start && IsMatch(s, i, e) ensures false {
        FirstIsLeftmost(s, ms, from, i, e);
      }
    }
  }

  /** Every gap a chain leaves (before each match, and after the last) holds
      no match. */
  ghost predicate GapsClean(s: string, ms: seq<Match>, last: int)
    requires Chain(s, ms, last)
    decreases |ms|
  {
    if ms == [] then AllMatches(s[last..]) == []
    else AllMatches(s[last..ms[0].start]) == [] && GapsClean(s, ms[1..], ms[0].end)
  }

  /** A leftmost scan leaves only clean gaps. */
  lemma {:induction false} ScanGapsClean(s: string, ms: seq<Match>, last: int)
    requires IsScan(s, ms, last)
    ensures GapsClean(s, ms, last)
    decreases |ms|
  {
    NoMatchBeforeFirst(s, ms, last);
    if ms == [] {
      GapIsClean(s, last, |s|);
      assert s[last..|s|] == s[last..];
    } else {
      GapIsClean(s, last, ms[0].start);
      ScanTail(s, ms, last);
      ScanGapsClean(s, ms[1..], ms[0].end);
    }
  }

  /** Every text piece of a scan is free of matches. */
  lemma {:induction false} PiecesClean(v: Variant, s: string, ms: seq<Match>, last: int)
    requires Chain(s, ms, last) && GapsClean(s, ms, last)
    ensures CleanText(Pieces(v, s, ms, last))
    decreases |ms|
  {
    if ms != [] {
      var m := ms[0];
      PiecesUnfold(v, s, ms, last);
      PiecesClean(v, s, ms[1..], m.end);
      CleanJoin(Before(s, m, last), HtmlNode(v, Capture(s, m)), Pieces(v, s, ms[1..], m.end));
    }
  }

  lemma CleanJoin(before: seq<Node>, h: Node, rest: seq<Node>)
    requires CleanText(before) && !IsText(h) && CleanText(rest)
    ensures CleanText(before + [h] + rest)
  {
    var l := before + [h];
    var r := l + rest;
    forall k | 0 <= k < |r| && IsText(r[k]) ensures AllMatches(r[k].value) == [] {
      if k >= |l| {
        assert r[k] == rest[k - |l|];
      } else {
        assert r[k] == before[k];
      }
    }
  }

  /** A text piece restores to its own value. */
  lemma TextPieceRestores(v: Variant, s: string)
    ensures Unsplit(v, [TextNode(s)]) == s
  {
    UnsplitOne(v, TextNode(s));
  }

  /** Splitting a text value (the properties the plugin's loop promises):
      - a value with no `??inner??` match yields no replacement at all;
      - otherwise, restoring each span to `??inner??` gives back the value,
        no empty text node is emitted, text and spans alternate, the spans
        carry the captures of the matches in order, and every text piece is
        free of matches. */
  lemma SplitSpec(v: Variant, s: string)
    ensures Split(v, s) == [] <==> AllMatches(s) == []
    ensures AllMatches(s) != [] ==> Unsplit(v, Split(v, s)) == s
    ensures WellShaped(Split(v, s)) && CleanText(Split(v, s))
    ensures AllMatches(s) != [] ==>
      HtmlValues(Split(v, s)) == Spans(v, Captures(s, AllMatches(s), 0))
  {
    MatchesFromIsScan(s, 0);
    if AllMatches(s) != [] {
      PiecesRestore(v, s, AllMatches(s), 0);
      PiecesShape(v, s, AllMatches(s), 0);
      PiecesCaptures(v, s, AllMatches(s), 0);
      ScanGapsClean(s, AllMatches(s), 0);
      PiecesClean(v, s, AllMatches(s), 0);
    }
  }

  // ---------------------------------------------------------------------
  // The tree walk

  /** What replaces one child in its parent's list: the split pieces of a
      text node with matches, otherwise the node with its children visited. */
  function Expand(v: Variant, c: Node): (r: seq<Node>)
    ensures r != []
    ensures !IsText(c) ==> |r| == 1 && r[0].kind == c.kind && r[0].value == c.value
    decreases c, 1
  {
    if IsText(c) && Split(v, c.value) != [] then Split(v, c.value)
    else [Node(c.kind, c.value, TransformChildren(v, c.children))]
  }

  /** A parent's child list after the visit. */
  function TransformChildren(v: Variant, cs: seq<Node>): (r: seq<Node>)
    ensures |r| >= |cs|
    decreases cs, 0
  {
    if cs == [] then [] else TransformChildren(v, cs[..|cs| - 1]) + Expand(v, cs[|cs| - 1])
  }

  /** The whole plugin: the root has no parent, so it is never replaced
      itself; only its descendants are. */
  function TransformTree(v: Variant, root: Node): (r: Node)
    ensures r.kind == root.kind && r.value == root.value
    ensures |r.children| >= |root.children|
  {
    Node(root.kind, root.value, TransformChildren(v, root.children))
  }

  /** `parent.children.splice(index, 1, ...newNodes)`. */
  function Splice(cs: seq<Node>, i: nat, newNodes: seq<Node>): (r: seq<Node>)
    requires i < |cs|
    ensures |r| == |cs| - 1 + |newNodes|
    ensures r[..i] == cs[..i]
    ensures r[i..i + |newNodes|] == newNodes
    ensures r[i + |newNodes|..] == cs[i + 1..]
  {
    cs[..i] + newNodes + cs[i + 1..]
  }

  /** A node none of whose text nodes (this one or below) holds a match. */
  predicate Clean(n: Node)
    decreases n
  {
    && (IsText(n) ==> AllMatches(n.value) == [])
    && forall k :: 0 <= k < |n.children| ==> Clean(n.children[k])
  }

  predicate AllClean(cs: seq<Node>) {
    forall k :: 0 <= k < |cs| ==> Clean(cs[k])
  }

  lemma AllCleanConcat(a: seq<Node>, b: seq<Node>)
    ensures AllClean(a + b) <==> AllClean(a) && AllClean(b)
  {
    if AllClean(a) && AllClean(b) {
      forall k | 0 <= k < |a + b| ensures Clean((a + b)[k]) {
        if k >= |a| { assert (a + b)[k] == b[k - |a|]; }
      }
    }
    if AllClean(a + b) {
      forall k | 0 <= k < |b| ensures Clean(b[k]) {
        assert (a + b)[k + |a|] == b[k];
      }
      forall k | 0 <= k < |a| ensures Clean(a[k]) {
        assert (a + b)[k] == a[k];
      }
    }
  }

  /** After the transform no text node below the root holds a match. */
  lemma {:induction false} TransformChildrenClean(v: Variant, cs: seq<Node>)
    ensures AllClean(TransformChildren(v, cs))
    decreases cs, 0
  {
    if cs != [] {
      TransformChildrenClean(v, cs[..|cs| - 1]);
      ExpandClean(v, cs[|cs| - 1]);
      AllCleanConcat(TransformChildren(v, cs[..|cs| - 1]), Expand(v, cs[|cs| - 1]));
    }
  }

  lemma {:induction false} ExpandClean(v: Variant, c: Node)
    ensures AllClean(Expand(v, c))
    decreases c, 1
  {
    SplitSpec(v, c.value);
    if IsText(c) && Split(v, c.value) != [] {
      var r := Split(v, c.value);
      forall k | 0 <= k < |r| ensures Clean(r[k]) {
        assert r[k].children == [];
      }
    } else {
      TransformChildrenClean(v, c.children);
    }
  }

  /** On a clean child list the transform changes nothing. */
  lemma {:induction false} TransformChildrenIdentity(v: Variant, cs: seq<Node>)
    requires AllClean(cs)
    ensures TransformChildren(v, cs) == cs
    decreases cs, 0
  {
    if cs != [] {
      var init, last := cs[..|cs| - 1], cs[|cs| - 1];
      assert AllClean(init) by {
        forall k | 0 <= k < |init| ensures Clean(init[k]) { assert init[k] == cs[k]; }
      }
      TransformChildrenIdentity(v, init);
      assert Clean(last);
      assert AllClean(last.children);
      TransformChildrenIdentity(v, last.children);
      SplitSpec(v, last.value);
      assert Expand(v, last) == [last];
      assert cs == init + [last];
    }
  }

  /** A text node with no match is left unchanged (its children are still
      visited); a node that is not text is never rewritten itself. */
  lemma ExpandKeepsNode(v: Variant, c: Node)
    requires !IsText(c) || AllMatches(c.value) == []
    ensures Expand(v, c) == [Node(c.kind, c.value, TransformChildren(v, c.children))]
  {
    SplitSpec(v, c.value);
  }

  /** Running the plugin a second time on its own output changes nothing
      below the root. */
  lemma TransformIdempotent(v: Variant, root: Node)
    ensures TransformTree(v, TransformTree(v, root)) == TransformTree(v, root)
  {
    TransformChildrenClean(v, root.children);
    TransformChildrenIdentity(v, TransformChildren(v, root.children));
  }

  /** The root has no parent, so even a root text node with a match keeps
      its value. */
  lemma RootTextKept(v: Variant, s: string)
    ensures TransformTree(v, TextNode(s)) == TextNode(s)
  {
  }

  // ---------------------------------------------------------------------
  // No character lost or duplicated, over the whole tree

  /** Document text of a node: literals for text, `??inner??` for highlight
      spans, and the text of the children for every other node. */
  function DocText(v: Variant, n: Node): string
    decreases n, 1
  {
    if IsText(n) || n.kind == HtmlKind then Restore(v, n) else ChildrenText(v, n.children)
  }

  function ChildrenText(v: Variant, cs: seq<Node>): string
    decreases cs, 0
  {
    if cs == [] then "" else ChildrenText(v, cs[..|cs| - 1]) + DocText(v, cs[|cs| - 1])
  }

  lemma {:induction false} ChildrenTextConcat(v: Variant, a: seq<Node>, b: seq<Node>)
    ensures ChildrenText(v, a + b) == ChildrenText(v, a) + ChildrenText(v, b)
    decreases |b|
  {
    if b == [] {
      assert a + b == a;
    } else {
      var b0 := b[..|b| - 1];
      assert (a + b)[..|a + b| - 1] == a + b0;
      assert (a + b)[|a + b| - 1] == b[|b| - 1];
      ChildrenTextConcat(v, a, b0);
    }
  }

  /** For leaf pieces the document text is the restored text. */
  lemma {:induction false} LeafText(v: Variant, ns: seq<Node>)
    requires forall k :: 0 <= k < |ns| ==> IsText(ns[k]) || ns[k].kind == HtmlKind
    ensures ChildrenText(v, ns) == Unsplit(v, ns)
    decreases |ns|
  {
    if ns != [] {
      var init := ns[..|ns| - 1];
      LeafText(v, init);
      UnsplitConcat(v, init, [ns[|ns| - 1]]);
      UnsplitOne(v, ns[|ns| - 1]);
      assert init + [ns[|ns| - 1]] == ns;
    }
  }

  lemma {:induction false} TransformChildrenText(v: Variant, cs: seq<Node>)
    ensures ChildrenText(v, TransformChildren(v, cs)) == ChildrenText(v, cs)
    decreases cs, 0
  {
    if cs != [] {
      var init, c := cs[..|cs| - 1], cs[|cs| - 1];
      TransformChildrenText(v, init);
      ChildrenTextConcat(v, TransformChildren(v, init), Expand(v, c));
      ExpandText(v, c);
    }
  }

  lemma {:induction false} ExpandText(v: Variant, c: Node)
    ensures ChildrenText(v, Expand(v, c)) == DocText(v, c)
    decreases c, 1
  {
    SplitSpec(v, c.value);
    if IsText(c) && Split(v, c.value) != [] {
      LeafText(v, Split(v, c.value));
    } else {
      var n := Node(c.kind, c.value, TransformChildren(v, c.children));
      assert [n][..0] == [];
      TransformChildrenText(v, c.children);
    }
  }

  /** The transform loses and duplicates no character of the document. */
  lemma TransformPreservesText(v: Variant, root: Node)
    ensures DocText(v, TransformTree(v, root)) == DocText(v, root)
  {
    TransformChildrenText(v, root.children);
  }

  // ---------------------------------------------------------------------
  // The plugin's own loops

  /** The body of `visit` for one text value: scan with `matchAll`; with no
      match nothing is replaced, otherwise the pieces are pushed. */
  method HighlightText(v: Variant, text: string) returns (newNodes: seq<Node>)
    ensures newNodes == Split(v, text)
    ensures newNodes == [] <==> AllMatches(text) == []
    ensures newNodes != [] ==> Unsplit(v, newNodes) == text
    ensures WellShaped(newNodes) && CleanText(newNodes)
  {
    var matches := AllMatches(text);
    newNodes := [];
    if |matches| > 0 {
      newNodes := PushPieces(v, text, matches);
    }
    SplitSpec(v, text);
  }

  /** The push loop: the text before each match, the span, and the trailing
      text; `lastIndex` moves to the end of each match. */
  method PushPieces(v: Variant, text: string, matches: seq<Match>) returns (newNodes: seq<Node>)
    requires Chain(text, matches, 0)
    ensures newNodes == Pieces(v, text, matches, 0)
  {
    newNodes := [];
    var lastIndex := 0;
    var k := 0;
    while k < |matches|
      invariant 0 <= k <= |matches|
      invariant Chain(text, matches[k..], lastIndex)
      invariant newNodes + Pieces(v, text, matches[k..], lastIndex) == Pieces(v, text, matches, 0)
    {
      var m := matches[k];
      PiecesStep(v, text, matches, k, lastIndex);
      var pushed := PushMatch(v, text, m, lastIndex);
      Reassociate(newNodes, pushed, Pieces(v, text, matches[k + 1..], m.end));
      newNodes := newNodes + pushed;
      lastIndex := m.end;
      k := k + 1;
    }
    assert matches[k..] == [];
    if lastIndex < |text| {
      var remainingText := text[lastIndex..];
      if remainingText != [] {
        newNodes := newNodes + [TextNode(remainingText)];
      }
    }
  }

  /** What one turn of the loop pushes: the text between `lastIndex` and
      the match, unless it is empty, then the span of `match[1]`. */
  method PushMatch(v: Variant, text: string, m: Match, lastIndex: int) returns (pushed: seq<Node>)
    requires 0 <= lastIndex <= m.start && IsMatch(text, m.start, m.end)
    ensures pushed == Before(text, m, lastIndex) + [HtmlNode(v, Capture(text, m))]
  {
    var matchStart, matchEnd := m.start, m.end;
    pushed := [];
    if matchStart > lastIndex {
      var beforeText := text[lastIndex..matchStart];
      if beforeText != [] {
        pushed := [TextNode(beforeText)];
      }
    }
    var inner := text[matchStart + 2..matchEnd - 2];
    assert inner == Capture(text, m);
    pushed := pushed + [HtmlNode(v, inner)];
  }

  /** One turn of the push loop: the pieces of the remaining matches are the
      pieces of the next match followed by the pieces of the rest. */
  lemma PiecesStep(v: Variant, s: string, ms: seq<Match>, k: int, last: int)
    requires 0 <= k < |ms| && Chain(s, ms[k..], last)
    ensures last <= ms[k].start && IsMatch(s, ms[k].start, ms[k].end)
    ensures Chain(s, ms[k + 1..], ms[k].end)
    ensures Pieces(v, s, ms[k..], last)
      == Before(s, ms[k], last) + [HtmlNode(v, Capture(s, ms[k]))] + Pieces(v, s, ms[k + 1..], ms[k].end)
  {
    assert ms[k..][0] == ms[k] && ms[k..][1..] == ms[k + 1..];
    PiecesUnfold(v, s, ms[k..], last);
  }

  lemma Reassociate<T>(a: seq<T>, b: seq<T>, c: seq<T>)
    ensures a + b + c == a + (b + c)
  {
  }

  /** `node.children.forEach(child => visit(child, index, node))`, with the
      replacement spliced in at the child's index. The index then steps over
      the inserted pieces, which hold no match of their own; the source's
      `forEach` does not (see `VisitAsWritten` below). */
  method VisitChildren(v: Variant, children: seq<Node>) returns (kids: seq<Node>)
    ensures kids == TransformChildren(v, children)
    decreases children, 0
  {
    kids := children;
    var index := 0;
    var j := 0;
    while j < |children|
      invariant 0 <= j <= |children|
      invariant index == |TransformChildren(v, children[..j])|
      invariant kids == TransformChildren(v, children[..j]) + children[j..]
    {
      var replacement := VisitChild(v, children[j]);
      VisitStep(v, children, j, kids, index, replacement);
      kids := Splice(kids, index, replacement);
      index := index + |replacement|;
      j := j + 1;
    }
    assert children[..j] == children;
  }

  /** `visit` of one child: the pieces of a text node with a match, or the
      node itself with its own children visited. */
  method VisitChild(v: Variant, child: Node) returns (replacement: seq<Node>)
    ensures replacement == Expand(v, child)
    decreases child, 1
  {
    var newNodes := [];
    if IsText(child) {
      newNodes := HighlightText(v, child.value);
    }
    if newNodes != [] {
      replacement := newNodes;
    } else {
      var grandchildren := VisitChildren(v, child.children);
      replacement := [Node(child.kind, child.value, grandchildren)];
    }
  }

  /** One turn of the child loop: splicing the next child's replacement at
      the running index extends the visited prefix by one child. */
  lemma VisitStep(v: Variant, cs: seq<Node>, j: int, kids: seq<Node>, index: int, replacement: seq<Node>)
    requires 0 <= j < |cs| && replacement == Expand(v, cs[j])
    requires index == |TransformChildren(v, cs[..j])|
    requires kids == TransformChildren(v, cs[..j]) + cs[j..]
    ensures 0 <= index < |kids|
    ensures index + |replacement| == |TransformChildren(v, cs[..j + 1])|
    ensures Splice(kids, index, replacement) == TransformChildren(v, cs[..j + 1]) + cs[j + 1..]
  {
    var done := TransformChildren(v, cs[..j]);
    TransformChildrenStep(v, cs, j);
    SpliceAt(done, cs[j..], replacement);
    assert cs[j..][1..] == cs[j + 1..];
  }

  lemma TransformChildrenStep(v: Variant, cs: seq<Node>, j: int)
    requires 0 <= j < |cs|
    ensures TransformChildren(v, cs[..j + 1]) == TransformChildren(v, cs[..j]) + Expand(v, cs[j])
  {
    assert cs[..j + 1][..j] == cs[..j];
    assert cs[..j + 1][j] == cs[j];
  }

  /** Splicing at the end of the already visited prefix replaces the next
      unvisited child. */
  lemma SpliceAt(p: seq<Node>, q: seq<Node>, newNodes: seq<Node>)
    requires q != []
    ensures Splice(p + q, |p|, newNodes) == p + newNodes + q[1..]
  {
    assert (p + q)[..|p|] == p;
    assert (p + q)[|p| + 1..] == q[1..];
  }

  /** `remarkHighlight()(tree)`: visit from the root, which has no parent. */
  method Run(v: Variant, tree: Node) returns (result: Node)
    ensures result == TransformTree(v, tree)
    ensures result.kind == tree.kind && result.value == tree.value
    ensures DocText(v, result) == DocText(v, tree)
    ensures AllClean(result.children)
  {
    var kids := VisitChildren(v, tree.children);
    result := Node(tree.kind, tree.value, kids);
    TransformPreservesText(v, tree);
    TransformChildrenClean(v, tree.children);
  }

  // ---------------------------------------------------------------------
  // The child loop as the source writes it

  /** `node.children.forEach(...)` with `splice` inside the callback: the
      number of turns is fixed at the list's length before the first turn,
      while each split inserts its pieces in place, so the siblings after a
      split move back and the last turns land on inserted pieces instead.
      `ahead` holds the inserted pieces the index has not yet passed,
      `rest` the original children not yet reached, `turns` the turns left.
      Visiting an inserted piece changes nothing: a span is not text and
      has no children, and a text piece holds no match (SplitSpec). */
  function ForEachVisit(v: Variant, ahead: seq<Node>, rest: seq<Node>, turns: nat): (r: seq<Node>)
    ensures turns == 0 ==> r == ahead + rest
    ensures |r| >= |ahead| + |rest|
    decreases rest, 1, turns
  {
    if turns == 0 || (ahead == [] && rest == []) then ahead + rest
    else if ahead != [] then [ahead[0]] + ForEachVisit(v, ahead[1..], rest, turns - 1)
    else
      var rep := ExpandAsWritten(v, rest[0]);
      [rep[0]] + ForEachVisit(v, rep[1..], rest[1..], turns - 1)
  }

  /** `visit` of one child as written: the split pieces of a text node with
      a match, otherwise the node with its children visited by the loop above. */
  function ExpandAsWritten(v: Variant, c: Node): (r: seq<Node>)
    ensures r != []
    ensures !IsText(c) ==> |r| == 1 && r[0].kind == c.kind && r[0].value == c.value
    ensures IsText(c) && AllMatches(c.value) != [] ==> r == Expand(v, c)
    decreases c, 0, 0
  {
    if IsText(c) && Split(v, c.value) != [] then Split(v, c.value)
    else [Node(c.kind, c.value, VisitAsWritten(v, c.children))]
  }

  /** A parent's child list after the visit as written. */
  function VisitAsWritten(v: Variant, cs: seq<Node>): (r: seq<Node>)
    ensures |r| >= |cs|
    decreases cs, 2, 0
  {
    ForEachVisit(v, [], cs, |cs|)
  }

  lemma SplitOneMatch(v: Variant)
    ensures Split(v, "x ??a??") == [TextNode("x "), HtmlNode(v, "a")]
    ensures Split(v, "??b??") == [HtmlNode(v, "b")]
  {
    var s, t := "x ??a??", "??b??";
    assert RunEnd(s, 5) == 5;
    assert MatchAt(s, 2) == Some(7);
    assert MatchesFrom(s, 2) == [Match(2, 7)];
    assert MatchAt(s, 1) == None && MatchAt(s, 0) == None;
    assert AllMatches(s) == [Match(2, 7)];
    assert s[0..2] == "x " && s[4..5] == "a";
    assert RunEnd(t, 3) == 3;
    assert MatchAt(t, 0) == Some(5);
    assert AllMatches(t) == [Match(0, 5)];
    assert t[2..3] == "b";
  }

  /** The loop as written on two text siblings where the first splits in two. */
  lemma AsWrittenTwoSiblings(v: Variant)
    ensures VisitAsWritten(v, [TextNode("x ??a??"), TextNode("??b??")])
      == [TextNode("x "), HtmlNode(v, "a"), TextNode("??b??")]
  {
    var cs := [TextNode("x ??a??"), TextNode("??b??")];
    SplitOneMatch(v);
    var h := HtmlNode(v, "a");
    assert ExpandAsWritten(v, cs[0]) == [TextNode("x "), h];
    assert ForEachVisit(v, [], cs[1..], 0) == cs[1..];
    assert ForEachVisit(v, [h], cs[1..], 1) == [h] + cs[1..];
  }

  /** The rebuild on the same two siblings. */
  lemma RebuildTwoSiblings(v: Variant)
    ensures TransformChildren(v, [TextNode("x ??a??"), TextNode("??b??")])
      == [TextNode("x "), HtmlNode(v, "a"), HtmlNode(v, "b")]
  {
    var cs := [TextNode("x ??a??"), TextNode("??b??")];
    SplitOneMatch(v);
    assert cs[..1] == [cs[0]] && cs[..1][..0] == [];
    assert Expand(v, cs[0]) == [TextNode("x "), HtmlNode(v, "a")];
    assert Expand(v, cs[1]) == [HtmlNode(v, "b")];
    assert TransformChildren(v, cs[..1]) == [TextNode("x "), HtmlNode(v, "a")];
  }

  /** When a text child splits into more than one piece, the loop as written
      never reaches the last sibling: `"??b??"` keeps its delimiters, while
      the rebuild highlights it and leaves no match behind. */
  lemma ForEachSkipsLastSibling(v: Variant)
    ensures !AllClean(VisitAsWritten(v, [TextNode("x ??a??"), TextNode("??b??")]))
    ensures AllClean(TransformChildren(v, [TextNode("x ??a??"), TextNode("??b??")]))
    ensures VisitAsWritten(v, [TextNode("x ??a??"), TextNode("??b??")])
      != TransformChildren(v, [TextNode("x ??a??"), TextNode("??b??")])
  {
    var cs := [TextNode("x ??a??"), TextNode("??b??")];
    AsWrittenTwoSiblings(v);
    RebuildTwoSiblings(v);
    SplitOneMatch(v);
    var w := VisitAsWritten(v, cs);
    assert w[2] == TextNode("??b??");
    assert !Clean(w[2]);
    TransformChildrenClean(v, cs);
  }
}
