/**
 * What `BlockLayout` and `paint` promise, stated over the specification
 * functions of module Layout: how block children are stacked, what each
 * mode makes of the height, how greedy line breaking places a word, what
 * flushing a line draws, and the order in which boxes are painted.
 */
module LayoutProps {
  import opened Strings
  import opened Dom
  import opened Cascade
  import opened Fonts
  import opened Layout
  import opened Seqs

  // ---------------------------------------------------------------------
  // Block mode
  // ---------------------------------------------------------------------

  /** Each box's top edge is the bottom edge of the box before it. */
  predicate Stacked(bs: seq<Box>) {
    forall k | 1 <= k < |bs| :: bs[k].y == bs[k - 1].y + bs[k - 1].height
  }

  function Bottom(b: Box): real {
    b.y + b.height
  }

  /** The `k`-th box from child `i` on is child `i + k`'s, at the parent's x, with its own or the parent's width. */
  lemma {:induction false} ChildBoxAt(env: Env, p: Node, me: Frame, y: real, i: nat, k: nat)
    requires AllStyled(p)
    requires i + k < |Children(p)|
    ensures var r := ChildBoxes(env, p, me, y, i);
      r[k].node == Children(p)[i + k] && r[k].x == me.x && r[k].width == WidthOf(env, Children(p)[i + k], me)
    decreases k
  {
    var b := LayoutSpec(env, Children(p)[i], me, y);
    var rest := ChildBoxes(env, p, me, b.y + b.height, i + 1);
    var r := ChildBoxes(env, p, me, y, i);
    assert r == [b] + rest;
    if k > 0 {
      assert r[k] == rest[k - 1];
      ChildBoxAt(env, p, me, b.y + b.height, i + 1, k - 1);
    }
  }

  /** The first box from child `i` on has its top edge at `y`. */
  lemma FirstChildBoxTop(env: Env, p: Node, me: Frame, y: real, i: nat)
    requires AllStyled(p)
    requires i < |Children(p)|
    ensures ChildBoxes(env, p, me, y, i)[0].y == y
  {
  }

  /** The `k`-th box from child `i` on starts where the one before it ends. */
  lemma {:induction false} ChildBoxStacked(env: Env, p: Node, me: Frame, y: real, i: nat, k: nat)
    requires AllStyled(p)
    requires 1 <= k && i + k < |Children(p)|
    ensures var r := ChildBoxes(env, p, me, y, i);
      r[k].y == r[k - 1].y + r[k - 1].height
    decreases k
  {
    var r := ChildBoxes(env, p, me, y, i);
    var rest := ChildBoxes(env, p, me, r[0].y + r[0].height, i + 1);
    assert r[k] == rest[k - 1];
    if k > 1 {
      assert r[k - 1] == rest[k - 2];
      ChildBoxStacked(env, p, me, r[0].y + r[0].height, i + 1, k - 1);
    } else {
      assert rest != [] && rest[0].y == r[0].y + r[0].height;
    }
  }

  /** The last of a stack of boxes ends `SumHeights` below the top of the first. */
  lemma {:induction false} StackedBottom(bs: seq<Box>)
    requires Stacked(bs) && bs != []
    ensures Bottom(bs[|bs| - 1]) == bs[0].y + SumHeights(bs)
    decreases |bs|
  {
    if |bs| > 1 {
      var rest := bs[1..];
      assert Stacked(rest) by {
        forall k | 1 <= k < |rest| ensures rest[k].y == rest[k - 1].y + rest[k - 1].height {
          assert rest[k] == bs[k + 1] && rest[k - 1] == bs[k];
        }
      }
      StackedBottom(rest);
      assert rest[0] == bs[1] && rest[|rest| - 1] == bs[|bs| - 1];
    }
  }

  /**
   * A block box paints no text of its own and is as tall as its children
   * together, whatever height its style gives. When its tag is hidden it
   * has no children and height 0; otherwise it has one box per child, in
   * order, each at the box's x with the child's own width or the box's,
   * the first at the box's top, each below the one before, and the last
   * one ending at the box's bottom edge.
   */
  lemma BlockBox(env: Env, n: Node, parent: Frame, y: real)
    requires AllStyled(n) && env.mode(n) == Block
    ensures var b := LayoutSpec(env, n, parent, y);
      var cs := b.children;
      && b.display == [] && b.height == SumHeights(cs)
      && (HidesChildren(env, n) ==> cs == [] && b.height == 0.0)
      && (!HidesChildren(env, n) ==>
            && |cs| == |Children(n)|
            && (forall k | 0 <= k < |cs| ::
                  cs[k].node == Children(n)[k] && cs[k].x == b.x
                  && cs[k].width == WidthOf(env, Children(n)[k], Frame(b.x, b.y, b.width)))
            && Stacked(cs)
            && (cs != [] ==> cs[0].y == b.y && Bottom(cs[|cs| - 1]) == Bottom(b)))
  {
    var b := LayoutSpec(env, n, parent, y);
    var me := Frame(parent.x, y, b.width);
    if HidesChildren(env, n) {
      assert b.children == [];
    } else {
      var cs := ChildBoxes(env, n, me, y, 0);
      assert b.children == cs;
      forall k | 0 <= k < |cs|
        ensures cs[k].node == Children(n)[k] && cs[k].x == b.x
          && cs[k].width == WidthOf(env, Children(n)[k], Frame(b.x, b.y, b.width))
      {
        ChildBoxAt(env, n, me, y, 0, k);
      }
      forall k | 1 <= k < |cs|
        ensures cs[k].y == cs[k - 1].y + cs[k - 1].height
      {
        ChildBoxStacked(env, n, me, y, 0, k);
      }
      if cs != [] {
        FirstChildBoxTop(env, n, me, y, 0);
        StackedBottom(cs);
      }
    }
  }

  /** A box of an unsupported mode has no children and no text, and keeps its explicit height or 0. */
  lemma UnsupportedBox(env: Env, n: Node, parent: Frame, y: real)
    requires AllStyled(n) && env.mode(n) == Unsupported
    ensures var b := LayoutSpec(env, n, parent, y);
      b.children == [] && b.display == [] && b.height == ExplicitHeight(env, n)
      && PaintSpec(env, b) == Background(b)
  {
    var b := LayoutSpec(env, n, parent, y);
    assert PaintChildrenSpec(env, b, 0) == [];
  }

  /**
   * An inline box has no child boxes. Its height is its explicit height
   * when that is not 0, and otherwise the final `cursor_y`, which is never
   * negative; its line is empty when layout ends.
   */
  lemma InlineBox(env: Env, n: Node, parent: Frame, y: real)
    requires AllStyled(n) && env.mode(n) == Inline && ValidMetrics(env)
    ensures var b := LayoutSpec(env, n, parent, y);
      var s := InlineSpec(env, n, Frame(b.x, b.y, b.width));
      var h := ExplicitHeight(env, n);
      && b.children == [] && b.display == s.display
      && s.line == [] && s.cursorX == 0.0
      && (h != 0.0 ==> b.height == h)
      && (h == 0.0 ==> b.height == s.cursorY && b.height >= 0.0)
  {
    var b := LayoutSpec(env, n, parent, y);
    InlineEnds(env, n, Frame(b.x, b.y, b.width));
  }

  // ---------------------------------------------------------------------
  // Inline mode: the pending line
  // ---------------------------------------------------------------------

  /** Between words `cursor_x` is never negative, and it is 0 whenever the pending line is empty. */
  predicate LineOk(s: LineState) {
    s.cursorX >= 0.0 && (s.line == [] ==> s.cursorX == 0.0)
  }

  /** `r` follows `s`: the cursor has not moved up and the display list has only grown. */
  predicate Advances(s: LineState, r: LineState) {
    r.cursorY >= s.cursorY && s.display <= r.display
  }

  /**
   * `max` over the pending words: at least every word's metric and equal
   * to one of them, so not negative when the metrics are not.
   */
  lemma {:induction false} MaxMetricBounds(metric: FontKey -> real, line: seq<LineItem>)
    requires |line| > 0
    ensures forall k | 0 <= k < |line| :: metric(line[k].font) <= MaxMetric(metric, line)
    ensures exists k | 0 <= k < |line| :: metric(line[k].font) == MaxMetric(metric, line)
    ensures (forall f: FontKey :: metric(f) >= 0.0) ==> MaxMetric(metric, line) >= 0.0
    decreases |line|
  {
    var m := MaxMetric(metric, line);
    if |line| == 1 {
      assert metric(line[0].font) == m;
    } else {
      var tail := line[1..];
      MaxMetricBounds(metric, tail);
      forall k | 1 <= k < |line| ensures line[k] == tail[k - 1] { }
      if metric(line[0].font) >= MaxMetric(metric, tail) {
        assert metric(line[0].font) == m;
      } else {
        var j :| 0 <= j < |tail| && metric(tail[j].font) == MaxMetric(metric, tail);
        assert metric(line[j + 1].font) == m;
      }
    }
  }

  /** The commands of a flushed line: one per pending word, in line order, each at its own x against the baseline. */
  lemma {:induction false} LineCommandsAt(env: Env, f: Frame, baseline: real, items: seq<LineItem>)
    ensures var cs := LineCommands(env, f, baseline, items);
      && |cs| == |items|
      && forall k | 0 <= k < |items| ::
           cs[k] == DrawText(f.y + baseline - env.ascent(items[k].font), f.x + items[k].x,
                             items[k].word, items[k].font, items[k].color)
    decreases |items|
  {
    if items != [] {
      var init := items[..|items| - 1];
      LineCommandsAt(env, f, baseline, init);
      forall k | 0 <= k < |init| ensures init[k] == items[k] { }
    }
  }

  /**
   * `_flush_line`: on an empty line nothing changes; otherwise one
   * `DrawText` per pending word is appended, in line order, at the box's x
   * plus the word's x and at the box's y plus the baseline minus the
   * word's ascent, the line is cleared, `cursor_x` goes back to 0 and
   * `cursor_y` moves to the baseline plus 1.25 times the largest descent.
   */
  lemma FlushEffect(env: Env, f: Frame, s: LineState)
    ensures s.line == [] ==> FlushSpec(env, f, s) == s
    ensures s.line != [] ==>
      var r := FlushSpec(env, f, s);
      var baseline := s.cursorY + 1.25 * MaxMetric(env.ascent, s.line);
      && r.line == [] && r.cursorX == 0.0
      && r.cursorY == baseline + 1.25 * MaxMetric(env.descent, s.line)
      && |r.display| == |s.display| + |s.line|
      && r.display[..|s.display|] == s.display
      && forall k | 0 <= k < |s.line| ::
           r.display[|s.display| + k] == DrawText(f.y + baseline - env.ascent(s.line[k].font), f.x + s.line[k].x,
                                                  s.line[k].word, s.line[k].font, s.line[k].color)
  {
    if s.line != [] {
      var baseline := s.cursorY + 1.25 * MaxMetric(env.ascent, s.line);
      LineCommandsAt(env, f, baseline, s.line);
    }
  }

  /**
   * With non-negative metrics every word of a flushed line is drawn with
   * its top at or below the line's top, and the next line starts below
   * the baseline.
   */
  lemma FlushBelowCursor(env: Env, f: Frame, s: LineState)
    requires ValidMetrics(env)
    requires s.line != []
    ensures var r := FlushSpec(env, f, s);
      var baseline := s.cursorY + 1.25 * MaxMetric(env.ascent, s.line);
      && baseline >= s.cursorY && r.cursorY >= baseline
      && forall k | |s.display| <= k < |r.display| :: r.display[k].top >= f.y + s.cursorY
  {
    FlushEffect(env, f, s);
    MaxMetricBounds(env.ascent, s.line);
    MaxMetricBounds(env.descent, s.line);
    var m := MaxMetric(env.ascent, s.line);
    var r := FlushSpec(env, f, s);
    forall k | |s.display| <= k < |r.display|
      ensures r.display[k].top >= f.y + s.cursorY
    {
      var j := k - |s.display|;
      assert r.display[|s.display| + j].top == f.y + s.cursorY + 1.25 * m - env.ascent(s.line[j].font);
    }
  }

  /** Flushing keeps `LineOk`, leaves an empty line with `cursor_x` 0, and advances. */
  lemma FlushOk(env: Env, f: Frame, s: LineState)
    requires ValidMetrics(env) && LineOk(s)
    ensures var r := FlushSpec(env, f, s);
      r.line == [] && r.cursorX == 0.0 && LineOk(r) && Advances(s, r)
  {
    if s.line != [] {
      FlushBelowCursor(env, f, s);
    }
  }

  /**
   * `_render_word`: the line is flushed exactly when the word does not fit
   * after the cursor. A word that fits joins the line at `cursor_x`; one
   * that does not starts a fresh line, alone, at x 0. Either way
   * `cursor_x` then moves past the word and one space.
   */
  lemma RenderWordPlacement(env: Env, f: Frame, s: LineState, n: Node, word: string)
    requires HasInherited(n.style) && LineOk(s)
    ensures var font := FontOf(env, n);
      var w := env.measure(font, word);
      var item := LineItem(if s.cursorX + w <= f.width then s.cursorX else 0.0, word, font, n.style["color"]);
      var r := RenderWordSpec(env, f, s, n, word);
      && r.cursorX == item.x + w + env.measure(font, " ")
      && (s.cursorX + w <= f.width ==> r.line == s.line + [item] && r.display == s.display && r.cursorY == s.cursorY)
      && (s.cursorX + w > f.width ==>
            var flushed := FlushSpec(env, f, s);
            r.line == [item] && r.display == flushed.display && r.cursorY == flushed.cursorY)
  {
  }

  /** With non-negative metrics a word wider than the box always sits alone at x 0. */
  lemma WideWordAlone(env: Env, f: Frame, s: LineState, n: Node, word: string)
    requires HasInherited(n.style) && LineOk(s) && ValidMetrics(env)
    requires env.measure(FontOf(env, n), word) > f.width
    ensures RenderWordSpec(env, f, s, n, word).line == [LineItem(0.0, word, FontOf(env, n), n.style["color"])]
  {
    RenderWordPlacement(env, f, s, n, word);
  }

  /** Rendering a word keeps `LineOk`, leaves the line non-empty, and advances. */
  lemma RenderWordOk(env: Env, f: Frame, s: LineState, n: Node, word: string)
    requires HasInherited(n.style) && LineOk(s) && ValidMetrics(env)
    ensures var r := RenderWordSpec(env, f, s, n, word);
      r.line != [] && LineOk(r) && Advances(s, r)
  {
    var font := FontOf(env, n);
    if s.cursorX + env.measure(font, word) > f.width {
      FlushOk(env, f, s);
    }
  }

  lemma {:induction false} RenderWordsOk(env: Env, f: Frame, s: LineState, n: Node, words: seq<string>, i: nat)
    requires HasInherited(n.style) && i <= |words|
    requires LineOk(s) && ValidMetrics(env)
    ensures var r := RenderWords(env, f, s, n, words, i);
      LineOk(r) && Advances(s, r)
    decreases |words| - i
  {
    if i < |words| {
      var s1 := RenderWordSpec(env, f, s, n, words[i]);
      RenderWordOk(env, f, s, n, words[i]);
      RenderWordsOk(env, f, s1, n, words, i + 1);
    }
  }

  /** `_render_tree` keeps `LineOk` and advances: the cursor never moves up and drawn text is never taken back. */
  lemma {:induction false} RenderTreeOk(env: Env, f: Frame, s: LineState, n: Node)
    requires AllStyled(n) && LineOk(s) && ValidMetrics(env)
    ensures var r := RenderTreeSpec(env, f, s, n);
      LineOk(r) && Advances(s, r)
    decreases n, |Children(n)| + 1
  {
    match n
    case Text(text, _) =>
      RenderWordsOk(env, f, s, n, Split(text), 0);
    case Element(tag, _, _, _) =>
      if tag !in env.hidden {
        var s1 := if tag == "br" then FlushSpec(env, f, s) else s;
        if tag == "br" {
          FlushOk(env, f, s);
        }
        RenderChildrenOk(env, f, s1, n, 0);
      }
  }

  lemma {:induction false} RenderChildrenOk(env: Env, f: Frame, s: LineState, p: Node, i: nat)
    requires AllStyled(p) && i <= |Children(p)|
    requires LineOk(s) && ValidMetrics(env)
    ensures var r := RenderChildrenSpec(env, f, s, p, i);
      LineOk(r) && Advances(s, r)
    decreases p, |Children(p)| - i
  {
    if i < |Children(p)| {
      var s1 := RenderTreeSpec(env, f, s, Children(p)[i]);
      RenderTreeOk(env, f, s, Children(p)[i]);
      RenderChildrenOk(env, f, s1, p, i + 1);
    }
  }

  /** After inline layout the line is empty, `cursor_x` is 0 and `cursor_y` is not negative. */
  lemma InlineEnds(env: Env, n: Node, f: Frame)
    requires AllStyled(n) && ValidMetrics(env)
    ensures var s := InlineSpec(env, n, f);
      s.line == [] && s.cursorX == 0.0 && s.cursorY >= 0.0
  {
    var s0 := LineState(0.0, 0.0, [], []);
    var s1 := RenderTreeSpec(env, f, s0, n);
    RenderTreeOk(env, f, s0, n);
    FlushOk(env, f, s1);
  }

  // ---------------------------------------------------------------------
  // Paint
  // ---------------------------------------------------------------------

  /** The commands of the first `k` children, in child order. */
  function PaintUpTo(env: Env, b: Box, k: nat): seq<DrawCommand>
    requires k <= |b.children|
    decreases k
  {
    if k == 0 then [] else PaintUpTo(env, b, k - 1) + PaintSpec(env, b.children[k - 1])
  }

  lemma {:induction false} PaintChildrenSplit(env: Env, b: Box, i: nat)
    requires i <= |b.children|
    ensures PaintChildrenSpec(env, b, 0) == PaintUpTo(env, b, i) + PaintChildrenSpec(env, b, i)
    decreases i
  {
    if i > 0 {
      PaintChildrenSplit(env, b, i - 1);
      assert PaintChildrenSpec(env, b, i - 1) == PaintSpec(env, b.children[i - 1]) + PaintChildrenSpec(env, b, i);
    }
  }

  /**
   * A box's background rectangle, when its colour is not "transparent",
   * is the first command it paints, covering (x, y) to (x + width, y + height).
   */
  lemma PaintRectFirst(env: Env, b: Box)
    ensures var bg := Get(b.node.style, "background-color", "transparent");
      bg != "transparent" ==>
        |PaintSpec(env, b)| >= 1 && PaintSpec(env, b)[0] == DrawRect(b.y, b.x, b.y + b.height, b.x + b.width, bg)
  {
    var own := OwnCommands(env, b);
    assert PaintSpec(env, b) == own + PaintChildrenSpec(env, b, 0);
  }

  /**
   * Painter's order: a box paints its own commands, then the commands of
   * the children before child `k`, then child `k`'s as one block, then
   * those of the children after it.
   */
  lemma PaintChildBlock(env: Env, b: Box, k: nat)
    requires k < |b.children|
    ensures PaintSpec(env, b) ==
      OwnCommands(env, b) + (PaintUpTo(env, b, k) + (PaintSpec(env, b.children[k]) + PaintChildrenSpec(env, b, k + 1)))
  {
    PaintChildrenSplit(env, b, k);
    PaintChildrenStep(env, b, k);
  }

  /** The commands of the children from `k` on: child `k`'s, then the rest. */
  lemma PaintChildrenStep(env: Env, b: Box, k: nat)
    requires k < |b.children|
    ensures PaintChildrenSpec(env, b, k) == PaintSpec(env, b.children[k]) + PaintChildrenSpec(env, b, k + 1)
  {
  }

  /** A box whose background is transparent and that is not inline paints only what its children paint. */
  lemma PaintOnlyChildren(env: Env, b: Box)
    requires Get(b.node.style, "background-color", "transparent") == "transparent"
    requires env.mode(b.node) != Inline
    ensures PaintSpec(env, b) == PaintUpTo(env, b, |b.children|)
  {
    PaintChildrenSplit(env, b, |b.children|);
  }
}
