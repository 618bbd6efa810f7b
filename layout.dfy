/**
 * Layout and paint of baby_browser/browser.py: `BlockLayout` stacks the
 * boxes of block-mode children vertically and breaks the words of an
 * inline-mode subtree into lines; `paint` turns the boxes into draw
 * commands in painter's order; `DocumentLayout` places the root box
 * inside the window margins.
 *
 * The collaborators that baby-browser's browser.py and html.py do not
 * define (Tk's font metrics, html.py's layout mode and hidden tags), and
 * those that stand for floating-point text handling, are the fields of
 * an `Env`: the layout
 * mode of a node, the set of hidden tags, the font metrics, the
 * conversion of a `font-size` value to points and `float()` on a length.
 */
module Layout {
  import opened Strings
  import opened Dom
  import opened Cascade
  import opened Fonts
  import Seqs

  const WindowHMargin: real := 13.0
  const WindowVMargin: real := 18.0
  const ScrollbarWidth: real := 15.0

  /** What `get_layout_mode` answers: "block", "inline" or anything else. */
  datatype Mode = Block | Inline | Unsupported

  datatype Env = Env(
    mode: Node -> Mode,                  // get_layout_mode
    hidden: set<string>,                 // HIDDEN_ELEMENTS
    measure: (FontKey, string) -> real,  // font.measure(text)
    ascent: FontKey -> real,             // font.metrics("ascent")
    descent: FontKey -> real,            // font.metrics("descent")
    pointSize: string -> int,            // int(float(size[:-2]) * 0.75)
    length: string -> real)              // float(value)

  /** Font metrics are never negative. */
  ghost predicate ValidMetrics(env: Env) {
    && (forall f: FontKey, w: string :: env.measure(f, w) >= 0.0)
    && (forall f: FontKey :: env.ascent(f) >= 0.0)
    && (forall f: FontKey :: env.descent(f) >= 0.0)
  }

  /** The draw commands of baby_browser/layout/commands.py. */
  datatype DrawCommand =
    | DrawText(top: real, left: real, text: string, font: FontKey, color: string)
    | DrawRect(top: real, left: real, bottom: real, right: real, color: string)

  /** An entry of the pending line: x relative to the box, word, font and colour. */
  datatype LineItem = LineItem(x: real, word: string, font: FontKey, color: string)

  /** The part of a layout object that a child reads from its parent. */
  datatype Frame = Frame(x: real, y: real, width: real)

  /** The inline-mode state of a box: the cursor, the pending line and the display list. */
  datatype LineState = LineState(cursorX: real, cursorY: real, line: seq<LineItem>, display: seq<DrawCommand>)

  /** A laid-out `BlockLayout`: its node, geometry, display list and child boxes. */
  datatype Box = Box(node: Node, x: real, y: real, width: real, height: real, display: seq<DrawCommand>, children: seq<Box>)

  // ---------------------------------------------------------------------
  // Inline mode
  // ---------------------------------------------------------------------

  /** `BlockLayout.get_font`: the cache key of the font a node's text is drawn in. */
  function FontOf(env: Env, n: Node): (k: FontKey)
    requires HasInherited(n.style)
    ensures k.family == n.style["font-family"] && k.weight == n.style["font-weight"]
    ensures k.size == env.pointSize(n.style["font-size"])
    ensures n.style["font-style"] == "normal" ==> k.slant == "roman"
    ensures n.style["font-style"] != "normal" ==> k.slant == n.style["font-style"]
  {
    var st := n.style;
    var slant := if st["font-style"] == "normal" then "roman" else st["font-style"];
    FontKey(st["font-family"], env.pointSize(st["font-size"]), st["font-weight"], slant)
  }

  /** `max(metric(font) for ... in line)`: the largest ascent or descent among the pending words. */
  function MaxMetric(metric: FontKey -> real, line: seq<LineItem>): real
    requires |line| > 0
    decreases |line|
  {
    var m0 := metric(line[0].font);
    if |line| == 1 then m0
    else
      var m := MaxMetric(metric, line[1..]);
      if m0 >= m then m0 else m
  }

  /** The command that draws a pending word once the line's baseline is known. */
  function Placed(env: Env, f: Frame, baseline: real, item: LineItem): DrawCommand {
    DrawText(f.y + baseline - env.ascent(item.font), f.x + item.x, item.word, item.font, item.color)
  }

  /** The commands for the pending words, in line order. */
  function LineCommands(env: Env, f: Frame, baseline: real, items: seq<LineItem>): (cmds: seq<DrawCommand>)
    ensures |cmds| == |items|
    decreases |items|
  {
    if items == [] then []
    else LineCommands(env, f, baseline, items[..|items| - 1]) + [Placed(env, f, baseline, items[|items| - 1])]
  }

  /** `_flush_line`, on the state of the box with geometry `f`. */
  function FlushSpec(env: Env, f: Frame, s: LineState): (r: LineState)
    ensures r.line == []
    ensures |r.display| == |s.display| + |s.line|
  {
    if s.line == [] then s
    else
      var baseline := s.cursorY + 1.25 * MaxMetric(env.ascent, s.line);
      LineState(0.0, baseline + 1.25 * MaxMetric(env.descent, s.line), [],
        s.display + LineCommands(env, f, baseline, s.line))
  }

  /** `_render_word`. */
  function RenderWordSpec(env: Env, f: Frame, s: LineState, n: Node, word: string): (r: LineState)
    requires HasInherited(n.style)
  {
    var font := FontOf(env, n);
    var w := env.measure(font, word);
    var s1 := if s.cursorX + w > f.width then FlushSpec(env, f, s) else s;
    LineState(s1.cursorX + w + env.measure(font, " "), s1.cursorY,
      s1.line + [LineItem(s1.cursorX, word, font, n.style["color"])], s1.display)
  }

  /** The words `words[i..]` of text node `n`, rendered one after the other. */
  function RenderWords(env: Env, f: Frame, s: LineState, n: Node, words: seq<string>, i: nat): (r: LineState)
    requires HasInherited(n.style)
    requires i <= |words|
    decreases |words| - i
  {
    if i == |words| then s else RenderWords(env, f, RenderWordSpec(env, f, s, n, words[i]), n, words, i + 1)
  }

  /** `_render_tree`. */
  function RenderTreeSpec(env: Env, f: Frame, s: LineState, n: Node): (r: LineState)
    requires AllStyled(n)
    decreases n, |Children(n)| + 1
  {
    match n
    case Text(text, _) => RenderWords(env, f, s, n, Split(text), 0)
    case Element(tag, _, _, _) =>
      if tag in env.hidden then s
      else RenderChildrenSpec(env, f, if tag == "br" then FlushSpec(env, f, s) else s, n, 0)
  }

  /** The children of `p` from index `i` on, rendered one after the other. */
  function RenderChildrenSpec(env: Env, f: Frame, s: LineState, p: Node, i: nat): (r: LineState)
    requires AllStyled(p)
    requires i <= |Children(p)|
    decreases p, |Children(p)| - i
  {
    if i == |Children(p)| then s
    else RenderChildrenSpec(env, f, RenderTreeSpec(env, f, s, Children(p)[i]), p, i + 1)
  }

  /** The inline layout of a box: its subtree rendered from an empty line, then the last line flushed. */
  function InlineSpec(env: Env, n: Node, f: Frame): (r: LineState)
    requires AllStyled(n)
  {
    FlushSpec(env, f, RenderTreeSpec(env, f, LineState(0.0, 0.0, [], []), n))
  }

  // ---------------------------------------------------------------------
  // Boxes
  // ---------------------------------------------------------------------

  /** `style.get("width", "auto")`: `float` of an explicit width, else the parent's width. */
  function WidthOf(env: Env, n: Node, parent: Frame): real {
    var w := Get(n.style, "width", "auto");
    if w != "auto" then env.length(w) else parent.width
  }

  /** `style.get("height", "auto")`: `float` of an explicit height, else 0. */
  function ExplicitHeight(env: Env, n: Node): real {
    var h := Get(n.style, "height", "auto");
    if h != "auto" then env.length(h) else 0.0
  }

  /** Whether `_layout_intermediate` skips every child of `n`. */
  predicate HidesChildren(env: Env, n: Node) {
    n.Element? && n.tag in env.hidden
  }

  function SumHeights(bs: seq<Box>): real
    decreases |bs|
  {
    if bs == [] then 0.0 else bs[0].height + SumHeights(bs[1..])
  }

  /**
   * `BlockLayout.layout` of node `n`, whose parent has frame `parent`, when
   * its top edge is `y` (the parent's y, or the previous sibling's bottom).
   */
  function LayoutSpec(env: Env, n: Node, parent: Frame, y: real): (b: Box)
    requires AllStyled(n)
    ensures b.node == n && b.x == parent.x && b.y == y && b.width == WidthOf(env, n, parent)
    decreases n, |Children(n)| + 1
  {
    var width := WidthOf(env, n, parent);
    var me := Frame(parent.x, y, width);
    match env.mode(n)
    case Block =>
      var kids := if HidesChildren(env, n) then [] else ChildBoxes(env, n, me, y, 0);
      Box(n, parent.x, y, width, SumHeights(kids), [], kids)
    case Inline =>
      var s := InlineSpec(env, n, me);
      var h := ExplicitHeight(env, n);
      Box(n, parent.x, y, width, if h != 0.0 then h else s.cursorY, s.display, [])
    case Unsupported =>
      Box(n, parent.x, y, width, ExplicitHeight(env, n), [], [])
  }

  /** The boxes of the children of `p` from index `i` on, the first with top edge `y`, each below the one before. */
  function ChildBoxes(env: Env, p: Node, me: Frame, y: real, i: nat): (r: seq<Box>)
    requires AllStyled(p)
    requires i <= |Children(p)|
    ensures |r| == |Children(p)| - i
    decreases p, |Children(p)| - i
  {
    if i == |Children(p)| then []
    else
      var b := LayoutSpec(env, Children(p)[i], me, y);
      [b] + ChildBoxes(env, p, me, b.y + b.height, i + 1)
  }

  // ---------------------------------------------------------------------
  // Paint
  // ---------------------------------------------------------------------

  /** The background rectangle of a box, when its `background-color` is not "transparent". */
  function Background(b: Box): seq<DrawCommand> {
    var bg := Get(b.node.style, "background-color", "transparent");
    if bg != "transparent" then [DrawRect(b.y, b.x, b.y + b.height, b.x + b.width, bg)] else []
  }

  /** What a box paints before its children: the background, then its own text if it is inline. */
  function OwnCommands(env: Env, b: Box): seq<DrawCommand> {
    Background(b) + (if env.mode(b.node) == Inline then b.display else [])
  }

  /** `paint`: the box's own commands, then each child's, in order. */
  function PaintSpec(env: Env, b: Box): (r: seq<DrawCommand>)
    decreases b, |b.children| + 1
  {
    OwnCommands(env, b) + PaintChildrenSpec(env, b, 0)
  }

  function PaintChildrenSpec(env: Env, b: Box, i: nat): seq<DrawCommand>
    requires i <= |b.children|
    decreases b, |b.children| - i
  {
    if i == |b.children| then [] else PaintSpec(env, b.children[i]) + PaintChildrenSpec(env, b, i + 1)
  }

  /** The list `paint` appends to. */
  class DisplayList {
    var commands: seq<DrawCommand>

    constructor ()
      ensures commands == []
    {
      commands := [];
    }
  }

  /** The first part of `paint`: the background rectangle, then the box's text if it is inline. */
  method PaintOwn(env: Env, b: Box, out: DisplayList)
    modifies out
    ensures out.commands == old(out.commands) + OwnCommands(env, b)
  {
    var bg := Get(b.node.style, "background-color", "transparent");
    if bg != "transparent" {
      out.commands := out.commands + [DrawRect(b.y, b.x, b.y + b.height, b.x + b.width, bg)];
    }
    var mode := env.mode(b.node);
    if mode == Inline {
      out.commands := out.commands + b.display;
    }
  }

  /** `paint` on a laid-out box: appends its commands to `out`. */
  method PaintBox(env: Env, b: Box, out: DisplayList)
    modifies out
    ensures out.commands == old(out.commands) + PaintSpec(env, b)
    decreases b
  {
    ghost var whole := old(out.commands) + PaintSpec(env, b);
    PaintOwn(env, b, out);
    assert whole == out.commands + PaintChildrenSpec(env, b, 0);
    for i := 0 to |b.children|
      invariant whole == out.commands + PaintChildrenSpec(env, b, i)
    {
      PaintChildrenExtend(env, b, whole, out.commands, i);
      PaintBox(env, b.children[i], out);
    }
  }

  /** One more child painted: its commands join the finished ones and the rest follow them. */
  lemma PaintChildrenExtend(env: Env, b: Box, whole: seq<DrawCommand>, done: seq<DrawCommand>, i: nat)
    requires i < |b.children|
    requires whole == done + PaintChildrenSpec(env, b, i)
    ensures whole == (done + PaintSpec(env, b.children[i])) + PaintChildrenSpec(env, b, i + 1)
  {
  }

  // ---------------------------------------------------------------------
  // BlockLayout
  // ---------------------------------------------------------------------

  class BlockLayout {
    const node: Node
    const parent: Frame
    const previous: BlockLayout?
    var x: real
    var y: real
    var width: real
    var height: real
    var displayList: seq<DrawCommand>
    var children: seq<Box>
    var line: seq<LineItem>
    var cursorX: real
    var cursorY: real

    /** `BlockLayout(html_node, parent, previous)`: nothing laid out yet. */
    constructor (node: Node, parent: Frame, previous: BlockLayout?)
      ensures this.node == node && this.parent == parent && this.previous == previous
      ensures children == []
    {
      this.node := node;
      this.parent := parent;
      this.previous := previous;
      children := [];
    }

    function Geometry(): Frame
      reads this
    {
      Frame(x, y, width)
    }

    function State(): LineState
      reads this
    {
      LineState(cursorX, cursorY, line, displayList)
    }

    function Snapshot(): Box
      reads this
    {
      Box(node, x, y, width, height, displayList, children)
    }

    /** The top edge `layout` gives the box: below the previous sibling, or at the parent's top. */
    function StartY(): real
      reads this, previous
    {
      if previous != null then previous.y + previous.height else parent.y
    }

    /** `layout`. */
    method Layout(env: Env)
      requires AllStyled(node)
      requires children == []
      modifies this
      ensures Snapshot() == LayoutSpec(env, node, parent, old(StartY()))
      decreases node, 3
    {
      Place(env);
      var mode := env.mode(node);
      if mode == Block {
        LayoutIntermediate(env);
        height := SumHeights(children);
      } else if mode == Inline {
        LayoutInline(env);
      }
    }

    /** The geometry `layout` sets before looking at the mode: x, y, an explicit or inherited width, an explicit height or 0. */
    method Place(env: Env)
      modifies this`displayList, this`x, this`y, this`width, this`height
      ensures displayList == [] && x == parent.x && y == old(StartY())
      ensures width == WidthOf(env, node, parent) && height == ExplicitHeight(env, node)
    {
      displayList := [];
      x := parent.x;
      y := if previous != null then previous.y + previous.height else parent.y;
      var w := Get(node.style, "width", "auto");
      if w != "auto" {
        width := env.length(w);
      } else {
        width := parent.width;
      }
      var h := Get(node.style, "height", "auto");
      if h != "auto" {
        height := env.length(h);
      } else {
        height := 0.0;
      }
    }

    /** The inline branch of `layout`: the subtree rendered from an empty line, the last line flushed, then the height. */
    method LayoutInline(env: Env)
      requires AllStyled(node)
      requires displayList == []
      modifies this`displayList, this`line, this`cursorX, this`cursorY, this`height
      ensures var s := InlineSpec(env, node, Geometry());
        && State() == s
        && height == if old(height) != 0.0 then old(height) else s.cursorY
    {
      line := [];
      cursorX := 0.0;
      cursorY := 0.0;
      RenderTree(env, node);
      FlushLine(env);
      if height == 0.0 {
        height := cursorY;
      }
    }

    /** `_layout_intermediate`: a layout object per child, then each laid out in order. */
    method LayoutIntermediate(env: Env)
      requires AllStyled(node)
      requires children == []
      modifies this`children
      ensures children == if HidesChildren(env, node) then [] else ChildBoxes(env, node, Geometry(), y, 0)
      decreases node, 2
    {
      var pending := CreateChildren(env);
      LayoutChildren(env, pending);
    }

    /** The first loop of `_layout_intermediate`: each child gets a layout object linked to the one before, unless its parent is hidden. */
    method CreateChildren(env: Env) returns (pending: seq<BlockLayout>)
      ensures HidesChildren(env, node) ==> pending == []
      ensures !HidesChildren(env, node) ==> |pending| == |Children(node)|
      ensures forall k | 0 <= k < |pending| ::
        && fresh(pending[k]) && pending[k].children == []
        && pending[k].node == Children(node)[k] && pending[k].parent == Geometry()
      ensures |pending| > 0 ==> pending[0].previous == null
      ensures forall k | 0 < k < |pending| :: pending[k].previous == pending[k - 1]
      ensures forall j, k | 0 <= j < k < |pending| :: pending[j] != pending[k]
    {
      var cs := Children(node);
      pending := [];
      var prev: BlockLayout? := null;
      for i := 0 to |cs|
        invariant HidesChildren(env, node) ==> pending == []
        invariant !HidesChildren(env, node) ==> |pending| == i
        invariant forall k | 0 <= k < |pending| :: fresh(pending[k])
        invariant forall k | 0 <= k < |pending| :: pending[k].children == []
        invariant forall k | 0 <= k < |pending| :: pending[k].node == cs[k]
        invariant forall k | 0 <= k < |pending| :: pending[k].parent == Geometry()
        invariant |pending| > 0 ==> pending[0].previous == null
        invariant forall k | 0 < k < |pending| :: pending[k].previous == pending[k - 1]
        invariant forall j, k | 0 <= j < k < |pending| :: pending[j] != pending[k]
        invariant prev == if pending == [] then null else pending[|pending| - 1]
      {
        var next := new BlockLayout(cs[i], Geometry(), prev);
        if node.Element? && node.tag in env.hidden {
          continue;
        }
        assert next.previous == if pending == [] then null else pending[|pending| - 1];
        pending := pending + [next];
        prev := next;
      }
    }

    /** The second loop of `_layout_intermediate`: lays out the new objects in order and keeps their boxes. */
    method LayoutChildren(env: Env, pending: seq<BlockLayout>)
      requires AllStyled(node)
      requires children == []
      requires |pending| == 0 || |pending| == |Children(node)|
      requires forall k | 0 <= k < |pending| ::
        && pending[k] != this && pending[k].children == []
        && pending[k].node == Children(node)[k] && pending[k].parent == Geometry()
      requires |pending| > 0 ==> pending[0].previous == null
      requires forall k | 0 < k < |pending| :: pending[k].previous == pending[k - 1]
      requires forall j, k | 0 <= j < k < |pending| :: pending[j] != pending[k]
      modifies this`children, pending
      ensures children == if pending == [] then [] else ChildBoxes(env, node, Geometry(), y, 0)
      decreases node, 1
    {
      ghost var g := Geometry();
      ghost var whole := ChildBoxes(env, node, g, g.y, 0);
      ghost var top := g.y;
      ghost var rest := whole;
      var boxes := [];
      for i := 0 to |pending|
        invariant forall k | i <= k < |pending| :: pending[k].children == []
        invariant top == if i == 0 then g.y else pending[i - 1].y + pending[i - 1].height
        invariant |pending| > 0 ==> rest == ChildBoxes(env, node, g, top, i)
        invariant |boxes| == i && whole == boxes + rest
      {
        var c := pending[i];
        var b, rest' := LayoutChild(env, c, g, i, top, rest);
        Seqs.AppendOne(boxes, b, rest');
        boxes := boxes + [b];
        top := b.y + b.height;
        rest := rest';
      }
      assert |pending| > 0 ==> rest == [] && whole == boxes;
      children := boxes;
    }

    /** One step of that loop: child `i` is laid out where the finished ones end, and its box is the next one. */
    method LayoutChild(env: Env, c: BlockLayout, ghost me: Frame, ghost i: nat, ghost top: real, ghost rest: seq<Box>)
      returns (b: Box, ghost rest': seq<Box>)
      requires AllStyled(node) && i < |Children(node)|
      requires c != this && c.children == []
      requires c.node == Children(node)[i] && c.parent == me && c.StartY() == top
      requires rest == ChildBoxes(env, node, me, top, i)
      modifies c
      ensures b.y == c.y && b.height == c.height
      ensures rest == [b] + rest' && rest' == ChildBoxes(env, node, me, b.y + b.height, i + 1)
      decreases node, 0
    {
      c.Layout(env);
      b := c.Snapshot();
      rest' := ChildBoxes(env, node, me, b.y + b.height, i + 1);
    }

    /** `_render_tree`. */
    method RenderTree(env: Env, n: Node)
      requires AllStyled(n)
      modifies this`displayList, this`line, this`cursorX, this`cursorY
      ensures State() == RenderTreeSpec(env, Geometry(), old(State()), n)
      decreases n
    {
      match n
      case Text(text, _) =>
        var words := Split(text);
        for i := 0 to |words|
          invariant RenderWords(env, Geometry(), State(), n, words, i) == RenderWords(env, Geometry(), old(State()), n, words, 0)
        {
          RenderWord(env, n, words[i]);
        }
      case Element(tag, _, cs, _) =>
        if tag in env.hidden {
          return;
        }
        if tag == "br" {
          FlushLine(env);
        }
        for i := 0 to |cs|
          invariant RenderChildrenSpec(env, Geometry(), State(), n, i) == RenderTreeSpec(env, Geometry(), old(State()), n)
        {
          RenderTree(env, cs[i]);
        }
    }

    /** `_render_word`. */
    method RenderWord(env: Env, n: Node, word: string)
      requires HasInherited(n.style)
      modifies this`displayList, this`line, this`cursorX, this`cursorY
      ensures State() == RenderWordSpec(env, Geometry(), old(State()), n, word)
    {
      var font := FontOf(env, n);
      var wordWidth := env.measure(font, word);
      if cursorX + wordWidth > width {
        FlushLine(env);
      }
      line := line + [LineItem(cursorX, word, font, n.style["color"])];
      cursorX := cursorX + wordWidth + env.measure(font, " ");
    }

    /** `_flush_line`. */
    method FlushLine(env: Env)
      modifies this`displayList, this`line, this`cursorX, this`cursorY
      ensures State() == FlushSpec(env, Geometry(), old(State()))
    {
      if line == [] {
        return;
      }
      var maxAscent := MaxMetric(env.ascent, line);
      var baseline := cursorY + 1.25 * maxAscent;
      var maxDescent := MaxMetric(env.descent, line);
      DrawLine(env, baseline);
      cursorX := 0.0;
      cursorY := baseline + 1.25 * maxDescent;
      line := [];
    }

    /** The loop of `_flush_line`: a text command per pending word, drawn against `baseline`. */
    method DrawLine(env: Env, baseline: real)
      modifies this`displayList
      ensures displayList == old(displayList) + LineCommands(env, Geometry(), baseline, line)
    {
      for i := 0 to |line|
        invariant displayList == old(displayList) + LineCommands(env, Geometry(), baseline, line[..i])
      {
        var item := line[i];
        var left := x + item.x;
        var top := y + baseline - env.ascent(item.font);
        assert line[..i + 1][..i] == line[..i];
        displayList := displayList + [DrawText(top, left, item.word, item.font, item.color)];
      }
      assert line[..|line|] == line;
    }

    /** `paint`. */
    method Paint(env: Env, out: DisplayList)
      modifies out
      ensures out.commands == old(out.commands) + PaintSpec(env, Snapshot())
    {
      PaintBox(env, Snapshot(), out);
    }
  }

  // ---------------------------------------------------------------------
  // DocumentLayout
  // ---------------------------------------------------------------------

  class DocumentLayout {
    const node: Node
    var x: real
    var y: real
    var width: real
    var height: real
    var children: seq<BlockLayout>

    constructor (node: Node)
      ensures this.node == node && children == []
    {
      this.node := node;
      children := [];
    }

    /** `layout(width)`: one fresh child box for the whole tree, inside the window margins. */
    method Layout(env: Env, viewport: real)
      requires AllStyled(node)
      modifies this
      ensures x == WindowHMargin && y == WindowVMargin
      ensures width == viewport - 2.0 * WindowHMargin - ScrollbarWidth
      ensures |children| == 1 && fresh(children[0])
      ensures children[0].Snapshot() == LayoutSpec(env, node, Frame(x, y, width), y)
      ensures height == children[0].height + 2.0 * WindowVMargin
    {
      width := viewport - 2.0 * WindowHMargin - ScrollbarWidth;
      height := 0.0;
      x := WindowHMargin;
      y := WindowVMargin;
      var child := new BlockLayout(node, Frame(x, y, width), null);
      children := [child];
      child.Layout(env);
      height := child.height + 2.0 * WindowVMargin;
    }

    /** `paint`: the commands of the one child box. */
    method Paint(env: Env, out: DisplayList)
      requires |children| >= 1
      modifies out
      ensures out.commands == old(out.commands) + PaintSpec(env, children[0].Snapshot())
    {
      children[0].Paint(env, out);
    }
  }
}
