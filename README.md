# baby-browser in Dafny

A model of the rendering pipeline of baby-browser, a small Python web
browser. The pipeline has these parts:

- **Stylesheet parser** (`CSSParser`): turns stylesheet text into rules.
- **Selectors**: `TagSelector` and `DescendantSelector`, each with a
  priority and a `matches` test.
- **Cascade** (`style`): gives every node of the document tree its style
  map. It runs over the rules that `load_page` sorts by selector priority.
- **Layout** (`BlockLayout`, `DocumentLayout`): lays the styled tree out
  into boxes. Block-mode children are stacked vertically. Inline-mode text
  is broken greedily into lines.
- **Paint**: turns the boxes into a display list of draw commands, in
  painter's order.

Around the pipeline sit four small utilities:

- the URL splitter and the request encoder of the networking module;
- the tag stripper `render_html`;
- the pre-order flattener `tree_to_list`;
- the font cache `get_font`.

Modules, one per file:

| module | file | models |
|---|---|---|
| `Wrappers` | wrappers.dfy | `Option`, for Python's `None`-or-value |
| `Strings` | strings.dfy | `str.isspace`, `isalnum`, `lower`, `split()` |
| `Dom` | dom.dfy | the document tree: elements with tag, attributes, children and style map; text nodes |
| `Css` | css.dfy | selectors, priority, matching, and the `CSSParser` |
| `Cascade` | cascade.dfy | `INHERITED_PROPERTIES`, `style`, the stable priority sort of `load_page` |
| `Fonts` | fonts.dfy | `_fonts_cache` and `get_font` |
| `Layout` | layout.dfy | `BlockLayout`, `DocumentLayout`, the draw commands, paint |
| `LayoutProps` | layout_props.dfy | what layout and paint promise, as lemmas |
| `Networking` | networking.dfy | `URL`, `parse_url`, `_encode_http_request` |
| `Html` | html.dfy | `render_html` |
| `Utils` | utils.dfy | `tree_to_list` |

**How the imperative code is modelled.** Code that changes state stays
imperative:

- The parser is a class whose `index` field its methods advance in loops.
- `BlockLayout` is a class whose methods set `x`, `y`, `width`, `height`,
  the cursor, the pending line, the display list and the children.
- The font cache and the flattener's list are objects that change in
  place.

Each such method is proved against a pure function of the inputs and the
old state. The parser method `_word`, for example, is tied to
`WordAt(source, index)`, which returns the result together with the new
cursor. The properties the code promises are then proved about those
functions.

**How the collaborators are modelled.** baby-browser's browser.py and
html.py do not define some of the things browser.py calls (html.py's
`get_layout_mode` and `HIDDEN_ELEMENTS`, Tk's font metrics), and others
stand for floating-point text handling. These become parameters:

- the layout mode of a node (`get_layout_mode`);
- the set `HIDDEN_ELEMENTS`;
- the font metrics `measure`, `ascent` and `descent`;
- the conversion of a `font-size` to points;
- `float()` on a length;
- the percentage font-size arithmetic of `style`.

Geometry is `real`.

**Parse errors.** A `ParsingError` is an `Err` result. It carries what was
expected, the cursor at which it was raised, and the context text that the
warning quotes.

## Model

| member | source | states |
|---|---|---|
| Css.Priority | baby_browser/css.py:7-8 | a selector's priority is at least 1 |
| Css.PriorityCountsTags | baby_browser/css.py:25-29 | a descendant selector's priority is the sum of its parts, so a selector's priority is the number of tag names in it |
| Css.Match | baby_browser/css.py:14-40 | a tag selector matches exactly the elements with an equal tag; a descendant selector matches iff its descendant part matches the node and its ancestor part matches some strict ancestor, found by walking up from the parent |
| Css.MatchesOnlyElements | baby_browser/css.py:18-19 | only elements match, and only when their tag is the selector's last tag name |
| Css.ChainNeedsAncestors | baby_browser/css.py:31-40 | a selector of n words matches only a node with at least n - 1 ancestors |
| Css.Chain | baby_browser/css.py:140-151 | the selector built from words w1 … wn is a left-nested chain of descendant selectors whose tag names are exactly w1 … wn |
| Css.LowerWordIsName | baby_browser/css.py:107 | a lower-cased word is still a word, and has no upper-case letter |
| Css.ErrorAt | baby_browser/css.py:63-67 | an error records what was expected and the cursor; the context is the ten characters just before the cursor, or the first ten of the source while the cursor is below ten |
| Css.CSSParser.CreateError | baby_browser/css.py:63-67 | the error is raised at the current cursor, with what was expected |
| Css.CSSParser.constructor | baby_browser/css.py:59-61 | a new parser holds the source, with the cursor at 0 |
| Strings.SpaceEnd | baby_browser/css.py:73-75 | the first non-space index at or after the cursor; everything skipped is space |
| Css.CSSParser.Whitespace | baby_browser/css.py:73-75 | `_whitespace` moves the cursor past the run of spaces and no further |
| Css.WordEnd | baby_browser/css.py:84-88 | the end of the maximal run of word characters (alphanumerics and `#-.%`) at the cursor |
| Css.WordAt | baby_browser/css.py:81-93 | `_word` succeeds iff the character at the cursor is a word character; on success the word is the maximal non-empty run there, and the cursor moves past exactly it; on failure the error is at the unchanged cursor |
| Css.LiteralAt | baby_browser/css.py:95-99 | `_literal(c)` succeeds iff the character at the cursor is `c`; it then moves the cursor by exactly one, and otherwise leaves it where it was and raises the error for `c` at that cursor |
| Css.CSSParser.Word | baby_browser/css.py:81-93 | the method returns what `WordAt` describes and leaves the cursor where `WordAt` says |
| Css.CSSParser.Literal | baby_browser/css.py:95-99 | `_literal(c)` succeeds iff the character at the cursor is `c`, and then advances the cursor by exactly one; otherwise it raises an error, leaving the cursor unchanged |
| Css.PairAt | baby_browser/css.py:101-107 | on success the property name is the word at the cursor, lower-cased, and the value is a word; the cursor has moved forward; the error's index is the cursor it leaves |
| Css.PairAtShape | baby_browser/css.py:101-107 | `_pair` succeeds iff a word starts at the cursor, a `:` follows it after whitespace, and a word starts after the `:` and the whitespace after it; the value is then exactly that word, verbatim, and the cursor is left right after it |
| Css.CSSParser.Pair | baby_browser/css.py:101-107 | the method returns what `PairAt` describes, with the same cursor |
| Css.SkipUntil | baby_browser/css.py:109-114 | `_ignore_until` stops on the first character that is one of `chars` and returns it; it returns None only at the end of the input; every character skipped is not in `chars` |
| Css.CSSParser.IgnoreUntil | baby_browser/css.py:109-114 | the method returns what `SkipUntil` describes, with the same cursor |
| Css.BodyRecover | baby_browser/css.py:127-136 | rule-body recovery skips every character that is neither `;` nor `}`; the loop goes on iff it reaches a `;`, which is consumed together with the whitespace after it; at `}` or the end of the input the body stops there, without consuming the `}`; the declarations are unchanged |
| Css.BodyStep | baby_browser/css.py:119-136 | one pass of the `parse_rule_body` loop either consumes input and goes on, or stops at `}` or the end of input; every property it stores is a lower-cased word with a word value; no earlier entry is lost |
| Css.PairStored | baby_browser/css.py:121-126 | a declaration that is read is stored even when its `;` is missing; a malformed one stores nothing |
| Css.RuleBodyFrom | baby_browser/css.py:116-138 | the `parse_rule_body` loop ends at `}` (not consumed) or at the end of the input, never before its start, and keeps the entries it was given |
| Css.RuleBody | baby_browser/css.py:116-138 | `parse_rule_body` ends at `}` or the end of input; every property is a lower-cased word and every value a word |
| Css.RuleBodyIsDeclarations | baby_browser/css.py:119-122 | the body is its declarations, read in source order, stored into the dict one after the other |
| Css.LastDeclarationWins | baby_browser/css.py:122 | a repeated property keeps the value of its last declaration |
| Css.ApplyKeeps | baby_browser/css.py:122 | a property no declaration mentions keeps its entry, or stays absent |
| Css.CSSParser.ParseRuleBody | baby_browser/css.py:116-138 | the method returns the dict `RuleBody` describes, with the same cursor |
| Css.SelectorLoop | baby_browser/css.py:145-149 | the `_selector` loop reads words until `{` or the end of the input, keeping the words before it as a prefix, each word it adds being a lower-cased word; an error carries the cursor it leaves |
| Css.SelectorLoopWords | baby_browser/css.py:145-149 | on success the words the loop adds are exactly `split()` of the text it consumed, each lower-cased, in order |
| Css.SelectorAt | baby_browser/css.py:140-151 | a selector is a left-nested chain of tag selectors whose first tag is the first word lower-cased and whose every tag is a lower-cased word (a `.` stays in the tag name); it ends at `{` or the end of input, after the start |
| Css.SelectorWords | baby_browser/css.py:140-151 | the tags of a parsed selector are exactly the whitespace-separated words of the text it was read from, each lower-cased, in order, so their number is the number of words |
| Css.CSSParser.ParseSelector | baby_browser/css.py:140-151 | the method returns what `SelectorAt` describes, building the chain while it reads |
| Css.RuleAt | baby_browser/css.py:157-166 | a rule that parses consumes input; a failure's error index is the cursor it leaves |
| Css.CssRecover | baby_browser/css.py:167-176 | after a malformed rule no rule is added; the loop goes on iff a `}` follows; then the first such `}` is consumed with the whitespace after it; otherwise the parser stops at the end of the input |
| Css.CssStep | baby_browser/css.py:156-176 | one pass of the `parse_css` loop consumes input and goes on, or stops at the end of the input; the rules read before stay at the front and at most one rule is added |
| Css.CssFrom | baby_browser/css.py:153-178 | the `parse_css` loop always ends at the end of the input, and the rules read earlier stay, in order, in front of the later ones |
| Css.CssFromRules | baby_browser/css.py:153-178 | the rules the `parse_css` loop appends are the rules at a chain of cursors: the first is the first cursor from the start where a rule parses, skipping each malformed rule up to the `}` after it; each next one is the first such cursor after the end of the rule before; no rule parses after the last one; they come in source order |
| Css.RulesReadDetermined | baby_browser/css.py:153-178 | that chain is unique: two readings of the rules from the same cursor are the same list, so the description in `CssFromRules` fixes the result |
| Css.ParseStylesheet | baby_browser/css.py:153-178 | `CSSParser(s).parse_css()` returns the rules at the chain of cursors `CssFromRules` describes, from cursor 0: none dropped, none added, in source order |
| Css.PairOfDeclaration | baby_browser/css.py:101-107 | a declaration `name: value` with one space after the colon is read as the lower-cased name and the verbatim value, with the cursor after the value |
| Css.OneDeclarationBody | baby_browser/css.py:116-138 | a body holding one declaration without `;`, then only whitespace up to `}` or the end, is the dict of that one pair, and stops at the `}` |
| Css.BodyOfDeclaration | baby_browser/css.py:116-138 | for any words `name` and `value`, `parse_rule_body` of `name: value` is the dict mapping the lower-cased name to the value, and consumes the whole text |
| Css.RuleOfOneDeclaration | baby_browser/css.py:157-166 | a text laid out as `tag { name: value }` is one rule: the tag selector and that one declaration, ending at the end of the text |
| Css.StylesheetOfOneRule | baby_browser/css.py:153-178 | a text that is exactly one rule is a stylesheet of that rule alone |
| Css.StylesheetOfRule | baby_browser/css.py:153-178 | for any words `tag`, `name` and `value`, `parse_css` of `tag { name: value }` is the one rule with the lower-cased tag and the dict mapping the lower-cased name to the value |
| Css.ExampleRuleBody | baby_browser/css.py:182 | `CSSParser("background-image: #abcdef").parse_rule_body()` is `{"background-image": "#abcdef"}`, with the cursor at the end |
| Css.ExampleStylesheet | baby_browser/css.py:183 | `CSSParser("div { background-image: #abcdef }").parse_css()` is the one rule with tag selector `div` and body `{"background-image": "#abcdef"}` |
| Css.CSSParser.ParseCss | baby_browser/css.py:153-178 | the method leaves the cursor at the end of the input and returns the rules `CssFrom` describes |
| Strings.LowerChar | baby_browser/css.py:107 | a lower-cased character is not upper-case, and is alphanumeric iff the original is |
| Strings.Lower | baby_browser/css.py:107 | `lower` keeps the length and lower-cases each character in place |
| Strings.LowerIsLowerCase | baby_browser/css.py:107 | the result of `lower` has no upper-case letter, and lower-casing twice is lower-casing once |
| Strings.RunEnd | baby_browser/browser.py:243 | the end of the run of non-space characters at the cursor |
| Strings.Split | baby_browser/browser.py:243 | `split()` yields only non-empty words without spaces |
| Strings.SplitJoins | baby_browser/browser.py:243 | the words of `split()` written one after the other are the text with its spaces taken out: no other character is lost, added or reordered |
| Strings.SplitCountsRuns | baby_browser/browser.py:243 | `split()` yields exactly as many words as there are positions where a run of non-space characters starts |
| Strings.SplitSkipSpaces | baby_browser/browser.py:243 | leading spaces add nothing to `split()` |
| Strings.SplitCons | baby_browser/browser.py:243 | a leading run of non-spaces that ends at a space or at the end is the first word of `split()`, and the other words are `split()` of the text after it; with `SplitSkipSpaces` and `SplitOfRun` this makes the words the maximal runs of non-spaces, in order |
| Strings.SplitOfRun | baby_browser/browser.py:243 | text made only of spaces splits into nothing; a single run without spaces splits into itself |
| Cascade.SeedFromEntries | baby_browser/browser.py:76-80 | after k passes of the first loop of `style`, the map holds exactly the first k inherited properties, each with the parent's value or the default |
| Cascade.SeedEntries | baby_browser/browser.py:64-80 | a node starts with exactly the five inherited properties, each the parent's value or, at the root, the `INHERITED_PROPERTIES` default |
| Cascade.SeedStyle | baby_browser/browser.py:76-80 | the first loop builds that seed |
| Cascade.Cascaded | baby_browser/browser.py:82-87 | overlaying rule bodies never removes a property |
| Cascade.ApplyRules | baby_browser/browser.py:82-87 | the second loop overlays the bodies of the matching rules in list order |
| Cascade.InlineStyle | baby_browser/browser.py:89-91 | an element's `style` attribute is parsed as a rule body (an absent value as ""); other nodes have no inline declarations |
| Cascade.Declared | baby_browser/browser.py:74-91 | before percentages, a node's map has every inherited property |
| Cascade.ResolveFontSize | baby_browser/browser.py:93-102 | only a `font-size` ending in `%` is rewritten, by scaling against the parent's font size (the default at the root); every other entry is kept |
| Cascade.ResolvePercentage | baby_browser/browser.py:93-102 | the last step of `style` computes that resolution |
| Cascade.NodeStyle | baby_browser/browser.py:74-102 | a node's resolved map has every inherited property |
| Cascade.ComputeStyle | baby_browser/browser.py:74-102 | the per-node part of `style` computes the seed, then the rules, then the inline declarations, then the percentage |
| Cascade.Style | baby_browser/browser.py:73-105 | `style` computes the restyled tree of `StyleTree` |
| Cascade.StyleChildren | baby_browser/browser.py:104-105 | each child, in order, is styled below the parent's resolved map |
| Cascade.StyleTree | baby_browser/browser.py:73-105 | the tree `style` leaves: each node carries the map `NodeStyle` computes from its path and its parent's map, and its children are styled in order below it |
| Cascade.Winner | baby_browser/browser.py:82-87 | the index of the last rule that matches and declares the property; no later rule does both |
| Cascade.CascadedValue | baby_browser/browser.py:82-87 | a property gets the value of the last matching rule that declares it, or keeps the seed's value when none does |
| Cascade.NonMatchingRuleChangesNothing | baby_browser/browser.py:82-84 | a rule that does not match can be dropped from the list without changing the node's map |
| Cascade.ResolvedValue | baby_browser/browser.py:74-91 | for a property other than `font-size` the inline declaration wins over every rule, and a rule over the inherited value; a property nothing sets is absent |
| Cascade.ResolvedFontSize | baby_browser/browser.py:89-102 | the font size is the inline, else the winning rule's, else the inherited value; a value ending in `%` is replaced by its scaling against the parent's |
| Cascade.StyleTreeProperties | baby_browser/browser.py:73-105 | `style` keeps the tree's shape and gives every node every inherited property; each node's map is computed before its children's, which inherit from it |
| Cascade.InsertByPriority | baby_browser/browser.py:448-452 | inserting a rule into a sorted list keeps it sorted, and the result is a permutation of the list plus the rule |
| Cascade.SortByPriority | baby_browser/browser.py:448-452 | `sorted(rules, key=cascade_priority)` is sorted by priority and is a permutation of the rules |
| Cascade.SortIsStable | baby_browser/browser.py:448-452 | the sort is stable: the rules of each priority keep their relative order |
| Cascade.DefaultsFirstAmongEqualPriority | baby_browser/browser.py:435-452 | among rules of equal priority, the default sheet's come first, then each linked sheet's in order |
| Cascade.PageRules | baby_browser/browser.py:435-452 | the rules `load_page` passes to `style` are sorted by priority and are a permutation of the default sheet followed by the linked sheets' rules |
| Cascade.LinkedRules | baby_browser/browser.py:438-446 | the rules of the linked sheets, each parsed with `parse_css`, sheet after sheet |
| Cascade.LinkedRulesFromSheets | baby_browser/browser.py:438-446 | a rule is among the linked rules exactly when some linked sheet parses to a list holding it |
| Fonts.Font.constructor | baby_browser/fonts.py:15 | a font remembers the key it was built for |
| Fonts.FontCache.constructor | baby_browser/fonts.py:8 | the cache starts empty |
| Fonts.FontCache.GetFont | baby_browser/fonts.py:11-18 | afterwards the key is cached and the returned font is the cached one. On a hit nothing changes. On a miss exactly one new font is added, under that key |
| Fonts.FontCache.GetFontTwice | baby_browser/fonts.py:11-18 | two calls with the same key return the very same object; every earlier entry stays unchanged, and the cache gains at most that key |
| Layout.FontOf | baby_browser/browser.py:268-277 | the font key takes its family and weight from the style and its size from the converted font size; a "normal" font style becomes the slant "roman", and any other style is kept as the slant |
| Layout.LayoutSpec | baby_browser/browser.py:127-170 | a box sits at its parent's x and at the given top edge, with its explicit width or else its parent's |
| Layout.ChildBoxes | baby_browser/browser.py:196-213 | there is one box per remaining child |
| Layout.PaintBox | baby_browser/browser.py:172-194 | `paint` appends exactly the commands of `PaintSpec` to the list, after what it already held |
| Layout.FlushSpec | baby_browser/browser.py:215-239 | after `_flush_line` the line is empty and the display list has grown by exactly one command per pending word |
| Layout.RenderWordSpec | baby_browser/browser.py:255-266 | the state after `_render_word`: flush first when the word does not fit, then the word joins the line at `cursor_x` and `cursor_x` moves by the word and a space; its properties are `LayoutProps.RenderWordPlacement` and `RenderWordOk` |
| Layout.RenderTreeSpec | baby_browser/browser.py:241-253 | the state after `_render_tree`: text word by word, a hidden element nothing, a `br` a flush before its children; its properties are `LayoutProps.RenderTreeOk` |
| Layout.InlineSpec | baby_browser/browser.py:158-165 | inline layout renders the subtree from an empty line at the box's origin and flushes the last line; its properties are `LayoutProps.InlineEnds` and `InlineBox` |
| Layout.PaintSpec | baby_browser/browser.py:172-194 | the commands `paint` emits: the background rect and the inline commands of the box, then each child's in order; its properties are `LayoutProps.PaintRectFirst`, `PaintChildBlock` and `PaintOnlyChildren` |
| Layout.DisplayList.constructor | baby_browser/browser.py:457-458 | the list handed to `paint` starts empty |
| Layout.BlockLayout.constructor | baby_browser/browser.py:115-125 | a new layout object has its node, parent and previous sibling, and no children |
| Layout.BlockLayout.Layout | baby_browser/browser.py:127-170 | `layout` leaves the object holding the box `LayoutSpec` describes, with its top edge below the previous sibling or at the parent's top |
| Layout.BlockLayout.Place | baby_browser/browser.py:127-150 | the display list is emptied; x comes from the parent and y from the previous sibling's bottom or the parent's top; width is the explicit or the parent's; height is the explicit height or 0 |
| Layout.BlockLayout.LayoutInline | baby_browser/browser.py:158-168 | inline mode renders the subtree from an empty line and flushes the last line; the height is the explicit height when it is not 0, else the final `cursor_y` |
| Layout.BlockLayout.LayoutIntermediate | baby_browser/browser.py:196-213 | the children are the stacked boxes of the node's children, or none when the node's own tag is hidden |
| Layout.BlockLayout.CreateChildren | baby_browser/browser.py:197-210 | one fresh layout object per child, in order, each linked to the one before, or none at all when the parent's tag is hidden |
| Layout.BlockLayout.LayoutChildren | baby_browser/browser.py:212-213 | laying the objects out in order yields the stacked child boxes |
| Layout.BlockLayout.LayoutChild | baby_browser/browser.py:212-213 | laying out one child yields the next of the stacked boxes, and the ones after it start at its bottom edge |
| Layout.BlockLayout.RenderTree | baby_browser/browser.py:241-253 | `_render_tree` changes the cursor, the line and the display list as `RenderTreeSpec` describes: text is rendered word by word, a hidden element renders nothing, and `br` flushes first |
| Layout.BlockLayout.RenderWord | baby_browser/browser.py:255-266 | `_render_word` changes the state as `RenderWordSpec` describes |
| Layout.BlockLayout.FlushLine | baby_browser/browser.py:215-239 | `_flush_line` changes the state as `FlushSpec` describes |
| Layout.BlockLayout.DrawLine | baby_browser/browser.py:230-235 | the loop of `_flush_line` appends one text command per pending word, in line order |
| Layout.BlockLayout.Paint | baby_browser/browser.py:172-194 | painting a layout object appends the commands of its box |
| Layout.DocumentLayout.constructor | baby_browser/browser.py:281-284 | a new document has its root node and no children |
| Layout.DocumentLayout.Layout | baby_browser/browser.py:286-299 | the document is at x 13 and y 18, with width viewport − 2·13 − 15; it always holds exactly one fresh child laid out for the root at that frame; its height is the child's height plus 2·18 |
| Layout.DocumentLayout.Paint | baby_browser/browser.py:301-302 | the document paints exactly its one child's commands |
| LayoutProps.ChildBoxAt | baby_browser/browser.py:131-144 | child box k belongs to child k, sits at the parent's x, and has the child's own width or the parent's |
| LayoutProps.FirstChildBoxTop | baby_browser/browser.py:134-136 | the first child box starts at the parent's top edge |
| LayoutProps.ChildBoxStacked | baby_browser/browser.py:134-136 | every later child box starts where the one before it ends |
| LayoutProps.StackedBottom | baby_browser/browser.py:157 | a stack of boxes ends the sum of their heights below the top of the first |
| LayoutProps.BlockBox | baby_browser/browser.py:154-157 | a block box draws no text of its own, and its height is the sum of its children's whatever its style says. A block box with a hidden tag has no children and height 0. Otherwise it has one box per child, in order, stacked from its top edge down to its bottom edge |
| LayoutProps.UnsupportedBox | baby_browser/browser.py:169-170 | a box of an unsupported mode has no children and no text, keeps its explicit height or 0, and paints at most its background |
| LayoutProps.InlineBox | baby_browser/browser.py:158-168 | an inline box has no child boxes, and its line is empty at the end; its height is the explicit one when that is not 0, else the final `cursor_y`, which is not negative |
| LayoutProps.MaxMetricBounds | baby_browser/browser.py:220-228 | the maximum ascent (or descent) of a line is at least every word's and equal to one of them, so it is not negative when the metrics are not |
| LayoutProps.LineCommandsAt | baby_browser/browser.py:230-235 | one `DrawText` per pending word, in order, at the box's x plus the word's x and at the box's y plus the baseline minus the word's ascent |
| LayoutProps.FlushEffect | baby_browser/browser.py:215-239 | flushing an empty line is a no-op. Otherwise the text commands are appended after the old display list, the line is cleared, `cursor_x` goes back to 0, and `cursor_y` becomes the baseline (`cursor_y` + 1.25 · max ascent) plus 1.25 · max descent |
| LayoutProps.FlushBelowCursor | baby_browser/browser.py:219-238 | with non-negative metrics the baseline is not above the old cursor, the next line starts at or below the baseline, and every drawn word's top is at or below the line's top |
| LayoutProps.FlushOk | baby_browser/browser.py:215-239 | flushing leaves an empty line with `cursor_x` 0, never moves the cursor up, and only appends to the display list |
| LayoutProps.RenderWordPlacement | baby_browser/browser.py:255-266 | the line is flushed exactly when `cursor_x` plus the word's width exceeds the box width. A word that fits joins the line at `cursor_x`; one that does not starts a new line alone at x 0. `cursor_x` then moves past the word and one space |
| LayoutProps.WideWordAlone | baby_browser/browser.py:260-264 | a word wider than the box always sits alone at x 0 |
| LayoutProps.RenderWordOk | baby_browser/browser.py:255-266 | after a word the line is not empty; an empty line always has `cursor_x` 0; the cursor never moves up; drawn text is never taken back |
| LayoutProps.RenderWordsOk | baby_browser/browser.py:242-244 | the same holds for every word of a text node |
| LayoutProps.RenderTreeOk | baby_browser/browser.py:241-253 | the same holds for `_render_tree` over any subtree |
| LayoutProps.RenderChildrenOk | baby_browser/browser.py:252-253 | the same holds for the children rendered in order |
| LayoutProps.InlineEnds | baby_browser/browser.py:158-165 | after inline layout the line is empty, `cursor_x` is 0 and `cursor_y` is not negative |
| LayoutProps.PaintRectFirst | baby_browser/browser.py:173-182 | when the background is not "transparent", the box's first command is a `DrawRect` from (x, y) to (x + width, y + height) in that colour |
| LayoutProps.PaintChildBlock | baby_browser/browser.py:184-194 | painter's order: a box paints its own commands first, then the children before child k, then child k's commands as one block, then the children after it |
| LayoutProps.PaintOnlyChildren | baby_browser/browser.py:184-194 | a transparent box that is not inline paints only its children's commands, in order |
| Networking.IndexOf | baby_browser/networking.py:28 | the index of the first occurrence of a character, or -1 when it does not occur |
| Networking.SplitOnce | baby_browser/networking.py:28 | `split("/", 1)` gives one part (the whole text) iff there is no `/`, else the text before the first `/` and the rest; the first part has no `/` |
| Networking.ParseUrl | baby_browser/networking.py:23-31 | parsing succeeds iff the URL starts with "http://"; the result has scheme "http", port 80, a host without `/`, and a path that starts with `/` |
| Networking.ParseUrlRoundTrip | baby_browser/networking.py:26-31 | "http://" + host + path is the input when the rest contains `/`; otherwise the host is the whole rest and the path is "/", so the result is the input plus "/" |
| Networking.JoinWithTwoEmpty | baby_browser/networking.py:35 | joining the lines followed by two empty strings terminates every line with the separator and adds one more |
| Networking.RequestTextShape | baby_browser/networking.py:34-35 | the request is every line followed by CRLF, then one more CRLF; no lines give a single CRLF |
| Networking.EncodeHttpRequest | baby_browser/networking.py:34-35 | `_encode_http_request` is the UTF-8 encoding of every line followed by CRLF, then the bytes 13, 10 of one more CRLF |
| Networking.EncodeChar | baby_browser/networking.py:35 | a character encodes to 1 to 4 UTF-8 bytes; an ASCII character encodes to exactly one byte, its code |
| Networking.Encode | baby_browser/networking.py:35 | the encoding has at least one byte per character |
| Networking.EncodeAppend | baby_browser/networking.py:35 | encoding distributes over concatenation |
| Networking.EncodeAscii | baby_browser/networking.py:35 | ASCII text encodes to one byte per character, its code |
| Networking.EncodedRequestEnds | baby_browser/networking.py:34-35 | the encoded request ends with the bytes 13, 10, and is exactly those two bytes for no lines |
| Html.RenderHtml | baby_browser/html.py:1-10 | the scan with the `in_tag` flag prints the text `Strip` describes |
| Html.Strip | baby_browser/html.py:4-10 | the text the scan prints from a starting flag: never longer than the input |
| Html.NoBrackets | baby_browser/html.py:4-10 | the output never contains `<` or `>` |
| Html.OutputIsSubsequence | baby_browser/html.py:4-10 | the output is the input with some characters left out, in order |
| Html.PlainTextUnchanged | baby_browser/html.py:9-10 | text with neither `<` nor `>` is printed unchanged |
| Html.ScanAppend | baby_browser/html.py:4-10 | scanning a + b is scanning a, then b from the flag a left |
| Html.InsideTag | baby_browser/html.py:5-8 | from a `<` the flag stays set and nothing is printed until a `>` |
| Html.TagDropped | baby_browser/html.py:5-8 | everything from a `<` to the next `>` is dropped, however many `<` it holds |
| Html.UnclosedTagDropsRest | baby_browser/html.py:5-6 | an unclosed `<` drops the rest of the input |
| Utils.PreOrder | baby_browser/utils.py:33-36 | the pre-order of a tree starts with its root |
| Utils.TreeToList | baby_browser/utils.py:33-37 | `tree_to_list` returns the very list it was given, with its previous contents followed by the tree's nodes in pre-order |
| Utils.NodeList.constructor | baby_browser/utils.py:33 | the list handed to `tree_to_list` holds the given items |
| Utils.PreOrderLength | baby_browser/utils.py:34-36 | one entry is appended per node of the tree |
| Utils.SubtreeInChildren | baby_browser/utils.py:35-36 | within the children's part, the subtree of child k is one block, after the subtrees of the children before it |
| Utils.ChildSubtreeFollows | baby_browser/utils.py:34-36 | the root comes first, and the subtree of child k follows as one block after the subtrees of the children before it |
| Utils.NextSubtreeStarts | baby_browser/utils.py:35-36 | the block of child k + 1 starts right where the block of child k ends |

## Left out

- Logging and `print`: the warnings of the parser, the layout's "Unsupported display mode" and the `print("Skipped head")` of `_layout_intermediate` are side effects with no result, so they are left out. `render_html` prints its output; here the printed text is returned.
- Unicode: `isalnum` and `lower` are modelled on ASCII letters and digits only, because Dafny has no Unicode character database. `isspace` follows Python's list of whitespace characters.
- Floating point: geometry is `real`. Rounding, and the `sum(..., 0.0)` left fold, are exact here.
- Layout.Env: `float()` on widths and heights, the conversion of a `font-size` to points, and the percentage arithmetic of `style` are parameters, because they parse and format floats. A non-numeric length, which makes the source raise, is not modelled.
- Layout.Env: `get_layout_mode`, `HIDDEN_ELEMENTS`, the markup tree builder and the `Node`/`Element`/`Text` classes are not part of this model, because html.py does not define them. The tree is the datatype `Dom.Node`, and the mode and the hidden tags are parameters.
- Font metrics: tkinter's `measure`, `ascent` and `descent` are parameters. The lemmas that need them non-negative say so with `ValidMetrics`.
- Fonts: tkinter's `Font` constructor is opaque; a `Font` only remembers its key. Layout draws with font keys and does not thread the cache through, because the key fixes the font the cache hands back.
- Parent pointers: selector matching and `style` take the path from the node up to the root instead of `node.parent`.
- Cascade.Style: it returns the restyled tree rather than writing `node.style` in place. The tree is a value here, so the in-place pass and the returned tree hold the same maps.
- Layout.BlockLayout: the object keeps each laid-out child as an immutable `Box` snapshot, not a live `BlockLayout`, and its parent as a `Frame` (x, y, width) snapshot. Aliasing between layout objects and later re-layout of a child are not modelled.
- Layout.BlockLayout.Layout: it requires a fresh object (`children == []`) and a fully styled tree (`AllStyled`). The source lays each object out once, after `style` has run. Its ensures does not state the `cursor_y`, `cursor_x` and line fields that inline layout leaves behind; LayoutProps.InlineEnds states them on the specification.
- Draw commands: `DrawText` keeps the `color` that browser.py:234 passes. layout/commands.py declares no such field, so as written the call at browser.py:234 would raise a TypeError for every non-empty line; the model follows the evident intent of browser.py. `DrawText.bottom` depends on tkinter metrics and is left out, as are the `execute` methods.
- The `Browser` class: the window, the scrolling, the viewport culling in `draw` and the scrollbar are UI, so they are left out.
- `_load_page_content`, `fetch`, the link collection of `load_page` and `main.py` are file and socket I/O, so they are left out. A linked stylesheet appears here as its text, in `Cascade.PageRules`.
- `format_bytes` and `timed` in utils.py are left out: they are float formatting and clock reads.
