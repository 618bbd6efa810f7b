/**
 * The style cascade of baby_browser/browser.py: `style` assigns every node
 * of the tree its resolved style map, in pre-order, and `load_page` hands
 * it the rules stably sorted by selector priority.
 *
 * `style` overwrites each node's map in place; here it returns the tree
 * with every node's map replaced, which is what the in-place pass leaves
 * behind. The ancestors a selector needs are passed down as a path.
 */
module Cascade {
  import opened Wrappers
  import opened Strings
  import opened Dom
  import opened Css

  /** `INHERITED_PROPERTIES`, in the order the dict lists them. */
  const InheritedProperties: seq<(string, string)> := [
    ("font-family", "Times"),
    ("font-size", "16px"),
    ("font-style", "normal"),
    ("font-weight", "normal"),
    ("color", "black")
  ]

  const InheritedNames: set<string> := {"font-family", "font-size", "font-style", "font-weight", "color"}

  /** The default of an inherited property. */
  function DefaultOf(p: string): string
    requires p in InheritedNames
  {
    if p == "font-family" then "Times"
    else if p == "font-size" then "16px"
    else if p == "color" then "black"
    else "normal"
  }

  /** Every inherited property is present. */
  predicate HasInherited(st: Style) {
    InheritedNames <= st.Keys
  }

  /** Every node of the tree has every inherited property. */
  predicate AllStyled(n: Node)
    decreases n
  {
    HasInherited(n.style) && forall k | 0 <= k < |Children(n)| :: AllStyled(Children(n)[k])
  }

  // ---------------------------------------------------------------------
  // One node
  // ---------------------------------------------------------------------

  /** The first `k` entries of the inherited seed: the parent's values, or the defaults at the root. */
  function SeedFrom(parent: Option<Style>, k: nat): Style
    requires k <= |InheritedProperties|
    requires parent.Some? ==> HasInherited(parent.value)
  {
    if k == 0 then map[]
    else
      var (p, d) := InheritedProperties[k - 1];
      SeedFrom(parent, k - 1)[p := if parent.Some? then parent.value[p] else d]
  }

  /** The map a node starts from: the five inherited properties, copied from the parent or defaulted. */
  function Seed(parent: Option<Style>): Style
    requires parent.Some? ==> HasInherited(parent.value)
  {
    SeedFrom(parent, |InheritedProperties|)
  }

  /** The names of the first `k` inherited properties. */
  function NamesUpTo(k: nat): set<string>
    requires k <= |InheritedProperties|
  {
    if k == 0 then {} else NamesUpTo(k - 1) + {InheritedProperties[k - 1].0}
  }

  /** The first `k` seed entries hold exactly the first `k` inherited properties, each the parent's value or its default. */
  lemma {:induction false} SeedFromEntries(parent: Option<Style>, k: nat)
    requires k <= |InheritedProperties|
    requires parent.Some? ==> HasInherited(parent.value)
    ensures SeedFrom(parent, k).Keys == NamesUpTo(k) && NamesUpTo(k) <= InheritedNames
    ensures forall p | p in SeedFrom(parent, k) ::
      SeedFrom(parent, k)[p] == if parent.Some? then parent.value[p] else DefaultOf(p)
  {
    if k > 0 {
      SeedFromEntries(parent, k - 1);
      InheritedDefaults();
    }
  }

  /** The seed holds exactly the inherited properties, each the parent's value or its default. */
  lemma SeedEntries(parent: Option<Style>)
    requires parent.Some? ==> HasInherited(parent.value)
    ensures Seed(parent).Keys == InheritedNames
    ensures forall p | p in InheritedNames :: Seed(parent)[p] == if parent.Some? then parent.value[p] else DefaultOf(p)
  {
    SeedFromEntries(parent, 5);
    assert NamesUpTo(5) == InheritedNames;
  }

  /** Each entry of the table pairs an inherited property with its default. */
  lemma InheritedDefaults()
    ensures forall j | 0 <= j < |InheritedProperties| ::
      InheritedProperties[j].0 in InheritedNames && InheritedProperties[j].1 == DefaultOf(InheritedProperties[j].0)
  {
    assert InheritedProperties[0] == ("font-family", DefaultOf("font-family"));
    assert InheritedProperties[1] == ("font-size", DefaultOf("font-size"));
    assert InheritedProperties[2] == ("font-style", DefaultOf("font-style"));
    assert InheritedProperties[3] == ("font-weight", DefaultOf("font-weight"));
    assert InheritedProperties[4] == ("color", DefaultOf("color"));
  }

  /** The map after overlaying, in list order, the bodies of the rules that match. */
  function Cascaded(seed: Style, rules: seq<Rule>, path: seq<Node>): (st: Style)
    requires |path| > 0
    ensures seed.Keys <= st.Keys
    decreases |rules|
  {
    if rules == [] then seed
    else
      var st := Cascaded(seed, rules[..|rules| - 1], path);
      var r := rules[|rules| - 1];
      if Matches(r.selector, path) then st + r.body else st
  }

  /** The declarations of an element's `style` attribute (an absent value reads as ""), or none. */
  function InlineDeclarations(n: Node): map<string, string> {
    if n.Element? && "style" in n.attributes then RuleBody(n.attributes["style"].GetOr(""), 0).0
    else map[]
  }

  predicate EndsWithPercent(v: string) {
    |v| > 0 && v[|v| - 1] == '%'
  }

  /** The map of node `path[0]` before percentages: the seed, the matching rules, then the inline declarations. */
  function Declared(path: seq<Node>, parent: Option<Style>, rules: seq<Rule>): (st: Style)
    requires |path| > 0
    requires parent.Some? ==> HasInherited(parent.value)
    ensures HasInherited(st)
  {
    SeedEntries(parent);
    Cascaded(Seed(parent), rules, path) + InlineDeclarations(path[0])
  }

  /**
   * A percentage font size resolved against the parent's (or the default)
   * font size by `scale`, which stands for the float arithmetic and
   * formatting of browser.py:99-102; any other font size is kept.
   */
  function ResolveFontSize(st: Style, parent: Option<Style>, scale: (string, string) -> string): (r: Style)
    requires HasInherited(st)
    requires parent.Some? ==> HasInherited(parent.value)
    ensures r.Keys == st.Keys
    ensures forall p | p in st && p != "font-size" :: r[p] == st[p]
    ensures !EndsWithPercent(st["font-size"]) ==> r == st
  {
    if EndsWithPercent(st["font-size"]) then
      var parentSize := if parent.Some? then parent.value["font-size"] else DefaultOf("font-size");
      st["font-size" := scale(st["font-size"], parentSize)]
    else
      st
  }

  /** The resolved map of node `path[0]`. */
  function NodeStyle(path: seq<Node>, parent: Option<Style>, rules: seq<Rule>, scale: (string, string) -> string): (st: Style)
    requires |path| > 0
    requires parent.Some? ==> HasInherited(parent.value)
    ensures HasInherited(st)
  {
    ResolveFontSize(Declared(path, parent, rules), parent, scale)
  }

  // ---------------------------------------------------------------------
  // The tree
  // ---------------------------------------------------------------------

  /** `style(node, rules)`: the node with its resolved map, and its children styled below it. */
  function StyleTree(n: Node, ancestors: seq<Node>, parent: Option<Style>, rules: seq<Rule>, scale: (string, string) -> string): (r: Node)
    requires parent.Some? ==> HasInherited(parent.value)
    decreases n
  {
    var st := NodeStyle([n] + ancestors, parent, rules, scale);
    match n
    case Element(tag, attributes, children, _) =>
      Element(tag, attributes,
        seq(|children|, k requires 0 <= k < |children| => StyleTree(children[k], [n] + ancestors, Some(st), rules, scale)),
        st)
    case Text(text, _) => Text(text, st)
  }

  /** The first loop of `style`: each inherited property from the parent, or its default at the root. */
  method SeedStyle(parent: Option<Style>) returns (st: Style)
    requires parent.Some? ==> HasInherited(parent.value)
    ensures st == Seed(parent)
  {
    st := map[];
    for k := 0 to |InheritedProperties|
      invariant st == SeedFrom(parent, k)
    {
      var (p, d) := InheritedProperties[k];
      st := st[p := if parent.Some? then parent.value[p] else d];
    }
  }

  /** The second loop of `style`: the body of every matching rule, in list order. */
  method ApplyRules(seed: Style, rules: seq<Rule>, path: seq<Node>) returns (st: Style)
    requires |path| > 0
    ensures st == Cascaded(seed, rules, path)
  {
    st := seed;
    for i := 0 to |rules|
      invariant st == Cascaded(seed, rules[..i], path)
    {
      var m := Match(rules[i].selector, path);
      assert rules[..i + 1][..i] == rules[..i];
      if m {
        st := st + rules[i].body;
      }
    }
    assert rules[..|rules|] == rules;
  }

  /** The third step of `style`: the declarations of the `style` attribute, parsed as a rule body. */
  method InlineStyle(n: Node) returns (inline: map<string, string>)
    ensures inline == InlineDeclarations(n)
  {
    inline := map[];
    if n.Element? && "style" in n.attributes {
      var parser := new CSSParser(n.attributes["style"].GetOr(""));
      inline := parser.ParseRuleBody();
    }
  }

  /** The last step of `style`: a font size ending in `%` scaled against the parent's. */
  method ResolvePercentage(declared: Style, parent: Option<Style>, scale: (string, string) -> string) returns (st: Style)
    requires HasInherited(declared)
    requires parent.Some? ==> HasInherited(parent.value)
    ensures st == ResolveFontSize(declared, parent, scale)
  {
    st := declared;
    if EndsWithPercent(st["font-size"]) {
      var parentSize := if parent.Some? then parent.value["font-size"] else DefaultOf("font-size");
      st := st["font-size" := scale(st["font-size"], parentSize)];
    }
  }

  /**
   * The per-node part of `style`: the inherited seed, the matching rules,
   * then the inline declarations, and a percentage font size resolved.
   */
  method ComputeStyle(path: seq<Node>, parent: Option<Style>, rules: seq<Rule>, scale: (string, string) -> string)
    returns (st: Style)
    requires |path| > 0
    requires parent.Some? ==> HasInherited(parent.value)
    ensures st == NodeStyle(path, parent, rules, scale)
  {
    var n := path[0];
    var seed := SeedStyle(parent);
    var cascaded := ApplyRules(seed, rules, path);
    var inline := InlineStyle(n);
    assert cascaded + inline == Declared(path, parent, rules);
    st := cascaded + inline;
    st := ResolvePercentage(st, parent, scale);
  }

  /** `style`: the node's own map, then each child in order below it. */
  method Style(n: Node, ancestors: seq<Node>, parent: Option<Style>, rules: seq<Rule>, scale: (string, string) -> string)
    returns (r: Node)
    requires parent.Some? ==> HasInherited(parent.value)
    ensures r == StyleTree(n, ancestors, parent, rules, scale)
    decreases n, 1
  {
    var path := [n] + ancestors;
    var st := ComputeStyle(path, parent, rules, scale);
    var children := StyleChildren(n, path, st, rules, scale);
    if n.Element? {
      assert children == seq(|n.children|, k requires 0 <= k < |n.children| => StyleTree(n.children[k], path, Some(st), rules, scale));
      r := Element(n.tag, n.attributes, children, st);
    } else {
      r := Text(n.text, st);
    }
  }

  /** The recursive loop of `style`: each child of `p`, in order, styled below the map `st`. */
  method StyleChildren(p: Node, path: seq<Node>, st: Style, rules: seq<Rule>, scale: (string, string) -> string)
    returns (children: seq<Node>)
    requires HasInherited(st)
    ensures |children| == |Children(p)|
    ensures forall k | 0 <= k < |children| :: children[k] == StyleTree(Children(p)[k], path, Some(st), rules, scale)
    decreases p, 0
  {
    var cs := Children(p);
    children := [];
    for j := 0 to |cs|
      invariant |children| == j
      invariant forall k | 0 <= k < j :: children[k] == StyleTree(cs[k], path, Some(st), rules, scale)
    {
      var c := Style(cs[j], path, Some(st), rules, scale);
      children := children + [c];
    }
  }

  // ---------------------------------------------------------------------
  // Properties of the cascade
  // ---------------------------------------------------------------------

  /**
   * The index of the last rule that matches and declares `p`, or -1:
   * the rule whose value wins.
   */
  function Winner(rules: seq<Rule>, path: seq<Node>, p: string): (w: int)
    requires |path| > 0
    ensures -1 <= w < |rules|
    ensures w >= 0 ==> Matches(rules[w].selector, path) && p in rules[w].body
    ensures forall j :: w < j < |rules| ==> !(Matches(rules[j].selector, path) && p in rules[j].body)
    decreases |rules|
  {
    if rules == [] then -1
    else
      var last := rules[|rules| - 1];
      if Matches(last.selector, path) && p in last.body then |rules| - 1
      else Winner(rules[..|rules| - 1], path, p)
  }

  /**
   * Overlaying in list order: a property ends up with the value of the
   * last matching rule that declares it, or keeps the seed's value when no
   * matching rule declares it; rules that do not match change nothing.
   */
  lemma {:induction false} CascadedValue(seed: Style, rules: seq<Rule>, path: seq<Node>, p: string)
    requires |path| > 0
    ensures var st := Cascaded(seed, rules, path);
      var w := Winner(rules, path, p);
      && (p in st <==> p in seed || w >= 0)
      && (w >= 0 ==> st[p] == rules[w].body[p])
      && (w < 0 && p in seed ==> st[p] == seed[p])
    decreases |rules|
  {
    if rules != [] {
      var init := rules[..|rules| - 1];
      CascadedValue(seed, init, path, p);
      var last := rules[|rules| - 1];
      if !(Matches(last.selector, path) && p in last.body) {
        assert Winner(rules, path, p) == Winner(init, path, p);
      }
    }
  }

  /** A rule that does not match the node can be dropped from the list without changing its map. */
  lemma {:induction false} NonMatchingRuleChangesNothing(seed: Style, rules: seq<Rule>, i: nat, path: seq<Node>)
    requires |path| > 0 && i < |rules| && !Matches(rules[i].selector, path)
    ensures Cascaded(seed, rules[..i] + rules[i + 1..], path) == Cascaded(seed, rules, path)
    decreases |rules|
  {
    var dropped := rules[..i] + rules[i + 1..];
    if i == |rules| - 1 {
      assert dropped == rules[..|rules| - 1];
    } else {
      var init := rules[..|rules| - 1];
      NonMatchingRuleChangesNothing(seed, init, i, path);
      assert dropped[..|dropped| - 1] == init[..i] + init[i + 1..];
      assert dropped[|dropped| - 1] == rules[|rules| - 1];
    }
  }

  /**
   * The resolved value of a property other than `font-size`: the inline
   * declaration if there is one, else the winning rule's value, else the
   * value inherited from the parent (or the default at the root) for an
   * inherited property; a property nothing sets is absent.
   */
  lemma ResolvedValue(path: seq<Node>, parent: Option<Style>, rules: seq<Rule>, scale: (string, string) -> string, p: string)
    requires |path| > 0
    requires parent.Some? ==> HasInherited(parent.value)
    requires p != "font-size"
    ensures var st := NodeStyle(path, parent, rules, scale);
      var inline := InlineDeclarations(path[0]);
      var w := Winner(rules, path, p);
      && (p in inline ==> p in st && st[p] == inline[p])
      && (p !in inline && w >= 0 ==> p in st && st[p] == rules[w].body[p])
      && (p !in inline && w < 0 && p in InheritedNames ==>
            p in st && st[p] == if parent.Some? then parent.value[p] else DefaultOf(p))
      && (p !in inline && w < 0 && p !in InheritedNames ==> p !in st)
  {
    SeedEntries(parent);
    CascadedValue(Seed(parent), rules, path, p);
    var d := Declared(path, parent, rules);
    assert d == Cascaded(Seed(parent), rules, path) + InlineDeclarations(path[0]);
    assert NodeStyle(path, parent, rules, scale) == ResolveFontSize(d, parent, scale);
  }


  /**
   * The resolved font size: the inline value if there is one, else the
   * winning rule's, else the inherited one; when that value ends with `%`
   * it is replaced by its scaling against the parent's font size.
   */
  lemma ResolvedFontSize(path: seq<Node>, parent: Option<Style>, rules: seq<Rule>, scale: (string, string) -> string)
    requires |path| > 0
    requires parent.Some? ==> HasInherited(parent.value)
    ensures var p := "font-size";
      var inline := InlineDeclarations(path[0]);
      var w := Winner(rules, path, p);
      var declared := if p in inline then inline[p]
        else if w >= 0 then rules[w].body[p]
        else if parent.Some? then parent.value[p] else "16px";
      var parentSize := if parent.Some? then parent.value[p] else "16px";
      NodeStyle(path, parent, rules, scale)[p] == if EndsWithPercent(declared) then scale(declared, parentSize) else declared
  {
    SeedEntries(parent);
    CascadedValue(Seed(parent), rules, path, "font-size");
  }

  /** The styled tree has the shape of the input: same tags, attributes, texts and children. */
  predicate SameShape(a: Node, b: Node)
    decreases a
  {
    match a
    case Element(tag, attributes, children, _) =>
      && b.Element? && b.tag == tag && b.attributes == attributes
      && |b.children| == |children|
      && forall k | 0 <= k < |children| :: SameShape(children[k], b.children[k])
    case Text(text, _) => b.Text? && b.text == text
  }

  /**
   * `style` keeps the tree's shape, gives every node every inherited
   * property, and styles each child below its parent's resolved map (the
   * pre-order of the traversal: a parent is finished before its children).
   */
  lemma {:induction false} StyleTreeProperties(n: Node, ancestors: seq<Node>, parent: Option<Style>, rules: seq<Rule>, scale: (string, string) -> string)
    requires parent.Some? ==> HasInherited(parent.value)
    ensures var r := StyleTree(n, ancestors, parent, rules, scale);
      && SameShape(n, r)
      && AllStyled(r)
      && r.style == NodeStyle([n] + ancestors, parent, rules, scale)
      && |Children(r)| == |Children(n)|
      && forall k | 0 <= k < |Children(n)| ::
           Children(r)[k] == StyleTree(Children(n)[k], [n] + ancestors, Some(r.style), rules, scale)
    decreases n
  {
    var st := NodeStyle([n] + ancestors, parent, rules, scale);
    var r := StyleTree(n, ancestors, parent, rules, scale);
    var cs := Children(n);
    assert |Children(r)| == |cs|;
    forall k | 0 <= k < |cs|
      ensures SameShape(cs[k], Children(r)[k]) && AllStyled(Children(r)[k])
    {
      StyleTreeProperties(cs[k], [n] + ancestors, Some(st), rules, scale);
    }
    if n.Element? {
      assert SameShape(n, r);
    }
  }


  // ---------------------------------------------------------------------
  // Rule order (load_page)
  // ---------------------------------------------------------------------

  function RulePriority(r: Rule): nat {
    Priority(r.selector)
  }

  predicate SortedByPriority(rules: seq<Rule>) {
    forall i, j | 0 <= i < j < |rules| :: RulePriority(rules[i]) <= RulePriority(rules[j])
  }

  /** The rules of priority `p`, in list order. */
  function WithPriority(rules: seq<Rule>, p: nat): (r: seq<Rule>)
    ensures |r| <= |rules|
  {
    if rules == [] then []
    else (if RulePriority(rules[0]) == p then [rules[0]] else []) + WithPriority(rules[1..], p)
  }

  /** Inserts `r` before the first rule of priority at least its own. */
  function InsertByPriority(r: Rule, sorted: seq<Rule>): (out: seq<Rule>)
    requires SortedByPriority(sorted)
    ensures SortedByPriority(out)
    ensures multiset(out) == multiset(sorted) + multiset{r}
    ensures out[0] == r || out[0] == sorted[0]
  {
    if sorted == [] || RulePriority(r) <= RulePriority(sorted[0]) then
      SortedCons(r, sorted);
      [r] + sorted
    else
      var rest := InsertByPriority(r, sorted[1..]);
      assert sorted == [sorted[0]] + sorted[1..];
      SortedCons(sorted[0], rest);
      [sorted[0]] + rest
  }

  /** A rule of priority at most the head's, put in front of a sorted list, keeps it sorted. */
  lemma SortedCons(x: Rule, rest: seq<Rule>)
    requires SortedByPriority(rest)
    requires rest != [] ==> RulePriority(x) <= RulePriority(rest[0])
    ensures SortedByPriority([x] + rest)
  {
    var s := [x] + rest;
    forall i, j | 0 <= i < j < |s| ensures RulePriority(s[i]) <= RulePriority(s[j]) {
      if i == 0 {
        assert s[j] == rest[j - 1];
        if j > 1 {
          assert RulePriority(rest[0]) <= RulePriority(rest[j - 1]);
        }
      } else {
        assert s[i] == rest[i - 1] && s[j] == rest[j - 1];
      }
    }
  }

  /** `sorted(rules, key=cascade_priority)`: a stable sort by selector priority. */
  function SortByPriority(rules: seq<Rule>): (out: seq<Rule>)
    ensures SortedByPriority(out)
    ensures multiset(out) == multiset(rules)
  {
    if rules == [] then []
    else
      assert rules == [rules[0]] + rules[1..];
      InsertByPriority(rules[0], SortByPriority(rules[1..]))
  }

  lemma {:induction false} WithPriorityAppend(a: seq<Rule>, b: seq<Rule>, p: nat)
    ensures WithPriority(a + b, p) == WithPriority(a, p) + WithPriority(b, p)
  {
    if a == [] {
      assert a + b == b;
    } else {
      var h := if RulePriority(a[0]) == p then [a[0]] else [];
      assert (a + b)[1..] == a[1..] + b;
      calc {
        WithPriority(a + b, p);
        h + WithPriority(a[1..] + b, p);
        { WithPriorityAppend(a[1..], b, p); }
        h + (WithPriority(a[1..], p) + WithPriority(b, p));
        (h + WithPriority(a[1..], p)) + WithPriority(b, p);
        WithPriority(a, p) + WithPriority(b, p);
      }
    }
  }

  /** The rule `x` as `WithPriority` keeps it: itself when its priority is `p`, else nothing. */
  function KeptIf(x: Rule, p: nat): seq<Rule> {
    if RulePriority(x) == p then [x] else []
  }

  lemma WithPriorityCons(x: Rule, s: seq<Rule>, p: nat)
    ensures WithPriority([x] + s, p) == KeptIf(x, p) + WithPriority(s, p)
  {
    assert ([x] + s)[0] == x;
    assert ([x] + s)[1..] == s;
  }

  lemma {:induction false} InsertStable(r: Rule, sorted: seq<Rule>, p: nat)
    requires SortedByPriority(sorted)
    ensures WithPriority(InsertByPriority(r, sorted), p) == WithPriority([r] + sorted, p)
  {
    if sorted == [] || RulePriority(r) <= RulePriority(sorted[0]) {
    } else {
      var s0, t := sorted[0], sorted[1..];
      assert sorted == [s0] + t;
      assert KeptIf(s0, p) + KeptIf(r, p) == KeptIf(r, p) + KeptIf(s0, p);
      calc {
        WithPriority(InsertByPriority(r, sorted), p);
        WithPriority([s0] + InsertByPriority(r, t), p);
        { WithPriorityCons(s0, InsertByPriority(r, t), p); }
        KeptIf(s0, p) + WithPriority(InsertByPriority(r, t), p);
        { InsertStable(r, t, p); }
        KeptIf(s0, p) + WithPriority([r] + t, p);
        { WithPriorityCons(r, t, p); }
        KeptIf(s0, p) + (KeptIf(r, p) + WithPriority(t, p));
        (KeptIf(r, p) + KeptIf(s0, p)) + WithPriority(t, p);
        KeptIf(r, p) + (KeptIf(s0, p) + WithPriority(t, p));
        { WithPriorityCons(s0, t, p); }
        KeptIf(r, p) + WithPriority(sorted, p);
        { WithPriorityCons(r, sorted, p); }
        WithPriority([r] + sorted, p);
      }
    }
  }

  /** Sorting is stable: the rules of each priority keep their relative order. */
  lemma {:induction false} SortIsStable(rules: seq<Rule>, p: nat)
    ensures WithPriority(SortByPriority(rules), p) == WithPriority(rules, p)
  {
    if rules != [] {
      SortIsStable(rules[1..], p);
      InsertStable(rules[0], SortByPriority(rules[1..]), p);
    }
  }

  /**
   * The rules `load_page` passes to `style`: the default sheet followed by
   * every linked sheet that could be fetched (given here as its text),
   * sorted by priority.
   */
  function PageRules(defaults: seq<Rule>, sheets: seq<string>): (r: seq<Rule>)
    ensures SortedByPriority(r)
    ensures multiset(r) == multiset(defaults + LinkedRules(sheets))
  {
    SortByPriority(defaults + LinkedRules(sheets))
  }

  /** The rules of the linked sheets, sheet after sheet. */
  function LinkedRules(sheets: seq<string>): (r: seq<Rule>)
    decreases |sheets|
  {
    if sheets == [] then [] else ParseStylesheet(sheets[0]) + LinkedRules(sheets[1..])
  }

  /** A rule is linked exactly when some linked sheet parses to a list holding it. */
  lemma {:induction false} LinkedRulesFromSheets(sheets: seq<string>, x: Rule)
    ensures x in LinkedRules(sheets) <==> exists k :: 0 <= k < |sheets| && x in ParseStylesheet(sheets[k])
    decreases |sheets|
  {
    if sheets != [] {
      var first, rest := ParseStylesheet(sheets[0]), sheets[1..];
      LinkedRulesFromSheets(rest, x);
      assert LinkedRules(sheets) == first + LinkedRules(rest);
      if x in LinkedRules(sheets) {
        if x in first {
          assert 0 < |sheets| && x in ParseStylesheet(sheets[0]);
        } else {
          var k :| 0 <= k < |rest| && x in ParseStylesheet(rest[k]);
          assert rest[k] == sheets[k + 1];
          assert 0 <= k + 1 < |sheets| && x in ParseStylesheet(sheets[k + 1]);
        }
      }
      if exists k :: 0 <= k < |sheets| && x in ParseStylesheet(sheets[k]) {
        var k :| 0 <= k < |sheets| && x in ParseStylesheet(sheets[k]);
        if k > 0 {
          assert rest[k - 1] == sheets[k];
          assert x in LinkedRules(rest);
        }
        assert x in LinkedRules(sheets);
      }
    }
  }

  /** Among rules of equal priority, the default sheet's come first and each sheet keeps its order. */
  lemma DefaultsFirstAmongEqualPriority(defaults: seq<Rule>, sheets: seq<string>, p: nat)
    ensures WithPriority(PageRules(defaults, sheets), p) == WithPriority(defaults, p) + WithPriority(LinkedRules(sheets), p)
  {
    SortIsStable(defaults + LinkedRules(sheets), p);
    WithPriorityAppend(defaults, LinkedRules(sheets), p);
  }
}
