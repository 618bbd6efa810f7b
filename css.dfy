/**
 * Stylesheet selectors and the recursive-descent stylesheet parser of
 * baby_browser/css.py.
 *
 * The parser is a `CSSParser` object holding the source text and a cursor
 * `index`. Each of its methods is tied to a pure function of
 * (source, cursor) that returns the method's result together with the
 * cursor it leaves behind; the properties of the parser are proved about
 * those functions. A `ParsingError` is an `Err` result: it carries the
 * cursor at which it was raised, and nothing moves the cursor between the
 * raise and the handler that catches it.
 */
module Css {
  import opened Wrappers
  import opened Strings
  import opened Dom
  import Seqs

  // ---------------------------------------------------------------------
  // Selectors
  // ---------------------------------------------------------------------

  /** `TagSelector(tag)` and `DescendantSelector(ancestor, descendant)`. */
  datatype Selector =
    | Tag(tag: string)
    | Descendant(ancestor: Selector, descendant: Selector)

  /** The selector's priority: 1 for a tag, the sum of the parts for a descendant selector. */
  function Priority(s: Selector): (p: nat)
    ensures p >= 1
  {
    match s
    case Tag(_) => 1
    case Descendant(a, d) => Priority(a) + Priority(d)
  }

  /** The tag names a selector mentions, left to right. */
  function Tags(s: Selector): seq<string> {
    match s
    case Tag(t) => [t]
    case Descendant(a, d) => Tags(a) + Tags(d)
  }

  /** A selector's priority is the number of tag names in it. */
  lemma {:induction false} PriorityCountsTags(s: Selector)
    ensures Priority(s) == |Tags(s)|
  {
    match s
    case Tag(_) =>
    case Descendant(a, d) =>
      PriorityCountsTags(a);
      PriorityCountsTags(d);
  }

  /**
   * Whether `s` matches `path[0]`, where `path[1..]` lists the node's
   * ancestors from its parent up to the root.
   */
  predicate Matches(s: Selector, path: seq<Node>)
    requires |path| > 0
  {
    match s
    case Tag(t) => path[0].Element? && path[0].tag == t
    case Descendant(a, d) =>
      Matches(d, path) && exists i | 1 <= i < |path| :: Matches(a, path[i..])
  }

  /**
   * `matches`: a tag selector compares the tag; a descendant selector
   * tests its descendant part on the node, then walks the ancestors from
   * the parent upwards until one matches its ancestor part.
   */
  method Match(s: Selector, path: seq<Node>) returns (r: bool)
    requires |path| > 0
    ensures s.Tag? ==> (r <==> path[0].Element? && path[0].tag == s.tag)
    ensures s.Descendant? ==>
      (r <==> Matches(s.descendant, path) && exists i | 1 <= i < |path| :: Matches(s.ancestor, path[i..]))
    ensures r == Matches(s, path)
  {
    match s
    case Tag(t) =>
      r := path[0].Element? && path[0].tag == t;
    case Descendant(a, d) =>
      var m := Match(d, path);
      if !m {
        return false;
      }
      var i := 1;
      while i < |path|
        invariant 1 <= i <= |path|
        invariant forall k :: 1 <= k < i ==> !Matches(a, path[k..])
      {
        m := Match(a, path[i..]);
        if m {
          return true;
        }
        i := i + 1;
      }
      return false;
  }

  /** Only elements match, and only when their tag is the selector's last tag name. */
  lemma {:induction false} MatchesOnlyElements(s: Selector, path: seq<Node>)
    requires |path| > 0 && Matches(s, path)
    ensures path[0].Element? && |Tags(s)| > 0 && path[0].tag == Tags(s)[|Tags(s)| - 1]
  {
    match s
    case Tag(_) =>
    case Descendant(a, d) =>
      MatchesOnlyElements(d, path);
  }

  /** A selector as `_selector` builds it: a tag, or a chain that adds one tag on the right. */
  predicate IsChain(s: Selector) {
    match s
    case Tag(_) => true
    case Descendant(a, d) => d.Tag? && IsChain(a)
  }

  /** A selector of n words only matches a node with at least n - 1 ancestors. */
  lemma {:induction false} ChainNeedsAncestors(s: Selector, path: seq<Node>)
    requires IsChain(s) && |path| > 0 && Matches(s, path)
    ensures |path| >= Priority(s)
  {
    match s
    case Tag(_) =>
    case Descendant(a, d) =>
      var i :| 1 <= i < |path| && Matches(a, path[i..]);
      ChainNeedsAncestors(a, path[i..]);
  }

  /** The selector `_selector` builds from its words: `w1 w2 ... wn`. */
  function Chain(words: seq<string>): (s: Selector)
    requires |words| > 0
    ensures IsChain(s) && Tags(s) == words
  {
    if |words| == 1 then Tag(words[0])
    else Descendant(Chain(words[..|words| - 1]), Tag(words[|words| - 1]))
  }

  // ---------------------------------------------------------------------
  // Parser results
  // ---------------------------------------------------------------------

  /**
   * What was expected, the cursor at which the error was raised, and a
   * piece of the source near it that the warning quotes.
   */
  datatype ParsingError = ParsingError(expected: string, index: nat, context: string)

  /**
   * `_create_error` at cursor `i`. The quoted context is the ten characters
   * that end at the cursor, or the first ten of the source while the
   * cursor is below ten: the text before the cursor, not the text found there.
   */
  function ErrorAt(s: string, expected: string, i: nat): (e: ParsingError)
    requires i <= |s|
    ensures e.expected == expected && e.index == i
    ensures i >= 10 ==> e.context == s[i - 10..i]
    ensures i < 10 ==> e.context == s[..if |s| < 10 then |s| else 10]
  {
    var start := if i >= 10 then i - 10 else 0;
    var end := if start + 10 < |s| then start + 10 else |s|;
    ParsingError(expected, i, s[start..end])
  }

  datatype Result<T> = Ok(value: T) | Err(error: ParsingError)

  /** A rule: its selector and its declarations (property to value). */
  datatype Rule = Rule(selector: Selector, body: map<string, string>)

  /** The characters of a `_word`: alphanumerics and `#-.%`. */
  predicate IsWordChar(c: char) {
    IsAlnum(c) || c in "#-.%"
  }

  predicate IsWord(w: string) {
    w != [] && forall k :: 0 <= k < |w| ==> IsWordChar(w[k])
  }

  /** A word as it is stored after `.lower()`: a property name or a selector tag. */
  predicate IsName(w: string) {
    IsWord(w) && IsLowerCase(w)
  }

  lemma LowerWordIsName(w: string)
    requires IsWord(w)
    ensures IsName(Lower(w))
  {
    LowerIsLowerCase(w);
    var l := Lower(w);
    forall k | 0 <= k < |l| ensures IsWordChar(l[k]) {
      assert l[k] == LowerChar(w[k]);
    }
  }

  // ---------------------------------------------------------------------
  // The parser as functions of (source, cursor)
  // ---------------------------------------------------------------------

  /** End of the run of word characters starting at `i`. */
  function WordEnd(s: string, i: nat): (j: nat)
    requires i <= |s|
    ensures i <= j <= |s|
    ensures j == |s| || !IsWordChar(s[j])
    ensures forall k :: i <= k < j ==> IsWordChar(s[k])
    decreases |s| - i
  {
    if i < |s| && IsWordChar(s[i]) then WordEnd(s, i + 1) else i
  }

  /** `WordEnd` is the only index that ends the run of word characters at `p`. */
  lemma {:induction false} WordEndIs(s: string, p: nat, q: nat)
    requires p <= q <= |s|
    requires forall m :: p <= m < q ==> IsWordChar(s[m])
    requires q == |s| || !IsWordChar(s[q])
    ensures WordEnd(s, p) == q
    decreases q - p
  {
    if p < q {
      WordEndIs(s, p + 1, q);
    }
  }

  /**
   * `_word`: the maximal non-empty run of word characters at the cursor,
   * and the cursor after it; an error at the unchanged cursor when the run
   * is empty.
   */
  function WordAt(s: string, i: nat): (r: (Result<string>, nat))
    requires i <= |s|
    ensures i <= r.1 <= |s|
    ensures r.0.Ok? <==> i < |s| && IsWordChar(s[i])
    ensures r.0.Ok? ==> r.1 > i && r.0.value == s[i..r.1] && IsWord(r.0.value)
    ensures r.0.Ok? ==> r.1 == |s| || !IsWordChar(s[r.1])
    ensures r.0.Ok? ==> r.1 == WordEnd(s, i)
    ensures r.0.Err? ==> r.1 == i && r.0.error == ErrorAt(s, "word", i)
  {
    var j := WordEnd(s, i);
    if j > i then (Ok(s[i..j]), j) else (Err(ErrorAt(s, "word", i)), i)
  }

  /** `_literal(c)`. */
  function LiteralAt(s: string, i: nat, c: char): (r: (Result<()>, nat))
    requires i <= |s|
    ensures r.0.Ok? <==> i < |s| && s[i] == c
    ensures r.1 == if r.0.Ok? then i + 1 else i
    ensures r.0.Err? ==> r.0.error == ErrorAt(s, [c], i)
  {
    if i < |s| && s[i] == c then (Ok(()), i + 1) else (Err(ErrorAt(s, [c], i)), i)
  }

  /**
   * `_pair`: `word ws ':' ws word`, the property name lower-cased and the
   * value verbatim. It succeeds exactly when a word starts at the cursor,
   * a `:` follows it after whitespace, and a word starts after the `:`
   * and the whitespace that follows it; the value is that last word.
   */
  function PairAt(s: string, i: nat): (r: (Result<(string, string)>, nat))
    requires i <= |s|
    ensures i <= r.1 <= |s|
    ensures r.0.Ok? ==> r.1 > i && IsName(r.0.value.0) && IsWord(r.0.value.1)
    ensures r.0.Ok? ==> r.0.value.0 == Lower(s[i..WordEnd(s, i)])
    ensures r.0.Err? ==> r.0.error.index == r.1
  {
    // `_word`, `_whitespace`, `_literal(":")`, `_whitespace`, `_word`, each
    // written out through the cursor it leaves (see WordAt and LiteralAt).
    var j := WordEnd(s, i);
    if j == i then (Err(ErrorAt(s, "word", i)), i)
    else
      assert IsWord(s[i..j]) by {
        forall k | 0 <= k < j - i ensures IsWordChar(s[i..j][k]) {
          assert s[i..j][k] == s[i + k];
        }
      }
      var c := SpaceEnd(s, j);
      if !(c < |s| && s[c] == ':') then (Err(ErrorAt(s, ":", c)), c)
      else
        var v := SpaceEnd(s, c + 1);
        var e := WordEnd(s, v);
        if e == v then (Err(ErrorAt(s, "word", v)), v)
        else
          LowerWordIsName(s[i..j]);
          assert IsWord(s[v..e]) by {
            forall k | 0 <= k < e - v ensures IsWordChar(s[v..e][k]) {
              assert s[v..e][k] == s[v + k];
            }
          }
          (Ok((Lower(s[i..j]), s[v..e])), e)
  }

  /**
   * `_pair` succeeds exactly when a word starts at the cursor, a `:`
   * follows it after whitespace, and a word starts after the `:` and the
   * whitespace that follows it; the value is then that word, verbatim,
   * and the cursor is left right after it.
   */
  lemma PairAtShape(s: string, i: nat)
    requires i <= |s|
    ensures var c := SpaceEnd(s, WordEnd(s, i));
      PairAt(s, i).0.Ok? <==> (i < |s| && IsWordChar(s[i]) && c < |s| && s[c] == ':'
                               && SpaceEnd(s, c + 1) < |s| && IsWordChar(s[SpaceEnd(s, c + 1)]))
    ensures var (p, e) := PairAt(s, i); var c := SpaceEnd(s, WordEnd(s, i));
      p.Ok? ==> c < |s| && e == WordEnd(s, SpaceEnd(s, c + 1)) && p.value.1 == s[SpaceEnd(s, c + 1)..e]
  {
    var j := WordEnd(s, i);
    if j > i {
      var c := SpaceEnd(s, j);
      if c < |s| && s[c] == ':' {
        var v := SpaceEnd(s, c + 1);
        assert WordEnd(s, v) > v <==> v < |s| && IsWordChar(s[v]);
        if WordEnd(s, v) > v {
          assert PairAt(s, i).1 == WordEnd(s, v) && PairAt(s, i).0.value.1 == s[v..WordEnd(s, v)];
        }
      }
    }
  }

  /**
   * `_ignore_until(chars)`: the first character at or after the cursor that
   * is one of `chars`, with the cursor left on it; `None` at end of input.
   */
  function SkipUntil(s: string, i: nat, chars: string): (r: (Option<char>, nat))
    requires i <= |s|
    ensures i <= r.1 <= |s|
    ensures r.0.Some? <==> r.1 < |s|
    ensures r.0.Some? ==> r.0.value == s[r.1] && s[r.1] in chars
    ensures forall k :: i <= k < r.1 ==> s[k] !in chars
    decreases |s| - i
  {
    if i == |s| then (None, i)
    else if s[i] in chars then (Some(s[i]), i)
    else SkipUntil(s, i + 1, chars)
  }

  /**
   * Rule-body recovery from cursor `k`: every character that is neither
   * `;` nor `}` is skipped. A `;` found that way is consumed, with the
   * whitespace after it, and the loop goes on; at `}` or at the end of
   * the input the body ends there, without consuming the `}`.
   */
  function BodyRecover(s: string, k: nat, pairs: map<string, string>): (r: (map<string, string>, nat, bool))
    requires k <= |s|
    ensures r.0 == pairs
    ensures var m := SkipUntil(s, k, ";}").1;
      && (forall l | k <= l < m :: s[l] != ';' && s[l] != '}')
      && (r.2 <==> m < |s| && s[m] == ';')
      && (r.2 ==> r.1 == SpaceEnd(s, m + 1))
      && (!r.2 ==> r.1 == m && (m == |s| || s[m] == '}'))
  {
    var (why, m) := SkipUntil(s, k, ";}");
    assert forall l | k <= l < m :: s[l] !in ";}";
    if why == Some(';') then
      var (_, m') := LiteralAt(s, m, ';');
      (pairs, SpaceEnd(s, m'), true)
    else
      (pairs, m, false)
  }

  /**
   * One pass of the `parse_rule_body` loop from a cursor that is on neither
   * `}` nor the end: the declarations, the new cursor, and whether the loop
   * goes on. A pair is stored as soon as it is read, whether or not its
   * `;` follows; on an error the cursor skips to the next `;` (consumed,
   * the loop goes on) or to `}` or the end (the loop stops there).
   */
  function BodyStep(s: string, i: nat, pairs: map<string, string>): (r: (map<string, string>, nat, bool))
    requires i < |s|
    ensures i <= r.1 <= |s|
    ensures r.2 ==> r.1 > i
    ensures !r.2 ==> r.1 == |s| || s[r.1] == '}'
    ensures forall k :: k in r.0 ==> (k in pairs && r.0[k] == pairs[k]) || (IsName(k) && IsWord(r.0[k]))
    ensures pairs.Keys <= r.0.Keys
  {
    var (p, j) := PairAt(s, i);
    var pairs' := if p.Ok? then pairs[p.value.0 := p.value.1] else pairs;
    var (semi, k) := if p.Ok? then LiteralAt(s, SpaceEnd(s, j), ';') else (Err(p.error), j);
    if semi.Ok? then (pairs', SpaceEnd(s, k), true)
    else BodyRecover(s, k, pairs')
  }

  /** The `parse_rule_body` loop from cursor `i` with the declarations read so far. */
  function RuleBodyFrom(s: string, i: nat, pairs: map<string, string>): (r: (map<string, string>, nat))
    requires i <= |s|
    ensures i <= r.1 <= |s|
    ensures r.1 == |s| || s[r.1] == '}'
    ensures forall k :: k in r.0 ==> (k in pairs && r.0[k] == pairs[k]) || (IsName(k) && IsWord(r.0[k]))
    ensures pairs.Keys <= r.0.Keys
    decreases |s| - i
  {
    if i < |s| && s[i] != '}' then
      var (pairs', j, more) := BodyStep(s, i, pairs);
      if more then RuleBodyFrom(s, j, pairs') else (pairs', j)
    else
      (pairs, i)
  }

  /** `parse_rule_body` from cursor `i`. */
  function RuleBody(s: string, i: nat): (r: (map<string, string>, nat))
    requires i <= |s|
    ensures i <= r.1 <= |s|
    ensures r.1 == |s| || s[r.1] == '}'
    ensures forall k :: k in r.0 ==> IsName(k) && IsWord(r.0[k])
  {
    RuleBodyFrom(s, i, map[])
  }

  /** The declarations the `parse_rule_body` loop reads from cursor `i` on, in source order. */
  function PairsFrom(s: string, i: nat, pairs: map<string, string>): seq<(string, string)>
    requires i <= |s|
    decreases |s| - i
  {
    if i < |s| && s[i] != '}' then
      var p := PairAt(s, i).0;
      var (pairs', j, more) := BodyStep(s, i, pairs);
      (if p.Ok? then [p.value] else []) + (if more then PairsFrom(s, j, pairs') else [])
    else []
  }

  /** `pairs[prop] = val` for each declaration in turn. */
  function Apply(m: map<string, string>, ps: seq<(string, string)>): map<string, string>
    decreases |ps|
  {
    if ps == [] then m else Apply(m[ps[0].0 := ps[0].1], ps[1..])
  }

  /** The rule body is its declarations stored one after the other into the dict. */
  lemma {:induction false} RuleBodyIsDeclarations(s: string, i: nat, pairs: map<string, string>)
    requires i <= |s|
    ensures RuleBodyFrom(s, i, pairs).0 == Apply(pairs, PairsFrom(s, i, pairs))
    decreases |s| - i
  {
    if i < |s| && s[i] != '}' {
      var p := PairAt(s, i).0;
      var (pairs', j, more) := BodyStep(s, i, pairs);
      var first := if p.Ok? then [p.value] else [];
      var rest := if more then PairsFrom(s, j, pairs') else [];
      if more {
        RuleBodyIsDeclarations(s, j, pairs');
      }
      if p.Ok? {
        assert (first + rest)[0] == p.value && (first + rest)[1..] == rest;
      } else {
        assert first + rest == rest;
      }
    }
  }

  /**
   * A repeated property keeps the value of its last declaration; a
   * property declared nowhere keeps what the dict had.
   */
  lemma {:induction false} LastDeclarationWins(m: map<string, string>, ps: seq<(string, string)>, k: string, j: nat)
    requires j < |ps| && ps[j].0 == k
    requires forall l | j < l < |ps| :: ps[l].0 != k
    ensures k in Apply(m, ps) && Apply(m, ps)[k] == ps[j].1
    decreases |ps|
  {
    var m' := m[ps[0].0 := ps[0].1];
    if j == 0 {
      ApplyKeeps(m', ps[1..], k);
    } else {
      forall l | j - 1 < l < |ps[1..]| ensures ps[1..][l].0 != k {
        assert ps[1..][l] == ps[l + 1];
      }
      LastDeclarationWins(m', ps[1..], k, j - 1);
    }
  }

  /** A property no declaration mentions keeps its entry, or its absence. */
  lemma {:induction false} ApplyKeeps(m: map<string, string>, ps: seq<(string, string)>, k: string)
    requires forall l | 0 <= l < |ps| :: ps[l].0 != k
    ensures (k in Apply(m, ps)) == (k in m)
    ensures k in m ==> Apply(m, ps)[k] == m[k]
    decreases |ps|
  {
    if ps != [] {
      forall l | 0 <= l < |ps[1..]| ensures ps[1..][l].0 != k {
        assert ps[1..][l] == ps[l + 1];
      }
      ApplyKeeps(m[ps[0].0 := ps[0].1], ps[1..], k);
    }
  }

  /** A declaration that is read is stored, even when its `;` is missing; a malformed one changes nothing. */
  lemma PairStored(s: string, i: nat, pairs: map<string, string>)
    requires i < |s|
    ensures var p := PairAt(s, i).0;
      BodyStep(s, i, pairs).0 == if p.Ok? then pairs[p.value.0 := p.value.1] else pairs
  {
  }

  /**
   * A word at `i`, the spaces after it, and text up to `k` that starts
   * after those spaces: the word `w` is the first of `split()` on the
   * text `t` from `i` to `k`, and the rest is the split of `v`, the text
   * after the spaces.
   */
  lemma SplitAfterWord(s: string, i: nat, k: nat, t: string, w: string, v: string)
    requires i <= |s| && i < WordEnd(s, i)
    requires SpaceEnd(s, WordEnd(s, i)) <= k <= |s|
    requires SpaceEnd(s, WordEnd(s, i)) == WordEnd(s, i) ==> k == WordEnd(s, i)
    requires t == s[i..k] && w == s[i..WordEnd(s, i)] && v == s[SpaceEnd(s, WordEnd(s, i))..k]
    ensures Split(t) == [w] + Split(v)
  {
    var j := WordEnd(s, i);
    forall m | 0 <= m < j - i ensures !IsSpace(t[m]) {
      assert t[m] == s[i + m] && IsWordChar(s[i + m]);
    }
    if j < k {
      assert t[j - i] == s[j];
    }
    assert t[..j - i] == w;
    SliceOfSlice(s, i, j - i, k);
    SplitCons(t, j - i, w, s[j..k]);
    SplitAfterSpaces(s, j, k);
  }

  /** The `_selector` loop: one more word per pass until `{` or the end. */
  function SelectorLoop(s: string, i: nat, words: seq<string>): (r: (Result<seq<string>>, nat))
    requires i <= |s|
    ensures i <= r.1 <= |s|
    ensures r.0.Ok? ==> (r.1 == |s| || s[r.1] == '{')
    ensures r.0.Ok? ==> |r.0.value| >= |words| && r.0.value[..|words|] == words
    ensures r.0.Ok? && (forall k :: 0 <= k < |words| ==> IsName(words[k])) ==>
      forall k :: 0 <= k < |r.0.value| ==> IsName(r.0.value[k])
    ensures r.0.Err? ==> r.0.error.index == r.1
    decreases |s| - i
  {
    if i < |s| && s[i] != '{' then
      var (w, j) := WordAt(s, i);
      if w.Err? then (Err(w.error), j)
      else
        LowerWordIsName(w.value);
        var r := SelectorLoop(s, SpaceEnd(s, j), words + [Lower(w.value)]);
        assert r.0.Ok? ==> r.0.value[..|words|] == (words + [Lower(w.value)])[..|words|];
        r
    else
      (Ok(words), i)
  }

  /**
   * `_selector`: the first word is a tag selector, each further word
   * before `{` wraps the result as a descendant selector; all words are
   * lower-cased, and a `.` stays part of the tag name.
   */
  function SelectorAt(s: string, i: nat): (r: (Result<Selector>, nat))
    requires i <= |s|
    ensures i <= r.1 <= |s|
    ensures r.0.Ok? ==> r.1 > i && (r.1 == |s| || s[r.1] == '{')
    ensures r.0.Ok? ==> IsChain(r.0.value) && forall k :: 0 <= k < |Tags(r.0.value)| ==> IsName(Tags(r.0.value)[k])
    ensures r.0.Ok? ==> Tags(r.0.value)[0] == Lower(s[i..WordEnd(s, i)])
    ensures r.0.Err? ==> r.0.error.index == r.1
  {
    var (w, j) := WordAt(s, i);
    if w.Err? then (Err(w.error), j)
    else
      LowerWordIsName(w.value);
      var (ws, k) := SelectorLoop(s, SpaceEnd(s, j), [Lower(w.value)]);
      if ws.Err? then (Err(ws.error), k)
      else
        assert ws.value[..1] == [Lower(w.value)];
        (Ok(Chain(ws.value)), k)
  }

  /**
   * The words the `_selector` loop adds are exactly `split()` of the text
   * it consumed, each lower-cased, in order.
   */
  lemma {:induction false} SelectorLoopWords(s: string, i: nat, words: seq<string>)
    requires i <= |s|
    ensures var r := SelectorLoop(s, i, words);
      r.0.Ok? ==> r.0.value == words + LowerEach(Split(s[i..r.1]))
    decreases |s| - i
  {
    if i < |s| && s[i] != '{' {
      var j := WordEnd(s, i);
      if j > i {
        var j' := SpaceEnd(s, j);
        var words' := words + [Lower(s[i..j])];
        SelectorLoopWords(s, j', words');
        SelectorLoopStops(s, j, words');
        var r := SelectorLoop(s, j', words');
        if r.0.Ok? {
          WordsAfterWord(s, i, r.1, words, r.0.value);
        }
      }
    } else {
      assert s[i..i] == [];
    }
  }

  /** With no word at `j`, the `_selector` loop succeeds only by stopping there. */
  lemma SelectorLoopStops(s: string, j: nat, words: seq<string>)
    requires j <= |s| && (j == |s| || !IsWordChar(s[j]))
    ensures SelectorLoop(s, j, words).0.Ok? ==> SelectorLoop(s, j, words).1 == j
  {
  }

  /** The step of `SelectorLoopWords`: a word, then the split of what follows it. */
  lemma WordsAfterWord(s: string, i: nat, k: nat, words: seq<string>, got: seq<string>)
    requires i <= |s| && i < WordEnd(s, i)
    requires SpaceEnd(s, WordEnd(s, i)) <= k <= |s|
    requires SpaceEnd(s, WordEnd(s, i)) == WordEnd(s, i) ==> k == WordEnd(s, i)
    requires got == (words + [Lower(s[i..WordEnd(s, i)])]) + LowerEach(Split(s[SpaceEnd(s, WordEnd(s, i))..k]))
    ensures got == words + LowerEach(Split(s[i..k]))
  {
    var w := s[i..WordEnd(s, i)];
    var v := s[SpaceEnd(s, WordEnd(s, i))..k];
    SplitAfterWord(s, i, k, s[i..k], w, v);
    LowerEachCons(w, Split(v));
    Seqs.AppendOne(words, Lower(w), LowerEach(Split(v)));
  }

  /**
   * The tags of a selector are exactly `split()` of the text it was read
   * from, each lower-cased, in order: `_selector` reads words separated
   * by whitespace and nothing else.
   */
  lemma SelectorWords(s: string, i: nat)
    requires i <= |s|
    ensures var r := SelectorAt(s, i);
      r.0.Ok? ==> Tags(r.0.value) == LowerEach(Split(s[i..r.1]))
  {
    var (w, j) := WordAt(s, i);
    if w.Ok? {
      var j' := SpaceEnd(s, j);
      var r := SelectorLoop(s, j', [Lower(w.value)]);
      SelectorLoopWords(s, j', [Lower(w.value)]);
      if r.0.Ok? {
        SplitAfterWord(s, i, r.1, s[i..r.1], w.value, s[j'..r.1]);
        LowerEachCons(w.value, Split(s[j'..r.1]));
      }
    }
  }

  /**
   * The body of the `parse_css` try block: whitespace, a selector, `{`,
   * whitespace, a rule body, `}`, and the whitespace after it.
   */
  function RuleAt(s: string, i: nat): (r: (Result<Rule>, nat))
    requires i <= |s|
    ensures i <= r.1 <= |s|
    ensures r.0.Ok? ==> r.1 > i
    ensures r.0.Err? ==> r.0.error.index == r.1
  {
    var (sel, j1) := SelectorAt(s, SpaceEnd(s, i));
    if sel.Err? then (Err(sel.error), j1)
    else
      var (open, j2) := LiteralAt(s, j1, '{');
      if open.Err? then (Err(open.error), j2)
      else
        var (body, j3) := RuleBody(s, SpaceEnd(s, j2));
        var (close, j4) := LiteralAt(s, j3, '}');
        if close.Err? then (Err(close.error), j4)
        else (Ok(Rule(sel.value, body)), SpaceEnd(s, j4))
  }

  /**
   * `parse_css` recovery from cursor `j`: a malformed rule adds nothing;
   * the parser skips to the next `}`, consumes it and the whitespace after
   * it and goes on, or stops at the end of the input when there is no `}`.
   */
  function CssRecover(s: string, j: nat, rules: seq<Rule>): (r: (seq<Rule>, nat, bool))
    requires j <= |s|
    ensures r.0 == rules
    ensures r.2 <==> '}' in s[j..]
    ensures r.2 ==> var m := SkipUntil(s, j, "}").1;
      s[m] == '}' && '}' !in s[j..m] && r.1 == SpaceEnd(s, m + 1)
    ensures !r.2 ==> r.1 == |s|
  {
    var (why, m) := SkipUntil(s, j, "}");
    assert forall l | j <= l < m :: s[l] != '}' by {
      forall l | j <= l < m ensures s[l] != '}' {
        assert s[l] !in "}";
      }
    }
    assert '}' !in s[j..m];
    if why.Some? then
      assert s[j..][m - j] == '}';
      var (_, m') := LiteralAt(s, m, '}');
      (rules, SpaceEnd(s, m'), true)
    else
      (rules, m, false)
  }

  /**
   * One pass of the `parse_css` loop from a cursor before the end: the
   * rules, the new cursor, and whether the loop goes on. A malformed rule
   * skips past the next `}`, or stops the loop when there is none; the
   * rules read before stay at the front, and at most one is added.
   */
  function CssStep(s: string, i: nat, rules: seq<Rule>): (r: (seq<Rule>, nat, bool))
    requires i < |s|
    ensures i <= r.1 <= |s|
    ensures r.2 ==> r.1 > i
    ensures !r.2 ==> r.1 == |s|
    ensures |rules| <= |r.0| <= |rules| + 1 && r.0[..|rules|] == rules
  {
    var (rule, j) := RuleAt(s, i);
    if rule.Ok? then
      (rules + [rule.value], j, true)
    else
      CssRecover(s, j, rules)
  }

  /**
   * The `parse_css` loop from cursor `i` with the rules read so far. The
   * loop always ends at the end of the input, and the rules already read
   * stay, in order, at the front of the result.
   */
  function CssFrom(s: string, i: nat, rules: seq<Rule>): (r: (seq<Rule>, nat))
    requires i <= |s|
    ensures r.1 == |s|
    ensures |rules| <= |r.0| && r.0[..|rules|] == rules
    decreases |s| - i
  {
    if i < |s| then
      var (rules', j, more) := CssStep(s, i, rules);
      if more then
        var r := CssFrom(s, j, rules');
        assert r.0[..|rules|] == r.0[..|rules'|][..|rules|];
        r
      else
        (rules', j)
    else
      (rules, i)
  }

  /** A whole rule parses at each of the cursors `cs`. */
  ghost predicate AllParse(s: string, cs: seq<nat>)
    decreases |cs|
  {
    cs == [] || (cs[0] < |s| && RuleAt(s, cs[0]).0.Ok? && AllParse(s, cs[1..]))
  }

  /** The rules that parse at the cursors `cs`, in the order of `cs`. */
  ghost function RulesAtCursors(s: string, cs: seq<nat>): seq<Rule>
    requires AllParse(s, cs)
    decreases |cs|
  {
    if cs == [] then [] else [RuleAt(s, cs[0]).0.value] + RulesAtCursors(s, cs[1..])
  }

  /** Cursors from `i` on, strictly increasing. */
  ghost predicate Increasing(cs: seq<nat>, i: nat) {
    && (forall k :: 0 <= k < |cs| ==> i <= cs[k])
    && (forall k, l :: 0 <= k < l < |cs| ==> cs[k] < cs[l])
  }

  /**
   * The cursor of the next rule the `parse_css` loop reads from cursor
   * `j`: `j` itself when a rule parses there; otherwise the loop recovers
   * past the next `}` and looks again from there; `None` when it reaches
   * the end of the input first.
   */
  ghost function NextRule(s: string, j: nat): (r: Option<nat>)
    requires j <= |s|
    ensures r.Some? ==> j <= r.value < |s| && RuleAt(s, r.value).0.Ok?
    decreases |s| - j
  {
    if j == |s| then None
    else if RuleAt(s, j).0.Ok? then Some(j)
    else
      var (_, m, more) := CssRecover(s, RuleAt(s, j).1, []);
      if more then NextRule(s, m) else None
  }

  /** Each cursor of `cs` is followed by the next rule after the rule read there, and the last by none. */
  ghost predicate Chained(s: string, cs: seq<nat>)
    decreases |cs|
  {
    cs == [] ||
      (cs[0] < |s|
       && NextRule(s, RuleAt(s, cs[0]).1) == (if |cs| == 1 then None else Some(cs[1]))
       && Chained(s, cs[1..]))
  }

  /**
   * `out` is `rules` followed by the rules that parse at the cursors `cs`,
   * and `cs` are exactly the cursors the `parse_css` loop reads rules at
   * from `i`: the first is the next rule from `i`, each later one is the
   * next rule after the one before it, and after the last there is none.
   */
  ghost predicate RulesRead(s: string, i: nat, rules: seq<Rule>, out: seq<Rule>, cs: seq<nat>)
    requires i <= |s|
  {
    && Increasing(cs, i)
    && AllParse(s, cs)
    && out == rules + RulesAtCursors(s, cs)
    && NextRule(s, i) == (if cs == [] then None else Some(cs[0]))
    && Chained(s, cs)
  }

  /**
   * The rules the `parse_css` loop appends are the rules at the cursors it
   * reads rules at, in order: from the next rule at or after `i`, each
   * following rule is the next one after the end of the one before it.
   */
  lemma {:induction false} CssFromRules(s: string, i: nat, rules: seq<Rule>)
    requires i <= |s|
    ensures exists cs :: RulesRead(s, i, rules, CssFrom(s, i, rules).0, cs)
    decreases |s| - i
  {
    var out := CssFrom(s, i, rules).0;
    if i < |s| {
      var (rules', j, more) := CssStep(s, i, rules);
      if more {
        assert out == CssFrom(s, j, rules').0;
        CssFromRules(s, j, rules');
        var cs' :| RulesRead(s, j, rules', out, cs');
        if RuleAt(s, i).0.Ok? {
          RulesReadAfterRule(s, i, rules, out, cs');
        } else {
          RulesReadAfterSkip(s, i, j, rules, out, cs');
        }
      } else {
        assert RulesRead(s, i, rules, out, []);
      }
    } else {
      assert RulesRead(s, i, rules, out, []);
    }
  }

  /** The cursors the loop reads rules at are determined by where it starts. */
  lemma {:induction false} ChainUnique(s: string, i: nat, cs1: seq<nat>, cs2: seq<nat>)
    requires i <= |s|
    requires NextRule(s, i) == (if cs1 == [] then None else Some(cs1[0])) && Chained(s, cs1)
    requires NextRule(s, i) == (if cs2 == [] then None else Some(cs2[0])) && Chained(s, cs2)
    ensures cs1 == cs2
    decreases |cs1|
  {
    if cs1 != [] {
      var j := ChainTail(s, cs1);
      var j2 := ChainTail(s, cs2);
      ChainUnique(s, j, cs1[1..], cs2[1..]);
      Seqs.HeadTail(cs1, cs2);
    }
  }

  /** The rest of a chain starts from the end `j` of the rule read at its first cursor. */
  lemma ChainTail(s: string, cs: seq<nat>) returns (j: nat)
    requires cs != [] && Chained(s, cs)
    ensures cs[0] < |s| && j == RuleAt(s, cs[0]).1 && j <= |s|
    ensures NextRule(s, j) == (if cs[1..] == [] then None else Some(cs[1..][0])) && Chained(s, cs[1..])
  {
    j := RuleAt(s, cs[0]).1;
  }

  /**
   * `RulesRead` pins the rules down: two lists it admits from the same
   * start and the same earlier rules are the same list.
   */
  lemma RulesReadDetermined(s: string, i: nat, rules: seq<Rule>, out1: seq<Rule>, cs1: seq<nat>, out2: seq<Rule>, cs2: seq<nat>)
    requires i <= |s|
    requires RulesRead(s, i, rules, out1, cs1) && RulesRead(s, i, rules, out2, cs2)
    ensures out1 == out2
  {
    ChainUnique(s, i, cs1, cs2);
  }

  /** A rule that parses at `i` is the first rule read from `i`. */
  lemma RulesReadAfterRule(s: string, i: nat, rules: seq<Rule>, out: seq<Rule>, cs: seq<nat>)
    requires i < |s| && RuleAt(s, i).0.Ok?
    requires RulesRead(s, RuleAt(s, i).1, rules + [RuleAt(s, i).0.value], out, cs)
    ensures RulesRead(s, i, rules, out, [i] + cs)
  {
    var cs' := [i] + cs;
    assert cs'[0] == i && cs'[1..] == cs;
    assert AllParse(s, cs');
    assert RulesAtCursors(s, cs') == [RuleAt(s, i).0.value] + RulesAtCursors(s, cs);
    Seqs.AppendOne(rules, RuleAt(s, i).0.value, RulesAtCursors(s, cs));
    IncreasingCons(cs, i, RuleAt(s, i).1);
  }

  lemma IncreasingCons(cs: seq<nat>, i: nat, j: nat)
    requires i < j && Increasing(cs, j)
    ensures Increasing([i] + cs, i)
  {
    var cs' := [i] + cs;
    forall k | 0 < k < |cs'| ensures i < cs'[k] {
      assert cs'[k] == cs[k - 1];
    }
  }

  /** A malformed rule at `i` adds nothing to what is read from the cursor after it. */
  lemma RulesReadAfterSkip(s: string, i: nat, m: nat, rules: seq<Rule>, out: seq<Rule>, cs: seq<nat>)
    requires i < m <= |s| && RuleAt(s, i).0.Err?
    requires CssRecover(s, RuleAt(s, i).1, []).2 && m == CssRecover(s, RuleAt(s, i).1, []).1
    requires RulesRead(s, m, rules, out, cs)
    ensures RulesRead(s, i, rules, out, cs)
  {
  }

  /**
   * `CSSParser(s).parse_css()`: the rules of a stylesheet. They are the
   * rules at the cursors the loop reads rules at from the start, in source
   * order: the next rule from cursor 0, then each next rule after the end
   * of the one before, until there is none.
   */
  function ParseStylesheet(s: string): (r: seq<Rule>)
    ensures exists cs :: RulesRead(s, 0, [], r, cs)
  {
    CssFromRules(s, 0, []);
    CssFrom(s, 0, []).0
  }

  // ---------------------------------------------------------------------
  // One-rule stylesheets, and the examples css.py runs as a script
  // ---------------------------------------------------------------------

  /**
   * A declaration written `name: value` from `i` to `e`, with one space
   * after the colon and no word character right after the value, is read
   * as the pair of the lower-cased name and the value, with the cursor
   * left at `e`.
   */
  lemma PairOfDeclaration(s: string, i: nat, j: nat, e: nat)
    requires i < j && j + 2 < e <= |s|
    requires forall m :: i <= m < j ==> IsWordChar(s[m])
    requires s[j] == ':' && s[j + 1] == ' '
    requires forall m :: j + 2 <= m < e ==> IsWordChar(s[m])
    requires e == |s| || !IsWordChar(s[e])
    ensures PairAt(s, i) == (Ok((Lower(s[i..j]), s[j + 2..e])), e)
  {
    WordEndIs(s, i, j);
    SpaceEndIs(s, j, j);
    SpaceEndIs(s, j + 1, j + 2);
    WordEndIs(s, j + 2, e);
    PairAtShape(s, i);
  }

  /**
   * A rule body holding one declaration `name: value` without a `;`,
   * followed only by whitespace up to `}` or the end, holds that one pair.
   */
  lemma OneDeclarationBody(s: string, i: nat, j: nat, e: nat, k: nat)
    requires i < j && j + 2 < e <= k <= |s|
    requires forall m :: i <= m < j ==> IsWordChar(s[m])
    requires s[j] == ':' && s[j + 1] == ' '
    requires forall m :: j + 2 <= m < e ==> IsWordChar(s[m])
    requires forall m :: e <= m < k ==> IsSpace(s[m])
    requires k == |s| || s[k] == '}'
    ensures RuleBody(s, i) == (map[Lower(s[i..j]) := s[j + 2..e]], k)
  {
    assert e == |s| || !IsWordChar(s[e]);
    PairOfDeclaration(s, i, j, e);
    SpaceEndIs(s, e, k);
    if k < |s| {
      assert SkipUntil(s, k, ";}") == (Some('}'), k);
    }
  }

  /** The text `name: value` is a rule body holding that one declaration. */
  lemma BodyOfDeclaration(name: string, value: string)
    requires IsWord(name) && IsWord(value)
    ensures var s := name + ": " + value;
      RuleBody(s, 0) == (map[Lower(name) := value], |s|)
  {
    var s := name + ": " + value;
    DeclarationText(s, 0, name, value, "");
    OneDeclarationBody(s, 0, |name|, |s|, |s|);
  }

  /** Where the parts of `name: value` lie in `s` when it starts at `i`. */
  lemma DeclarationText(s: string, i: nat, name: string, value: string, rest: string)
    requires IsWord(name) && IsWord(value)
    requires i <= |s| && s[i..] == name + ": " + value + rest
    ensures var j, e := i + |name|, i + |name| + 2 + |value|;
      && e + |rest| == |s|
      && (forall m :: i <= m < j ==> IsWordChar(s[m]))
      && s[j] == ':' && s[j + 1] == ' '
      && (forall m :: j + 2 <= m < e ==> IsWordChar(s[m]))
      && s[i..j] == name && s[j + 2..e] == value && s[e..] == rest
  {
    var j, e := i + |name|, i + |name| + 2 + |value|;
    var t := s[i..];
    forall m | i <= m < j ensures IsWordChar(s[m]) {
      assert s[m] == t[m - i] == name[m - i];
    }
    forall m | j + 2 <= m < e ensures IsWordChar(s[m]) {
      assert s[m] == t[m - i] == value[m - j - 2];
    }
    assert s[j] == t[j - i] && s[j + 1] == t[j + 1 - i];
    assert s[i..j] == t[..j - i];
    assert s[j + 2..e] == t[j + 2 - i..e - i];
    assert s[e..] == t[e - i..];
  }

  /**
   * The text `tag { name: value }` is a stylesheet of one rule: the tag
   * selector and that one declaration.
   */
  lemma StylesheetOfRule(tag: string, name: string, value: string)
    requires IsWord(tag) && IsWord(name) && IsWord(value)
    ensures ParseStylesheet(tag + " { " + name + ": " + value + " }")
         == [Rule(Tag(Lower(tag)), map[Lower(name) := value])]
  {
    var s := tag + " { " + name + ": " + value + " }";
    var t := |tag|;
    var j, e := t + 3 + |name|, t + 5 + |name| + |value|;
    RuleText(s, tag, name, value);
    RuleOfOneDeclaration(s, t, j, e, tag, name, value);
    StylesheetOfOneRule(s, Rule(Tag(Lower(tag)), map[Lower(name) := value]));
  }

  /** A text that is exactly one rule is a stylesheet of that one rule. */
  lemma StylesheetOfOneRule(s: string, rule: Rule)
    requires s != [] && RuleAt(s, 0) == (Ok(rule), |s|)
    ensures ParseStylesheet(s) == [rule]
  {
    var (rules, j, more) := CssStep(s, 0, []);
    assert rules == [rule];
    assert j == |s|;
    assert more;
    assert CssFrom(s, |s|, [rule]) == ([rule], |s|);
  }

  /**
   * `s` is laid out as `tag { name: value }`, the tag ending at `t`, the
   * name at `j` and the value at `e`.
   */
  ghost predicate OneRuleLayout(s: string, t: nat, j: nat, e: nat) {
    && 0 < t && t + 3 < j && j + 2 < e && e + 2 == |s|
    && (forall m :: 0 <= m < t ==> IsWordChar(s[m]))
    && s[t] == ' ' && s[t + 1] == '{' && s[t + 2] == ' '
    && (forall m :: t + 3 <= m < j ==> IsWordChar(s[m]))
    && s[j] == ':' && s[j + 1] == ' '
    && (forall m :: j + 2 <= m < e ==> IsWordChar(s[m]))
    && s[e] == ' ' && s[e + 1] == '}'
  }

  /** Where the parts of `tag { name: value }` lie in `s`. */
  lemma RuleText(s: string, tag: string, name: string, value: string)
    requires IsWord(tag) && IsWord(name) && IsWord(value)
    requires s == tag + " { " + name + ": " + value + " }"
    ensures var t := |tag|; var j, e := t + 3 + |name|, t + 5 + |name| + |value|;
      OneRuleLayout(s, t, j, e) && s[0..t] == tag && s[t + 3..j] == name && s[j + 2..e] == value
  {
    var t := |tag|;
    var e := t + 5 + |name| + |value|;
    forall m | 0 <= m < t ensures IsWordChar(s[m]) {
      assert s[m] == tag[m];
    }
    assert s[t + 3..] == name + ": " + value + " }";
    DeclarationText(s, t + 3, name, value, " }");
    assert s[e..] == " }";
    assert s[e] == s[e..][0] && s[e + 1] == s[e..][1];
  }

  /** The rule that `RuleAt` reads from a text laid out as `tag { name: value }`. */
  lemma RuleOfOneDeclaration(s: string, t: nat, j: nat, e: nat, tag: string, name: string, value: string)
    requires OneRuleLayout(s, t, j, e)
    requires s[0..t] == tag && s[t + 3..j] == name && s[j + 2..e] == value
    ensures RuleAt(s, 0) == (Ok(Rule(Tag(Lower(tag)), map[Lower(name) := value])), |s|)
  {
    SelectorOfLayout(s, t, j, e, tag);
    BodyOfLayout(s, t, j, e, name, value);
    SpaceEndIs(s, |s|, |s|);
  }

  /** The rule body of a text laid out as `tag { name: value }`, up to the `}`. */
  lemma BodyOfLayout(s: string, t: nat, j: nat, e: nat, name: string, value: string)
    requires OneRuleLayout(s, t, j, e) && s[t + 3..j] == name && s[j + 2..e] == value
    ensures RuleBody(s, t + 3) == (map[Lower(name) := value], e + 1)
  {
    OneDeclarationBody(s, t + 3, j, e, e + 1);
  }

  /** The selector of a text laid out as `tag { name: value }`, and the cursors around it. */
  lemma SelectorOfLayout(s: string, t: nat, j: nat, e: nat, tag: string)
    requires OneRuleLayout(s, t, j, e) && s[0..t] == tag
    ensures SpaceEnd(s, 0) == 0 && SpaceEnd(s, t + 2) == t + 3
    ensures SelectorAt(s, 0) == (Ok(Tag(Lower(tag))), t + 1)
  {
    assert !IsSpace(s[0]) && !IsSpace(s[t + 3]);
    SpaceEndIs(s, 0, 0);
    WordEndIs(s, 0, t);
    SpaceEndIs(s, t, t + 1);
    SpaceEndIs(s, t + 2, t + 3);
    assert SelectorLoop(s, t + 1, [Lower(tag)]) == (Ok([Lower(tag)]), t + 1);
  }

  /** `CSSParser("background-image: #abcdef").parse_rule_body()`. */
  lemma ExampleRuleBody(s: string)
    requires s == "background-image: #abcdef"
    ensures RuleBody(s, 0) == (map["background-image" := "#abcdef"], 25)
  {
    var name, value := "background-image", "#abcdef";
    ExampleName(name);
    ExampleValue(value);
    BodyOfDeclaration(name, value);
    ExampleBodyText(s);
  }

  /** `CSSParser("div { background-image: #abcdef }").parse_css()`. */
  lemma ExampleStylesheet(s: string)
    requires s == "div { background-image: #abcdef }"
    ensures ParseStylesheet(s) == [Rule(Tag("div"), map["background-image" := "#abcdef"])]
  {
    var tag, name, value := "div", "background-image", "#abcdef";
    ExampleTag(tag);
    ExampleName(name);
    ExampleValue(value);
    StylesheetOfRule(tag, name, value);
    ExampleSheetText(s);
  }

  /** The first example's text, by its parts. */
  lemma ExampleBodyText(s: string)
    requires s == "background-image: #abcdef"
    ensures s == "background-image" + ": " + "#abcdef"
  {
  }

  /** The second example's text, by its parts. */
  lemma ExampleSheetText(s: string)
    requires s == "div { background-image: #abcdef }"
    ensures s == "div" + " { " + "background-image" + ": " + "#abcdef" + " }"
  {
  }

  /** The words of the examples are words, and the tag and the name are already lower-case. */
  lemma ExampleTag(w: string)
    requires w == "div"
    ensures IsWord(w) && Lower(w) == w
  {
    assert forall k :: 0 <= k < |w| ==> IsWordChar(w[k]) && !IsUpper(w[k]);
    LowerOfLowerCase(w);
  }

  lemma ExampleName(w: string)
    requires w == "background-image"
    ensures IsWord(w) && Lower(w) == w
  {
    assert forall k :: 0 <= k < |w| ==> IsWordChar(w[k]) && !IsUpper(w[k]);
    LowerOfLowerCase(w);
  }

  lemma ExampleValue(w: string)
    requires w == "#abcdef"
    ensures IsWord(w)
  {
  }

  // ---------------------------------------------------------------------
  // The parser object
  // ---------------------------------------------------------------------

  class CSSParser {
    const source: string
    var index: nat

    ghost predicate Valid()
      reads this
    {
      index <= |source|
    }

    constructor (source: string)
      ensures Valid() && this.source == source && index == 0
    {
      this.source := source;
      index := 0;
    }

    /** `_create_error`: an error at the current cursor. */
    function CreateError(expected: string): (e: ParsingError)
      reads this
      requires Valid()
      ensures e.expected == expected && e.index == index
    {
      ErrorAt(source, expected, index)
    }

    /** `_whitespace`: skips the spaces at the cursor. */
    method Whitespace()
      requires Valid()
      modifies this
      ensures Valid()
      ensures index == SpaceEnd(source, old(index))
    {
      while index < |source| && IsSpace(source[index])
        invariant old(index) <= index <= |source|
        invariant SpaceEnd(source, index) == SpaceEnd(source, old(index))
        decreases |source| - index
      {
        index := index + 1;
      }
    }

    /** `_word`. */
    method Word() returns (r: Result<string>)
      requires Valid()
      modifies this
      ensures Valid()
      ensures (r, index) == WordAt(source, old(index))
    {
      var start := index;
      while index < |source|
        invariant start <= index <= |source|
        invariant WordEnd(source, index) == WordEnd(source, start)
        decreases |source| - index
      {
        if IsWordChar(source[index]) {
          index := index + 1;
        } else {
          break;
        }
      }
      if !(index > start) {
        return Err(CreateError("word"));
      }
      return Ok(source[start..index]);
    }

    /**
     * `_literal(c)`: consumes exactly one character when it is `c`;
     * otherwise an error, with the cursor unchanged.
     */
    method Literal(c: char) returns (r: Result<()>)
      requires Valid()
      modifies this
      ensures Valid()
      ensures r.Ok? <==> old(index) < |source| && source[old(index)] == c
      ensures index == if r.Ok? then old(index) + 1 else old(index)
      ensures r.Err? ==> r.error == ErrorAt(source, [c], index)
      ensures (r, index) == LiteralAt(source, old(index), c)
    {
      if !(index < |source| && source[index] == c) {
        return Err(CreateError([c]));
      }
      index := index + 1;
      return Ok(());
    }

    /** `_pair`. */
    method Pair() returns (r: Result<(string, string)>)
      requires Valid()
      modifies this
      ensures Valid()
      ensures (r, index) == PairAt(source, old(index))
    {
      ghost var i := index;
      var prop := Word();
      if prop.Err? {
        return Err(prop.error);
      }
      ghost var j := index;
      assert j == WordEnd(source, i) > i;
      Whitespace();
      var colon := Literal(':');
      if colon.Err? {
        return Err(colon.error);
      }
      Whitespace();
      ghost var v := index;
      var val := Word();
      if val.Err? {
        assert v == WordEnd(source, v);
        return Err(val.error);
      }
      assert prop.value == source[i..j] && val.value == source[v..index];
      return Ok((Lower(prop.value), val.value));
    }

    /** `_ignore_until(chars)`. */
    method IgnoreUntil(chars: string) returns (why: Option<char>)
      requires Valid()
      modifies this
      ensures Valid()
      ensures (why, index) == SkipUntil(source, old(index), chars)
    {
      while index < |source|
        invariant old(index) <= index <= |source|
        invariant SkipUntil(source, index, chars) == SkipUntil(source, old(index), chars)
        decreases |source| - index
      {
        if source[index] in chars {
          return Some(source[index]);
        }
        index := index + 1;
      }
      return None;
    }

    /** `parse_rule_body`. */
    method ParseRuleBody() returns (pairs: map<string, string>)
      requires Valid()
      modifies this
      ensures Valid()
      ensures (pairs, index) == RuleBody(source, old(index))
    {
      pairs := map[];
      while index < |source| && source[index] != '}'
        invariant old(index) <= index <= |source|
        invariant RuleBodyFrom(source, index, pairs) == RuleBody(source, old(index))
        decreases |source| - index
      {
        ghost var i0, pairs0 := index, pairs;
        var ok := false;
        var p := Pair();
        if p.Ok? {
          pairs := pairs[p.value.0 := p.value.1];
          Whitespace();
          var semi := Literal(';');
          if semi.Ok? {
            Whitespace();
            ok := true;
          }
        }
        if !ok {
          var why := IgnoreUntil(";}");
          if why == Some(';') {
            var semi := Literal(';');
            Whitespace();
          } else {
            assert (pairs, index, false) == BodyStep(source, i0, pairs0);
            break;
          }
        }
        assert (pairs, index, true) == BodyStep(source, i0, pairs0);
      }
    }

    /** `_selector`. */
    method ParseSelector() returns (r: Result<Selector>)
      requires Valid()
      modifies this
      ensures Valid()
      ensures (r, index) == SelectorAt(source, old(index))
    {
      var first := Word();
      if first.Err? {
        return Err(first.error);
      }
      var out := Tag(Lower(first.value));
      ghost var words := [Lower(first.value)];
      Whitespace();
      ghost var i1 := index;
      while index < |source| && source[index] != '{'
        invariant i1 <= index <= |source|
        invariant |words| > 0 && out == Chain(words)
        invariant SelectorLoop(source, index, words) == SelectorLoop(source, i1, [Lower(first.value)])
        decreases |source| - index
      {
        var w := Word();
        if w.Err? {
          return Err(w.error);
        }
        ghost var before := words;
        out := Descendant(out, Tag(Lower(w.value)));
        words := words + [Lower(w.value)];
        assert words[..|words| - 1] == before;
        Whitespace();
      }
      return Ok(out);
    }

    /** `parse_css`. */
    method ParseCss() returns (rules: seq<Rule>)
      requires Valid()
      modifies this
      ensures Valid()
      ensures index == |source|
      ensures rules == CssFrom(source, old(index), []).0
    {
      rules := [];
      while index < |source|
        invariant old(index) <= index <= |source|
        invariant CssFrom(source, index, rules) == CssFrom(source, old(index), [])
        decreases |source| - index
      {
        ghost var i0 := index;
        var failed := true;
        Whitespace();
        var selector := ParseSelector();
        if selector.Ok? {
          var open := Literal('{');
          if open.Ok? {
            Whitespace();
            var body := ParseRuleBody();
            var close := Literal('}');
            if close.Ok? {
              rules := rules + [Rule(selector.value, body)];
              Whitespace();
              failed := false;
            }
          }
        }
        if failed {
          var why := IgnoreUntil("}");
          if why == Some('}') {
            var close := Literal('}');
            Whitespace();
          } else {
            break;
          }
        }
      }
    }
  }
}
