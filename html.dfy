/**
 * `render_html` of baby_browser/html.py: a scan over the characters with
 * one flag, `in_tag`, set by `<` and cleared by `>`; every other character
 * met outside a tag is printed. The printed text is returned here.
 */
module Html {

  /** The flag after scanning `s` from flag `t`. */
  function InTagAfter(s: string, t: bool): bool
    decreases |s|
  {
    if s == [] then t
    else
      var c := s[|s| - 1];
      if c == '<' then true
      else if c == '>' then false
      else InTagAfter(s[..|s| - 1], t)
  }

  /** The characters printed while scanning `s` from flag `t`. */
  function Strip(s: string, t: bool): (r: string)
    ensures |r| <= |s|
    decreases |s|
  {
    if s == [] then []
    else
      var p, c := s[..|s| - 1], s[|s| - 1];
      if c == '<' || c == '>' || InTagAfter(p, t) then Strip(p, t) else Strip(p, t) + [c]
  }

  /** `render_html`: the text outside the tags. */
  method RenderHtml(html: string) returns (out: string)
    ensures out == Strip(html, false)
  {
    var inTag := false;
    out := [];
    for i := 0 to |html|
      invariant inTag == InTagAfter(html[..i], false)
      invariant out == Strip(html[..i], false)
    {
      var c := html[i];
      assert html[..i + 1][..i] == html[..i];
      if c == '<' {
        inTag := true;
      } else if c == '>' {
        inTag := false;
      } else if !inTag {
        out := out + [c];
      }
    }
    assert html[..|html|] == html;
  }

  /** `a` occurs in `b` in order, possibly with gaps. */
  predicate IsSubsequence(a: string, b: string)
    decreases |b|
  {
    if a == [] then true
    else if b == [] then false
    else if a[|a| - 1] == b[|b| - 1] then IsSubsequence(a[..|a| - 1], b[..|b| - 1])
    else IsSubsequence(a, b[..|b| - 1])
  }

  lemma {:induction false} SubsequenceExtend(a: string, b: string, c: char)
    requires IsSubsequence(a, b)
    ensures IsSubsequence(a, b + [c])
    decreases |b|, 1
  {
    var bc := b + [c];
    assert bc[..|bc| - 1] == b;
    if a != [] && a[|a| - 1] == c {
      SubsequenceDropLast(a, b);
    }
  }

  lemma {:induction false} SubsequenceDropLast(a: string, b: string)
    requires a != [] && IsSubsequence(a, b)
    ensures IsSubsequence(a[..|a| - 1], b)
    decreases |b|, 0
  {
    var a0 := a[..|a| - 1];
    if b != [] {
      var b0 := b[..|b| - 1];
      if a[|a| - 1] == b[|b| - 1] {
        assert IsSubsequence(a0, b0);
        SubsequenceExtend(a0, b0, b[|b| - 1]);
        assert b0 + [b[|b| - 1]] == b;
      } else {
        SubsequenceDropLast(a, b0);
        SubsequenceExtend(a0, b0, b[|b| - 1]);
        assert b0 + [b[|b| - 1]] == b;
      }
    }
  }

  /** The output never contains `<` or `>`. */
  lemma {:induction false} NoBrackets(s: string, t: bool)
    ensures '<' !in Strip(s, t) && '>' !in Strip(s, t)
    decreases |s|
  {
    if s != [] {
      NoBrackets(s[..|s| - 1], t);
    }
  }

  /** The output is the input with some characters left out, in order. */
  lemma {:induction false} OutputIsSubsequence(s: string, t: bool)
    ensures IsSubsequence(Strip(s, t), s)
    decreases |s|
  {
    if s != [] {
      var p, c := s[..|s| - 1], s[|s| - 1];
      OutputIsSubsequence(p, t);
      assert p + [c] == s;
      var o := Strip(p, t);
      if Strip(s, t) == o {
        SubsequenceExtend(o, p, c);
      } else {
        var oc := o + [c];
        assert oc[..|oc| - 1] == o;
      }
    }
  }

  /** Text with neither `<` nor `>` is printed unchanged. */
  lemma {:induction false} PlainTextUnchanged(s: string)
    requires '<' !in s && '>' !in s
    ensures Strip(s, false) == s && !InTagAfter(s, false)
    decreases |s|
  {
    if s != [] {
      var p := s[..|s| - 1];
      assert '<' !in p && '>' !in p by {
        forall i | 0 <= i < |p| ensures p[i] == s[i] { }
      }
      PlainTextUnchanged(p);
      assert p + [s[|s| - 1]] == s;
    }
  }

  /** Scanning `a + b` is scanning `a`, then `b` from the flag `a` left. */
  lemma {:induction false} ScanAppend(a: string, b: string, t: bool)
    ensures InTagAfter(a + b, t) == InTagAfter(b, InTagAfter(a, t))
    ensures Strip(a + b, t) == Strip(a, t) + Strip(b, InTagAfter(a, t))
    decreases |b|
  {
    if b == [] {
      assert a + b == a;
    } else {
      var ab := a + b;
      var b0 := b[..|b| - 1];
      assert ab[..|ab| - 1] == a + b0;
      assert ab[|ab| - 1] == b[|b| - 1];
      ScanAppend(a, b0, t);
    }
  }

  /** From a `<` the flag stays set, and nothing is printed, until a `>`. */
  lemma {:induction false} InsideTag(b: string, t: bool)
    requires '>' !in b
    ensures Strip("<" + b, t) == [] && InTagAfter("<" + b, t)
    decreases |b|
  {
    var s := "<" + b;
    if b == [] {
      assert s[..0] == [];
    } else {
      var b0 := b[..|b| - 1];
      assert '>' !in b0 by {
        forall i | 0 <= i < |b0| ensures b0[i] == b[i] { }
      }
      assert s[..|s| - 1] == "<" + b0;
      assert s[|s| - 1] == b[|b| - 1];
      InsideTag(b0, t);
    }
  }

  /**
   * Everything from a `<` to the next `>` is dropped, however many `<` it
   * holds: there is no nesting.
   */
  lemma TagDropped(a: string, b: string, c: string)
    requires '>' !in b
    ensures Strip(a + "<" + b + ">" + c, false) == Strip(a, false) + Strip(c, false)
  {
    var t := InTagAfter(a, false);
    InsideTag(b, t);
    var tag := "<" + b + ">";
    ScanAppend("<" + b, ">", t);
    assert ">"[..0] == [];
    assert Strip(tag, t) == [] && !InTagAfter(tag, t);
    assert a + "<" + b + ">" + c == a + (tag + c);
    ScanAppend(tag, c, t);
    ScanAppend(a, tag + c, false);
  }

  /** An unclosed `<` drops the rest of the input. */
  lemma UnclosedTagDropsRest(a: string, b: string)
    requires '>' !in b
    ensures Strip(a + "<" + b, false) == Strip(a, false)
  {
    InsideTag(b, InTagAfter(a, false));
    assert a + "<" + b == a + ("<" + b);
    ScanAppend(a, "<" + b, false);
  }
}
