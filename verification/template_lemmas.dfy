/**
 * How `SplitLiteralAndReplacement` treats each shape of template front, and
 * what that means for the rendered output.
 */
module TemplateLemmas {
  import opened Wrappers
  import opened FormatUtil
  import opened FormatVariadicDetails
  import opened FormatVariadic
  import FormatAlign

  /** `n` copies of `{`. */
  function OpenBraces(n: nat): (r: string)
    ensures |r| == n && forall i :: 0 <= i < n ==> r[i] == '{'
  {
    seq(n, _ => '{')
  }

  /** A run of exactly `k` characters satisfying `f` is what `take_while` returns. */
  lemma {:induction false} TakeWhileLength(s: string, f: char -> bool, k: nat)
    requires k <= |s|
    requires forall i :: 0 <= i < k ==> f(s[i])
    requires k == |s| || !f(s[k])
    ensures TakeWhile(s, f) == s[..k]
  {
    if k > 0 {
      TakeWhileLength(s[1..], f, k - 1);
      assert [s[0]] + s[1..][..k - 1] == s[..k];
    }
  }

  // ---------------------------------------------------------------------------
  // One split

  /** Text not starting with `{` is one literal up to the first `{` (or the end), which stays in the remainder. */
  lemma SplitPlainText(fmt: string, p: nat)
    requires 0 < p <= |fmt|
    requires forall i :: 0 <= i < p ==> fmt[i] != '{'
    requires p == |fmt| || fmt[p] == '{'
    ensures SplitLiteralAndReplacement(fmt) == Step(Literal(fmt[..p]), fmt[p..])
  {
    assert Find(fmt, '{', 0).GetOr(|fmt|) == p;
  }

  /**
   * A run of exactly `k >= 2` braces yields `k / 2` literal braces and drops
   * `2 * (k / 2)` characters, so one `{` of an odd run stays in front.
   */
  lemma SplitBraceRun(fmt: string, k: nat)
    requires 2 <= k <= |fmt|
    requires forall i :: 0 <= i < k ==> fmt[i] == '{'
    requires k == |fmt| || fmt[k] != '{'
    ensures SplitLiteralAndReplacement(fmt) == Step(Literal(OpenBraces(k / 2)), fmt[2 * (k / 2)..])
  {
    TakeWhileLength(fmt, IsOpenBrace, k);
    assert TakeFront(fmt, k / 2) == OpenBraces(k / 2);
  }

  /** `SplitBraceRun` with the literal braces taken from the front of `fmt`, as `take_front` does. */
  lemma SplitBraceRunFront(fmt: string, k: nat)
    requires 2 <= k <= |fmt|
    requires forall i :: 0 <= i < k ==> fmt[i] == '{'
    requires k == |fmt| || fmt[k] != '{'
    ensures SplitLiteralAndReplacement(fmt) == Step(Literal(fmt[..k / 2]), fmt[2 * (k / 2)..])
  {
    SplitBraceRun(fmt, k);
    assert fmt[..k / 2] == OpenBraces(k / 2);
  }

  /** A lone `{` with no `}` anywhere after it makes the whole remainder one literal. */
  lemma SplitUnterminated(fmt: string)
    requires fmt != [] && fmt[0] == '{' && (|fmt| == 1 || fmt[1] != '{')
    requires '}' !in fmt
    ensures SplitLiteralAndReplacement(fmt) == Step(Literal(fmt), [])
  {
    TakeWhileLength(fmt, IsOpenBrace, 1);
    assert Find(fmt, '}', 0).None?;
  }

  /**
   * When another `{` comes before the first `}`, the text up to that inner
   * `{` is a literal and scanning resumes there.
   */
  lemma SplitNested(fmt: string, j: nat)
    requires 2 <= j < |fmt| && fmt[0] == '{' && fmt[j] == '{'
    requires forall i :: 1 <= i < j ==> fmt[i] != '{' && fmt[i] != '}'
    requires '}' in fmt[j..]
    ensures SplitLiteralAndReplacement(fmt) == Step(Literal(fmt[..j]), fmt[j..])
  {
    TakeWhileLength(fmt, IsOpenBrace, 1);
    var bc := Find(fmt, '}', 0);
    assert bc.Some? && bc.value > j by {
      var k :| 0 <= k < |fmt[j..]| && fmt[j..][k] == '}';
      assert fmt[j + k] == '}';
    }
    assert Find(fmt, '{', 1) == Some(j);
  }

  /** `fmt` is `{p}` followed by `u`, stated position by position. */
  predicate Braced(fmt: string, p: string, u: string) {
    && |fmt| == |p| + |u| + 2
    && fmt[0] == '{' && fmt[1..|p| + 1] == p && fmt[|p| + 1] == '}' && fmt[|p| + 2..] == u
  }

  /** `{p}` followed by `u` is `Braced`. */
  lemma BracedConcat(p: string, u: string)
    ensures Braced(['{'] + p + ['}'] + u, p, u)
  {
    var fmt := ['{'] + p + ['}'] + u;
    assert fmt[1..|p| + 1] == p;
    assert fmt[|p| + 2..] == u;
  }

  /** A brace-free `{p}` group is parsed as a directive, and the text after `}` is the remainder. */
  lemma SplitDirective(p: string, u: string)
    requires NoBraces(p)
    ensures SplitLiteralAndReplacement(['{'] + p + ['}'] + u) == Step(ParseReplacementItem(p).value, u)
  {
    BracedConcat(p, u);
    SplitBraced(['{'] + p + ['}'] + u, p, u);
  }

  /** `SplitDirective` for a template given position by position. */
  lemma SplitBraced(fmt: string, p: string, u: string)
    requires NoBraces(p) && Braced(fmt, p, u)
    ensures SplitLiteralAndReplacement(fmt) == Step(ParseReplacementItem(p).value, u)
  {
    BracedScan(fmt, p, u);
  }

  /** What the scan of a `Braced` template finds: one `{`, the `}` after `p`, and no `{` in between. */
  lemma BracedScan(fmt: string, p: string, u: string)
    requires NoBraces(p) && Braced(fmt, p, u)
    ensures 1 < |fmt| && fmt[0] == '{' && fmt[1] != '{'
    ensures TakeWhile(fmt, IsOpenBrace) == fmt[..1]
    ensures Find(fmt, '}', 0) == Some(|p| + 1)
    ensures var bo2 := Find(fmt, '{', 1); bo2.Some? ==> bo2.value > |p| + 1
    ensures Slice(fmt, 1, |p| + 1) == p && Substr(fmt, |p| + 2, |fmt|) == u
  {
    assert forall i :: 1 <= i <= |p| ==> fmt[i] == fmt[1..|p| + 1][i - 1];
    TakeWhileLength(fmt, IsOpenBrace, 1);
    assert Find(fmt, '}', 0) == Some(|p| + 1);
    var bo2 := Find(fmt, '{', 1);
    assert bo2.Some? ==> bo2.value > |p| + 1;
    assert Slice(fmt, 1, |p| + 1) == p;
    assert Substr(fmt, |p| + 2, |fmt|) == u;
  }

  // ---------------------------------------------------------------------------
  // Rendering, split by split

  /** Rendering a template is rendering its first item, then the remainder. */
  lemma RenderStep(fmt: string, adapters: seq<Adapter>)
    requires fmt != []
    ensures var step := SplitLiteralAndReplacement(fmt);
      Render(fmt, adapters) == RenderItem(step.item, adapters) + Render(step.rest, adapters)
  {
    var step := SplitLiteralAndReplacement(fmt);
    var tail := ParseFormatString(step.rest);
    var head := if step.item.Empty? then [] else [step.item];
    assert ParseFormatString(fmt) == head + tail;
    RenderItemsCons(step.item, tail, adapters);
  }

  /** An item emitted in front of others renders in front of them; an `Empty` one is not emitted. */
  lemma RenderItemsCons(item: ReplacementItem, tail: seq<ReplacementItem>, adapters: seq<Adapter>)
    ensures var head := if item.Empty? then [] else [item];
      RenderItems(head + tail, adapters) == RenderItem(item, adapters) + RenderItems(tail, adapters)
  {
    var head := if item.Empty? then [] else [item];
    if item.Empty? {
      assert head + tail == tail;
    } else {
      assert (head + tail)[0] == item;
      assert (head + tail)[1..] == tail;
    }
  }

  /** A template without `{` is a single literal and renders as itself. */
  lemma RenderPlainText(fmt: string, adapters: seq<Adapter>)
    requires '{' !in fmt
    ensures fmt != [] ==> ParseFormatString(fmt) == [Literal(fmt)]
    ensures Render(fmt, adapters) == fmt
  {
    if fmt != [] {
      SplitPlainText(fmt, |fmt|);
      assert fmt[..|fmt|] == fmt && fmt[|fmt|..] == [];
      assert ParseFormatString(fmt) == [Literal(fmt)] + ParseFormatString([]);
      RenderStep(fmt, adapters);
    }
  }

  /** A maximal run of text without `{` at the front is emitted verbatim. */
  lemma RenderTextRun(fmt: string, p: nat, adapters: seq<Adapter>)
    requires 0 < p <= |fmt|
    requires forall i :: 0 <= i < p ==> fmt[i] != '{'
    requires p == |fmt| || fmt[p] == '{'
    ensures Render(fmt, adapters) == fmt[..p] + Render(fmt[p..], adapters)
  {
    SplitPlainText(fmt, p);
    RenderStep(fmt, adapters);
  }

  /** A run of exactly `k >= 2` braces at the front is emitted as `k / 2` braces. */
  lemma RenderBraceRun(fmt: string, k: nat, adapters: seq<Adapter>)
    requires 2 <= k <= |fmt|
    requires forall i :: 0 <= i < k ==> fmt[i] == '{'
    requires k == |fmt| || fmt[k] != '{'
    ensures Render(fmt, adapters) == fmt[..k / 2] + Render(fmt[2 * (k / 2)..], adapters)
  {
    SplitBraceRunFront(fmt, k);
    RenderStep(fmt, adapters);
  }


  /** A character other than `{` is emitted as it stands. */
  lemma RenderPlainChar(c: char, u: string, adapters: seq<Adapter>)
    requires c != '{'
    ensures Render([c] + u, adapters) == [c] + Render(u, adapters)
  {
    var q := Find(u, '{', 0).GetOr(|u|);
    ConsTextRun(c, u, q);
    RenderTextRun([c] + u, q + 1, adapters);
    ConcatAssoc([c], u[..q], Render(u[q..], adapters));
    if q > 0 {
      RenderTextRun(u, q, adapters);
    } else {
      assert u[..q] == [] && u[q..] == u;
    }
  }


  /** An escaped `{{` is emitted as one `{`, whatever follows it. */
  lemma RenderEscapedBrace(u: string, adapters: seq<Adapter>)
    ensures Render(['{', '{'] + u, adapters) == ['{'] + Render(u, adapters)
  {
    var braces := TakeWhile(u, IsOpenBrace);
    assert forall i :: 0 <= i < |braces| ==> u[i] == braces[i];
    var fmt := ['{', '{'] + u;
    assert fmt[2..] == u;
    RenderEscapedBraceBefore(fmt, u, |braces|, adapters);
  }

  /** `{{` in front of a template `u` that starts with a run of `j` braces. */
  lemma RenderEscapedBraceBefore(fmt: string, u: string, j: nat, adapters: seq<Adapter>)
    requires |fmt| == |u| + 2 && fmt[0] == '{' && fmt[1] == '{' && fmt[2..] == u
    requires j <= |u|
    requires forall i :: 0 <= i < j ==> u[i] == '{'
    requires j == |u| || u[j] != '{'
    ensures Render(fmt, adapters) == ['{'] + Render(u, adapters)
  {
    if j >= 2 {
      RenderEscapedBraceRun(fmt, u, j, adapters);
    } else {
      RenderEscapedBraceAlone(fmt, u, j, adapters);
    }
  }

  /** `{{` in front of a run of `j >= 2` braces: both runs give up their halves together. */
  lemma RenderEscapedBraceRun(fmt: string, u: string, j: nat, adapters: seq<Adapter>)
    requires |fmt| == |u| + 2 && fmt[0] == '{' && fmt[1] == '{' && fmt[2..] == u
    requires 2 <= j <= |u|
    requires forall i :: 0 <= i < j ==> u[i] == '{'
    requires j == |u| || u[j] != '{'
    ensures Render(fmt, adapters) == ['{'] + Render(u, adapters)
  {
    RenderLongerRun(fmt, u, j, adapters);
    BraceBraceRun(fmt, u, j);
    RenderBraceRun(u, j, adapters);
    RegroupBraces(Render(fmt, adapters), Render(u, adapters),
                  Render(u[2 * (j / 2)..], adapters), fmt[..j / 2 + 1], u[..j / 2]);
  }

  /** `{{` in front of at most one brace: the pair alone is the run. */
  lemma RenderEscapedBraceAlone(fmt: string, u: string, j: nat, adapters: seq<Adapter>)
    requires |fmt| == |u| + 2 && fmt[0] == '{' && fmt[1] == '{' && fmt[2..] == u
    requires j < 2 && j <= |u|
    requires forall i :: 0 <= i < j ==> u[i] == '{'
    requires j == |u| || u[j] != '{'
    ensures Render(fmt, adapters) == ['{'] + Render(u, adapters)
  {
    BraceBraceRun(fmt, u, j);
    assert fmt[..1] == ['{'];
    RenderBraceRunTo(fmt, j + 2, 1, u, adapters);
  }

  /** A run of `j` braces after `{{` is a run of `j + 2`. */
  lemma RenderLongerRun(fmt: string, u: string, j: nat, adapters: seq<Adapter>)
    requires |fmt| == |u| + 2 && fmt[0] == '{' && fmt[1] == '{' && fmt[2..] == u
    requires j <= |u|
    requires forall i :: 0 <= i < j ==> u[i] == '{'
    requires j == |u| || u[j] != '{'
    ensures Render(fmt, adapters) == fmt[..j / 2 + 1] + Render(u[2 * (j / 2)..], adapters)
  {
    BraceBraceRun(fmt, u, j);
    RenderBraceRunTo(fmt, j + 2, j / 2 + 1, u[2 * (j / 2)..], adapters);
  }

  /** `RenderBraceRun` with the number of literal braces and the remainder named. */
  lemma RenderBraceRunTo(fmt: string, k: nat, n: nat, rest: string, adapters: seq<Adapter>)
    requires 2 <= k <= |fmt| && n == k / 2
    requires forall i :: 0 <= i < k ==> fmt[i] == '{'
    requires k == |fmt| || fmt[k] != '{'
    requires rest == fmt[2 * n..]
    ensures Render(fmt, adapters) == fmt[..n] + Render(rest, adapters)
  {
    RenderBraceRun(fmt, k, adapters);
  }


  /** A brace-free `{p}` group renders as its directive, followed by the rest. */
  lemma RenderDirective(p: string, u: string, adapters: seq<Adapter>)
    requires NoBraces(p)
    ensures Render(['{'] + p + ['}'] + u, adapters)
            == RenderItem(ParseReplacementItem(p).value, adapters) + Render(u, adapters)
  {
    BracedConcat(p, u);
    RenderBraced(['{'] + p + ['}'] + u, p, u, adapters);
  }

  /** `RenderDirective` for a template given position by position. */
  lemma RenderBraced(fmt: string, p: string, u: string, adapters: seq<Adapter>)
    requires NoBraces(p) && Braced(fmt, p, u)
    ensures Render(fmt, adapters) == RenderItem(ParseReplacementItem(p).value, adapters) + Render(u, adapters)
  {
    SplitBraced(fmt, p, u);
    RenderStep(fmt, adapters);
  }

  // ---------------------------------------------------------------------------
  // Malformed and unbound directives

  /**
   * An index that cannot be parsed: nothing, a non-digit, or an octal prefix
   * `0` followed by `8` or `9`.
   */
  predicate BadIndex(t: string) {
    t == [] || !IsDigit(t[0]) || (t[0] == '0' && |t| > 1 && (t[1] == '8' || t[1] == '9'))
  }

  /** A directive whose trimmed text starts with a bad index parses to an `Empty` item. */
  lemma ParseBadIndex(p: string)
    requires NoBraces(p) && BadIndex(Trim(p, Whitespace))
    ensures ParseReplacementItem(p) == Some(Empty)
  {
    TrimKeeps(p, "{}");
    var t := Trim(p, Whitespace);
    var sensed := SenseRadix(t, 0);
    assert sensed.str == [] || !IsRadixDigit(sensed.str[0], sensed.radix);
    assert DigitRun(sensed.str, sensed.radix) == 0;
  }

  /** ...and so the whole `{p}` group vanishes from the output. */
  lemma RenderDropsBadIndex(p: string, u: string, adapters: seq<Adapter>)
    requires NoBraces(p) && BadIndex(Trim(p, Whitespace))
    ensures Render(['{'] + p + ['}'] + u, adapters) == Render(u, adapters)
  {
    ParseBadIndex(p);
    RenderDirective(p, u, adapters);
  }

  /** A directive whose index has a bound argument is emitted as that argument, aligned as the directive says. */
  lemma RenderBoundIndex(p: string, u: string, adapters: seq<Adapter>)
    requires NoBraces(p)
    requires ParseReplacementItem(p).value.Format? && ParseReplacementItem(p).value.index < |adapters|
    ensures var ri := ParseReplacementItem(p).value;
      Render(['{'] + p + ['}'] + u, adapters)
      == FormatAlign.Format(adapters[ri.index], ri.where, ri.align, ri.pad, ri.options) + Render(u, adapters)
  {
    RenderDirective(p, u, adapters);
  }

  /** A directive whose index has no bound argument is emitted as the text between its braces. */
  lemma RenderUnboundIndex(p: string, u: string, adapters: seq<Adapter>)
    requires NoBraces(p)
    requires ParseReplacementItem(p).value.Format? && ParseReplacementItem(p).value.index >= |adapters|
    ensures Render(['{'] + p + ['}'] + u, adapters) == p + Render(u, adapters)
  {
    RenderDirective(p, u, adapters);
  }

  // ---------------------------------------------------------------------------
  // Proof helpers: sequence bookkeeping with no counterpart in the source

  /** Regrouping a concatenation, kept apart from any rendering in scope. */
  lemma ConcatAssoc(a: string, b: string, c: string)
    ensures (a + b) + c == a + (b + c)
    ensures [] + c == c
  {
  }

  /** Slicing `[c] + u` around a text run of `u`. */
  lemma ConsTextRun(c: char, u: string, q: nat)
    requires c != '{' && q <= |u|
    requires forall i :: 0 <= i < q ==> u[i] != '{'
    requires q == |u| || u[q] == '{'
    ensures var fmt := [c] + u;
      && (forall i :: 0 <= i < q + 1 ==> fmt[i] != '{')
      && (q + 1 == |fmt| || fmt[q + 1] == '{')
      && fmt[..q + 1] == [c] + u[..q] && fmt[q + 1..] == u[q..]
  {
    var fmt := [c] + u;
    assert forall i :: 1 <= i <= q ==> fmt[i] == u[i - 1];
  }

  /** Slicing `{{` + `u` around the brace run at the front of `u`. */
  lemma BraceBraceRun(fmt: string, u: string, j: nat)
    requires |fmt| == |u| + 2 && fmt[0] == '{' && fmt[1] == '{' && fmt[2..] == u
    requires j <= |u|
    requires forall i :: 0 <= i < j ==> u[i] == '{'
    requires j == |u| || u[j] != '{'
    ensures forall i :: 0 <= i < j + 2 ==> fmt[i] == '{'
    ensures j + 2 == |fmt| || fmt[j + 2] != '{'
    ensures fmt[2 * (j / 2 + 1)..] == u[2 * (j / 2)..]
    ensures fmt[..j / 2 + 1] == ['{'] + u[..j / 2]
  {
    assert forall i :: 2 <= i < |fmt| ==> fmt[i] == u[i - 2];
  }

  /** The bookkeeping of `RenderEscapedBraceBefore`, apart from any rendering. */
  lemma RegroupBraces(whole: string, tail: string, after: string, more: string, fewer: string)
    requires whole == more + after && more == ['{'] + fewer
    requires tail == fewer + after
    ensures whole == ['{'] + tail
  {
    ConcatAssoc(['{'], fewer, after);
  }
}
