/**
 * The `formatv` engine (src/FormatVariadic.h): splitting a template into
 * literal and replacement items, parsing `{index[,layout][:options]}`
 * directives, and rendering the items with the bound adapters.
 *
 * Release-build behaviour is modelled: the source's `assert(false)` calls are
 * no-ops, so malformed directives degrade instead of aborting.
 */
module FormatVariadic {
  import opened Wrappers
  import opened FormatUtil
  import opened FormatVariadicDetails
  import FormatAlign

  /** `ReplacementItem` with its `ReplacementType` as the constructor. */
  datatype ReplacementItem =
    | Empty
    | Literal(spec: string)
    | Format(spec: string, index: nat, align: nat, where: FormatAlign.AlignStyle, pad: char, options: string)

  /** Neither brace occurs in `s`. */
  predicate NoBraces(s: string) {
    '{' !in s && '}' !in s
  }

  // ---------------------------------------------------------------------------
  // Directive parsing

  /** The by-reference outputs of `ConsumeFieldLayout`: success flag, layout, and what is left of `spec`. */
  datatype FieldLayout = FieldLayout(ok: bool, where: FormatAlign.AlignStyle, align: nat, pad: char, rest: string)

  /** The fill and style at the front of a layout, and the text the width is read from. */
  datatype LayoutPrefix = LayoutPrefix(where: FormatAlign.AlignStyle, pad: char, rest: string)

  /**
   * The first half of `ConsumeFieldLayout`: a style in `spec[1]` makes
   * `spec[0]` the fill; otherwise a style in `spec[0]` is taken alone; a
   * one-character layout is only ever a width.
   */
  function ReadLayoutPrefix(spec: string): (r: LayoutPrefix)
    requires spec != []
    ensures |spec| == 1 ==> r == LayoutPrefix(FormatAlign.Right, ' ', spec)
    // a style in `spec[1]` is always taken, with `spec[0]` as the fill
    ensures |spec| > 1 && TranslateLocChar(spec[1]).Some? ==>
      r == LayoutPrefix(TranslateLocChar(spec[1]).value, spec[0], spec[2..])
    // failing that, a style in `spec[0]` is taken alone
    ensures |spec| > 1 && TranslateLocChar(spec[1]).None? && TranslateLocChar(spec[0]).Some? ==>
      r == LayoutPrefix(TranslateLocChar(spec[0]).value, ' ', spec[1..])
    // with a style in neither, nothing is consumed and the defaults stand
    ensures |spec| > 1 && TranslateLocChar(spec[1]).None? && TranslateLocChar(spec[0]).None? ==>
      r == LayoutPrefix(FormatAlign.Right, ' ', spec)
    ensures r.pad != ' ' ==> |spec| > 1 && r.pad == spec[0] && TranslateLocChar(spec[1]) == Some(r.where)
    ensures r.where != FormatAlign.Right ==>
      |spec| > 1 && (TranslateLocChar(spec[1]) == Some(r.where)
                     || (TranslateLocChar(spec[0]) == Some(r.where) && r.pad == ' '))
    ensures IsSuffix(r.rest, spec)
  {
    if |spec| > 1 && TranslateLocChar(spec[1]).Some? then
      LayoutPrefix(TranslateLocChar(spec[1]).value, spec[0], DropFront(spec, 2))
    else if |spec| > 1 && TranslateLocChar(spec[0]).Some? then
      LayoutPrefix(TranslateLocChar(spec[0]).value, ' ', DropFront(spec, 1))
    else
      LayoutPrefix(FormatAlign.Right, ' ', spec)
  }

  /**
   * `ConsumeFieldLayout(spec, where, align, pad)`: an optional fill and style
   * prefix, then a width. It fails, with width 0, when no width follows.
   */
  function ConsumeFieldLayout(spec: string): (r: FieldLayout)
    // an empty layout, as in `{0,}`, succeeds with every default
    ensures spec == [] ==> r == FieldLayout(true, FormatAlign.Right, 0, ' ', [])
    ensures |spec| <= 1 ==> r.where == FormatAlign.Right && r.pad == ' '
    ensures r.pad != ' ' ==> |spec| > 1 && r.pad == spec[0] && TranslateLocChar(spec[1]) == Some(r.where)
    ensures r.where != FormatAlign.Right ==>
      |spec| > 1 && (TranslateLocChar(spec[1]) == Some(r.where)
                     || (TranslateLocChar(spec[0]) == Some(r.where) && r.pad == ' '))
    // the style rules of `ReadLayoutPrefix`, in the direction that takes a style
    ensures |spec| > 1 && TranslateLocChar(spec[1]).Some? ==>
      r.where == TranslateLocChar(spec[1]).value && r.pad == spec[0]
    ensures |spec| > 1 && TranslateLocChar(spec[1]).None? && TranslateLocChar(spec[0]).Some? ==>
      r.where == TranslateLocChar(spec[0]).value && r.pad == ' '
    ensures r.ok ==> r.align < SizeLimit
    ensures !r.ok ==> r.align == 0 && spec != []
    // the width is the integer read after the prefix; failing to read one fails the layout
    ensures spec != [] ==>
      var prefix := ReadLayoutPrefix(spec);
      var width := ConsumeInteger(prefix.rest, 0, SizeLimit);
      && r.where == prefix.where && r.pad == prefix.pad && r.rest == width.rest
      && (r.ok <==> width.value.Some?)
      && (r.ok ==> r.align == width.value.value)
    ensures IsSuffix(r.rest, spec)
    ensures r.ok && spec != [] ==> |r.rest| < |spec|
  {
    if spec == [] then FieldLayout(true, FormatAlign.Right, 0, ' ', spec)
    else
      var prefix := ReadLayoutPrefix(spec);
      var r := ReadWidth(prefix);
      SuffixTransitive(r.rest, prefix.rest, spec);
      r
  }

  /** The second half of `ConsumeFieldLayout`: the width after the fill and style. */
  function ReadWidth(prefix: LayoutPrefix): (r: FieldLayout)
    ensures var width := ConsumeInteger(prefix.rest, 0, SizeLimit);
      && r.where == prefix.where && r.pad == prefix.pad && r.rest == width.rest
      && (r.ok <==> width.value.Some?)
      && (r.ok ==> r.align == width.value.value)
    ensures !r.ok ==> r.align == 0
    ensures r.ok ==> r.align < SizeLimit && |r.rest| < |prefix.rest|
    ensures IsSuffix(r.rest, prefix.rest)
  {
    var width := ConsumeInteger(prefix.rest, 0, SizeLimit);
    if width.value.None? then FieldLayout(false, prefix.where, 0, prefix.pad, width.rest)
    else FieldLayout(true, prefix.where, width.value.value, prefix.pad, width.rest)
  }

  /**
   * `ParseReplacementItem(spec)`: the text between a pair of braces as a
   * directive. An index that does not parse yields an `Empty` item; a bad
   * layout or trailing junk is ignored and still yields a `Format` item.
   * The source's `std::optional` result is never `nullopt`.
   */
  function ParseReplacementItem(spec: string): (r: Option<ReplacementItem>)
    ensures r.Some? && !r.value.Literal?
    // only an index that does not parse drops the directive; otherwise the item carries it
    ensures var index := ConsumeInteger(Trim(Trim(spec, "{}"), Whitespace), 0, SizeLimit);
      && (r.value.Empty? <==> index.value.None?)
      && (r.value.Format? ==> r.value.index == index.value.value)
    // the layout and options of a `Format` item are what `ParseAfterIndex` reads after the index
    ensures var index := ConsumeInteger(Trim(Trim(spec, "{}"), Whitespace), 0, SizeLimit);
      r.value.Format? ==> r.value == ParseAfterIndex(spec, index.value.value, Trim(index.rest, Whitespace))
    ensures r.value.Format? ==>
      && r.value.spec == spec
      && r.value.index < SizeLimit
      && r.value.align < SizeLimit
      && Trim(r.value.options, Whitespace) == r.value.options
  {
    var repString := Trim(Trim(spec, "{}"), Whitespace);
    var index := ConsumeInteger(repString, 0, SizeLimit);
    if index.value.None? then Some(Empty)
    else Some(ParseAfterIndex(spec, index.value.value, Trim(index.rest, Whitespace)))
  }

  /**
   * The rest of `ParseReplacementItem` once the index is read: an optional
   * `,layout`, then an optional `:options`, whose surrounding whitespace is
   * trimmed. Whatever is left after the options is ignored in a release build.
   */
  function ParseAfterIndex(spec: string, index: nat, afterIndex: string): (r: ReplacementItem)
    requires index < SizeLimit
    ensures r.Format? && r.spec == spec && r.index == index && r.align < SizeLimit
    ensures Trim(r.options, Whitespace) == r.options
    // after a `,` the layout is what `ConsumeFieldLayout` reads, and the options come from what it leaves
    ensures afterIndex != [] && afterIndex[0] == ',' ==>
      var layout := ConsumeFieldLayout(afterIndex[1..]);
      && r.where == layout.where && r.align == layout.align && r.pad == layout.pad
      && r.options == ParseOptions(Trim(layout.rest, Whitespace))
    // with no `,` the layout defaults and the options come from the whole remainder
    ensures afterIndex == [] || afterIndex[0] != ',' ==>
      && r.where == FormatAlign.Right && r.align == 0 && r.pad == ' '
      && r.options == ParseOptions(Trim(afterIndex, Whitespace))
  {
    var layout :=
      if afterIndex != [] && afterIndex[0] == ',' then ConsumeFieldLayout(DropFront(afterIndex, 1))
      else FieldLayout(true, FormatAlign.Right, 0, ' ', afterIndex);
    Format(spec, index, layout.align, layout.where, layout.pad, ParseOptions(Trim(layout.rest, Whitespace)))
  }

  /** The options of a directive: the trimmed text after a leading `:`, or nothing. */
  function ParseOptions(afterLayout: string): (options: string)
    ensures Trim(options, Whitespace) == options
    ensures afterLayout != [] && afterLayout[0] == ':' ==> options == Trim(afterLayout[1..], Whitespace)
    ensures afterLayout == [] || afterLayout[0] != ':' ==> options == []
  {
    if afterLayout != [] && afterLayout[0] == ':' then
      TrimIdempotent(DropFront(afterLayout, 1), Whitespace);
      Trim(DropFront(afterLayout, 1), Whitespace)
    else []
  }

  // ---------------------------------------------------------------------------
  // Splitting a template

  /** The pair `SplitLiteralAndReplacement` returns: one item and the unscanned remainder. */
  datatype Step = Step(item: ReplacementItem, rest: string)

  /** The predicate `SplitLiteralAndReplacement` passes to `take_while`. */
  predicate IsOpenBrace(c: char) {
    c == '{'
  }

  /**
   * What every split promises: the remainder is a suffix of `fmt`, a strict
   * one for a non-empty template; a literal's text is a prefix of `fmt`,
   * either everything consumed or half of a consumed run of `{`; a `Format`
   * item, like a dropped `Empty` one, is exactly one brace-free `{...}` group.
   */
  ghost predicate SplitShape(fmt: string, r: Step) {
    && |r.rest| <= |fmt| && r.rest == fmt[|fmt| - |r.rest|..]
    && (fmt != [] ==> |r.rest| < |fmt|)
    && (r.item.Literal? && fmt != [] ==>
         var used := |fmt| - |r.rest|;
         && 0 < |r.item.spec| <= used
         && r.item.spec == fmt[..|r.item.spec|]
         && (|r.item.spec| == used
             || (used == 2 * |r.item.spec| && forall i :: 0 <= i < used ==> fmt[i] == '{')))
    && (r.item.Format? ==>
         NoBraces(r.item.spec) && fmt[..|fmt| - |r.rest|] == ['{'] + r.item.spec + ['}'])
    && (r.item.Empty? ==>
         var used := |fmt| - |r.rest|;
         used >= 2 && fmt[0] == '{' && fmt[used - 1] == '}' && NoBraces(fmt[1..used - 1]))
  }

  /** src/FormatVariadic.h:208-211: text up to the first `{`, or all of it, is one literal. */
  function SplitText(fmt: string): (r: Step)
    requires fmt != [] && fmt[0] != '{'
    ensures SplitShape(fmt, r)
    ensures r.item.Literal? && '{' !in r.item.spec && (r.rest == [] || r.rest[0] == '{')
  {
    // `npos` is clamped to the length by `substr`
    var bo := Find(fmt, '{', 0).GetOr(|fmt|);
    Step(Literal(Substr(fmt, 0, bo)), Substr(fmt, bo, |fmt|))
  }

  /** src/FormatVariadic.h:216-224: a run of `k >= 2` braces gives `k / 2` literal braces and drops `2 * (k / 2)`. */
  function SplitBraceRun(fmt: string, braces: string): (r: Step)
    requires 1 < |braces| <= |fmt| && braces == fmt[..|braces|]
    requires forall i :: 0 <= i < |braces| ==> braces[i] == '{'
    ensures SplitShape(fmt, r)
    ensures r.item.Literal? && forall i :: 0 <= i < |r.item.spec| ==> r.item.spec[i] == '{'
    ensures r == Step(Literal(fmt[..|braces| / 2]), fmt[2 * (|braces| / 2)..])
  {
    var numEscapedBraces := |braces| / 2;
    Step(Literal(TakeFront(fmt, numEscapedBraces)), DropFront(fmt, numEscapedBraces * 2))
  }

  /**
   * src/FormatVariadic.h:228-252, for a single leading `{` and the first `}` at `bc`: an
   * inner `{` before `bc` ends a literal there; otherwise the text between
   * the braces is parsed as a directive.
   */
  function SplitAtClosingBrace(fmt: string, bc: nat): (r: Step)
    requires 1 < |fmt| && fmt[0] == '{' && fmt[1] != '{'
    requires bc < |fmt| && fmt[bc] == '}' && forall i :: 0 <= i < bc ==> fmt[i] != '}'
    ensures SplitShape(fmt, r)
  {
    var bo2 := Find(fmt, '{', 1);
    if bo2.Some? && bo2.value < bc then
      SplitBeforeBrace(fmt, bo2.value)
    else
      assert NoBraces(fmt[1..bc]) by {
        forall i | 1 <= i < bc ensures fmt[i] != '{' && fmt[i] != '}' {
        }
      }
      SplitDirectiveAt(fmt, bc)
  }

  /** src/FormatVariadic.h:235-240: the text before an inner `{` at `bo2` is a literal. */
  function SplitBeforeBrace(fmt: string, bo2: nat): (r: Step)
    requires 0 < bo2 < |fmt|
    ensures SplitShape(fmt, r)
    ensures r == Step(Literal(fmt[..bo2]), fmt[bo2..])
  {
    Step(Literal(Substr(fmt, 0, bo2)), Substr(fmt, bo2, |fmt|))
  }

  /** src/FormatVariadic.h:242-251: the brace-free text between `{` and the `}` at `bc` is one directive. */
  function SplitDirectiveAt(fmt: string, bc: nat): (r: Step)
    requires 0 < bc < |fmt| && fmt[0] == '{' && fmt[bc] == '}' && NoBraces(fmt[1..bc])
    ensures SplitShape(fmt, r)
    ensures r == Step(ParseReplacementItem(fmt[1..bc]).value, fmt[bc + 1..])
  {
    var spec := Slice(fmt, 1, bc);
    var right := Substr(fmt, bc + 1, |fmt|);
    assert spec == fmt[1..bc] && right == fmt[bc + 1..];
    match ParseReplacementItem(spec)
    case Some(ri) =>
      DirectiveShape(fmt, bc, ri);
      Step(ri, right)
  }

  /** A non-literal item whose spec is the text between the braces has the directive's split shape. */
  lemma DirectiveShape(fmt: string, bc: nat, ri: ReplacementItem)
    requires 0 < bc < |fmt| && fmt[0] == '{' && fmt[bc] == '}' && NoBraces(fmt[1..bc])
    requires !ri.Literal? && (ri.Format? ==> ri.spec == fmt[1..bc])
    ensures SplitShape(fmt, Step(ri, fmt[bc + 1..]))
  {
    assert fmt[..bc + 1] == ['{'] + fmt[1..bc] + ['}'];
  }

  /**
   * `SplitLiteralAndReplacement(fmt)`: take one item off the front of `fmt`.
   * The source's loop only repeats when `ParseReplacementItem` returns
   * `nullopt`, which it never does, so every path returns at once.
   */
  function SplitLiteralAndReplacement(fmt: string): (r: Step)
    ensures SplitShape(fmt, r)
    ensures fmt != [] ==> |r.rest| < |fmt|
    ensures r.item.Literal? && fmt != [] ==> r.item.spec != []
    ensures r.item.Format? ==> NoBraces(r.item.spec)
  {
    if fmt == [] then Step(Literal(fmt), [])
    else if fmt[0] != '{' then SplitText(fmt)
    else
      var braces := TakeWhile(fmt, IsOpenBrace);
      if |braces| > 1 then SplitBraceRun(fmt, braces)
      else
        match Find(fmt, '}', 0)
        case None =>
          // unterminated brace sequence: the rest of the template is literal text
          Step(Literal(fmt), [])
        case Some(bc) => SplitAtClosingBrace(fmt, bc)
  }

  /** An item `ParseFormatString` keeps: never `Empty`, a non-empty literal, or a brace-free directive. */
  predicate Emitted(item: ReplacementItem) {
    match item
    case Empty => false
    case Literal(text) => text != []
    case Format(spec, _, _, _, _, _) => NoBraces(spec)
  }

  /** `ParseFormatString(fmt)`: split the whole template, dropping `Empty` items. */
  function ParseFormatString(fmt: string): (r: seq<ReplacementItem>)
    ensures forall i :: 0 <= i < |r| ==> Emitted(r[i])
    decreases |fmt|
  {
    if fmt == [] then []
    else
      var step := SplitLiteralAndReplacement(fmt);
      var head := if step.item.Empty? then [] else [step.item];
      var tail := ParseFormatString(step.rest);
      assert forall i :: 0 <= i < |head| ==> Emitted(head[i]);
      head + tail
  }

  // ---------------------------------------------------------------------------
  // Rendering

  /** One item's output: literals verbatim, a directive with an unbound index as its raw inner text. */
  function RenderItem(item: ReplacementItem, adapters: seq<Adapter>): string {
    match item
    case Empty => []
    case Literal(text) => text
    case Format(spec, index, align, where, pad, options) =>
      if index >= |adapters| then spec
      else FormatAlign.Format(adapters[index], where, align, pad, options)
  }

  /** The items' outputs, in order. */
  function RenderItems(items: seq<ReplacementItem>, adapters: seq<Adapter>): string {
    if items == [] then [] else RenderItem(items[0], adapters) + RenderItems(items[1..], adapters)
  }

  /** Everything `format` writes for the template `fmt`. */
  function Render(fmt: string, adapters: seq<Adapter>): string {
    RenderItems(ParseFormatString(fmt), adapters)
  }

  /** `FormatvObjectBase`: the template and one adapter per bound argument. */
  datatype FormatvObject = FormatvObject(fmt: string, adapters: seq<Adapter>)

  /** `FormatvObjectBase::format(os)`: the stream after the rendered template is appended to it. */
  function FormatTo(os: string, obj: FormatvObject): (r: string)
    ensures |os| <= |r| && r[..|os|] == os
    ensures r[|os|..] == Render(obj.fmt, obj.adapters)
  {
    os + Render(obj.fmt, obj.adapters)
  }

  /** `FormatvObjectBase::str()`: the rendering, written to an empty stream. */
  function Str(obj: FormatvObject): (r: string)
    ensures r == Render(obj.fmt, obj.adapters)
  {
    FormatTo([], obj)
  }

  /** The adapters `formatv` builds for its arguments, in argument order. */
  function BuildAdapters(args: seq<Argument>): (r: Result<seq<Adapter>, CompileError>)
    ensures r.Success? <==> forall i :: 0 <= i < |args| ==> !UsesMissingProvider(args[i].caps)
    ensures r.Success? ==> |r.value| == |args|
    ensures r.Success? ==> forall i, o :: 0 <= i < |args| ==>
      r.value[i](o) == BuildFormatAdapter(args[i]).value(o)
  {
    if args == [] then Success([])
    else
      match BuildFormatAdapter(args[0])
      case Failure(e) => Failure(e)
      case Success(a) =>
        match BuildAdapters(args[1..])
        case Failure(e) => Failure(e)
        case Success(rest) =>
          assert forall i, o :: 1 <= i < |args| ==> ([a] + rest)[i](o) == rest[i - 1](o);
          Success([a] + rest)
  }

  /**
   * `formatv(fmt, vals...)`: bind every argument to its adapter; an argument
   * with no way to be rendered makes the program ill-formed.
   */
  function Formatv(fmt: string, args: seq<Argument>): (r: Result<FormatvObject, CompileError>)
    ensures r.Success? <==> forall i :: 0 <= i < |args| ==> !UsesMissingProvider(args[i].caps)
    ensures r.Success? ==> r.value.fmt == fmt && |r.value.adapters| == |args|
    ensures r.Success? ==> forall i, o :: 0 <= i < |args| ==>
      r.value.adapters[i](o) == BuildFormatAdapter(args[i]).value(o)
  {
    match BuildAdapters(args)
    case Failure(e) => Failure(e)
    case Success(adapters) => Success(FormatvObject(fmt, adapters))
  }
}
