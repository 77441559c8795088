/**
 * A printer for templates, and the theorems that `formatv` reads back what it
 * prints: decimal numbers through `consumeUnsignedInteger`, directives through
 * `ParseReplacementItem`, escaped text and whole templates through `format`.
 */
module TemplatePrinter {
  import opened Wrappers
  import opened FormatAlign
  import opened FormatUtil
  import opened FormatVariadicDetails
  import opened FormatVariadic
  import opened TemplateLemmas

  // ---------------------------------------------------------------------------
  // Decimal numbers

  /** The decimal digit for `d`. */
  function Digit(d: nat): (c: char)
    requires d < 10
    ensures IsDigit(c) && CharValue(c) == Some(d)
  {
    ('0' as nat + d) as char
  }

  /** The shortest decimal spelling of `n`. */
  function NatToString(n: nat): string
    decreases n
  {
    if n < 10 then [Digit(n)] else NatToString(n / 10) + [Digit(n % 10)]
  }

  /** Every character is a decimal digit, and only the number 0 is spelled with a leading `0`. */
  lemma {:induction false} NatToStringShape(n: nat)
    ensures var s := NatToString(n);
      && s != [] && AllRadixDigits(s, 10)
      && (s[0] == '0' ==> n == 0 && |s| == 1)
    decreases n
  {
    if n >= 10 {
      NatToStringShape(n / 10);
      var s := NatToString(n);
      assert s[..|s| - 1] == NatToString(n / 10);
      assert s[0] == NatToString(n / 10)[0];
    }
  }

  /** Reading the spelling of `n` back in base 10 gives `n`. */
  lemma {:induction false} NatToStringValue(n: nat)
    ensures AllRadixDigits(NatToString(n), 10)
    ensures Horner(0, NatToString(n), 10) == n
    decreases n
  {
    NatToStringShape(n);
    if n >= 10 {
      NatToStringShape(n / 10);
      NatToStringValue(n / 10);
      var d := [Digit(n % 10)];
      assert AllRadixDigits(d, 10);
      HornerAppend(0, NatToString(n / 10), d, 10);
      assert Horner(n / 10, d, 10) == (n / 10) * 10 + n % 10;
    }
  }

  /** The digit run of `ds + rest` is `ds` when `rest` does not continue it. */
  lemma {:induction false} DigitRunStops(ds: string, rest: string, radix: nat)
    requires AllRadixDigits(ds, radix)
    requires rest == [] || !IsRadixDigit(rest[0], radix)
    ensures DigitRun(ds + rest, radix) == |ds|
    decreases |ds|
  {
    if ds == [] {
      assert ds + rest == rest;
    } else {
      assert IsRadixDigit(ds[0], radix);
      assert (ds + rest)[0] == ds[0] && (ds + rest)[1..] == ds[1..] + rest;
      DigitRunStops(ds[1..], rest, radix);
    }
  }

  /** Auto-sensing leaves a decimal spelling followed by a non-digit in base 10. */
  lemma SenseDecimal(n: nat, rest: string)
    requires rest == [] || !IsDigit(rest[0])
    ensures SenseRadix(NatToString(n) + rest, 0) == Sensed(10, NatToString(n) + rest)
  {
    var ds := NatToString(n);
    var s := ds + rest;
    NatToStringShape(n);
    assert s[0] == ds[0];
    if |s| > 1 && s[0] == '0' {
      assert s[1] == rest[0];
    }
  }

  /** `consumeUnsignedInteger` with auto-sensed radix reads a decimal spelling back exactly. */
  lemma ConsumeUnsignedDecimal(n: nat, rest: string)
    requires n < U64Limit
    requires rest == [] || !IsDigit(rest[0])
    ensures ConsumeUnsignedInteger(NatToString(n) + rest, 0) == Consumed(Some(n), rest)
  {
    var ds := NatToString(n);
    var s := ds + rest;
    SenseDecimal(n, rest);
    DecimalRun(n, rest);
    ConsumeSensedRun(s, ds, rest, n);
  }

  /** The digit run at the front of `NatToString(n) + rest` is the number, and its value is `n`. */
  lemma DecimalRun(n: nat, rest: string)
    requires rest == [] || !IsDigit(rest[0])
    ensures var ds := NatToString(n);
      var s := ds + rest;
      && ds != [] && AllRadixDigits(ds, 10) && DigitRun(s, 10) == |ds| && Horner(0, ds, 10) == n
      && s[..|ds|] == ds && s[|ds|..] == rest
  {
    var ds := NatToString(n);
    var s := ds + rest;
    NatToStringShape(n);
    NatToStringValue(n);
    DigitRunStops(ds, rest, 10);
    assert s[..|ds|] == ds && s[|ds|..] == rest;
  }

  /** `consumeUnsignedInteger` once sensing and the digit run are known. */
  lemma ConsumeSensedRun(s: string, ds: string, rest: string, n: nat)
    requires n < U64Limit && ds != []
    requires SenseRadix(s, 0) == Sensed(10, s)
    requires AllRadixDigits(ds, 10) && DigitRun(s, 10) == |ds| && Horner(0, ds, 10) == n
    requires |ds| <= |s| && s[..|ds|] == ds && s[|ds|..] == rest
    ensures ConsumeUnsignedInteger(s, 0) == Consumed(Some(n), rest)
  {
  }

  /**
   * `consumeInteger` with auto-sensed radix reads the decimal spelling of any
   * `size_t` value back exactly, leaving whatever followed it.
   */
  lemma ConsumeDecimal(n: nat, rest: string)
    requires n < SizeLimit
    requires rest == [] || !IsDigit(rest[0])
    ensures ConsumeInteger(NatToString(n) + rest, 0, SizeLimit) == Consumed(Some(n), rest)
  {
    ConsumeUnsignedDecimal(n, rest);
  }

  // ---------------------------------------------------------------------------
  // Literal text

  /** Literal text as a template: every `{` doubled; `}` needs no escape. */
  function Escape(s: string): string
    decreases |s|
  {
    if s == [] then []
    else if s[0] == '{' then ['{', '{'] + Escape(s[1..])
    else [s[0]] + Escape(s[1..])
  }

  /** A template part without directives: every `{` is part of a `{{` pair. */
  predicate WellEscaped(t: string)
    decreases |t|
  {
    t == [] || (if t[0] == '{' then |t| >= 2 && t[1] == '{' && WellEscaped(t[2..]) else WellEscaped(t[1..]))
  }

  /** The literal text a well-escaped template part stands for. */
  function Unescape(t: string): string
    requires WellEscaped(t)
    decreases |t|
  {
    if t == [] then []
    else if t[0] == '{' then ['{'] + Unescape(t[2..])
    else [t[0]] + Unescape(t[1..])
  }

  /** Escaping yields a well-escaped template that unescapes to the original text. */
  lemma {:induction false} EscapeInverse(s: string)
    ensures WellEscaped(Escape(s)) && Unescape(Escape(s)) == s
    decreases |s|
  {
    if s != [] {
      EscapeInverse(s[1..]);
      var e := Escape(s);
      if s[0] == '{' {
        assert e[2..] == Escape(s[1..]);
      } else {
        assert e[1..] == Escape(s[1..]);
      }
      assert s == [s[0]] + s[1..];
    }
  }

  /** Every well-escaped template is the escape of what it unescapes to. */
  lemma {:induction false} UnescapeInverse(t: string)
    requires WellEscaped(t)
    ensures Escape(Unescape(t)) == t
    decreases |t|
  {
    if t != [] {
      var u := Unescape(t);
      if t[0] == '{' {
        UnescapeInverse(t[2..]);
        assert u[0] == '{' && u[1..] == Unescape(t[2..]);
        assert t == ['{', '{'] + t[2..];
      } else {
        UnescapeInverse(t[1..]);
        assert u[0] == t[0] && u[1..] == Unescape(t[1..]);
        assert t == [t[0]] + t[1..];
      }
    }
  }

  /** The first escaped character of `s`, then the rest of the escape. */
  lemma EscapeFront(s: string, u: string)
    requires s != []
    ensures s == [s[0]] + s[1..]
    ensures s[0] == '{' ==> Escape(s) + u == ['{', '{'] + (Escape(s[1..]) + u)
    ensures s[0] != '{' ==> Escape(s) + u == [s[0]] + (Escape(s[1..]) + u)
  {
  }

  /** Escaped text renders as the text itself, whatever template follows it. */
  lemma {:induction false} RenderEscapedText(s: string, u: string, adapters: seq<Adapter>)
    ensures Render(Escape(s) + u, adapters) == s + Render(u, adapters)
    decreases |s|
  {
    if s == [] {
      assert Escape(s) + u == u;
    } else {
      var tail := Escape(s[1..]) + u;
      EscapeFront(s, u);
      RenderEscapedText(s[1..], u, adapters);
      if s[0] == '{' {
        RenderEscapedBrace(tail, adapters);
      } else {
        RenderPlainChar(s[0], tail, adapters);
      }
      ConcatAssoc([s[0]], s[1..], Render(u, adapters));
    }
  }

  /** A well-escaped template renders as its unescaped text, with no argument consulted. */
  lemma RenderWellEscaped(t: string, adapters: seq<Adapter>)
    requires WellEscaped(t)
    ensures Render(t, adapters) == Unescape(t)
  {
    UnescapeInverse(t);
    RenderEscapedText(Unescape(t), [], adapters);
    assert Escape(Unescape(t)) + [] == t;
    assert Unescape(t) + [] == Unescape(t);
  }

  // ---------------------------------------------------------------------------
  // Directives

  /** The layout part of a directive: an optional fill, an optional style, a width. */
  datatype Layout = Layout(fill: Option<char>, style: Option<AlignStyle>, width: nat)

  /** A directive `{index[,layout][:options]}` as its parts. */
  datatype Field = Field(index: nat, layout: Option<Layout>, options: Option<string>)

  /**
   * A layout the grammar can express: a fill only together with a style, no
   * brace as the fill, and a width that fits in `size_t`.
   */
  predicate WellFormedLayout(l: Layout) {
    && l.width < SizeLimit
    && (l.fill.Some? ==> l.style.Some? && l.fill.value != '{' && l.fill.value != '}')
  }

  /** A field the grammar can express: options without braces or surrounding whitespace. */
  predicate WellFormedField(f: Field) {
    && f.index < SizeLimit
    && (f.layout.Some? ==> WellFormedLayout(f.layout.value))
    && (f.options.Some? ==> NoBraces(f.options.value) && Unpadded(f.options.value))
  }

  /** Neither end of `s` is whitespace, so `trim` leaves it alone. */
  predicate Unpadded(s: string) {
    s == [] || (s[0] !in Whitespace && s[|s| - 1] !in Whitespace)
  }

  function LayoutText(l: Layout): string {
    (if l.fill.Some? then [l.fill.value] else [])
    + (if l.style.Some? then [StyleChar(l.style.value)] else [])
    + NatToString(l.width)
  }

  function OptionsText(options: Option<string>): string {
    if options.Some? then [':'] + options.value else []
  }

  /** What follows the index in a printed field: an optional layout, then optional options. */
  function AfterIndexText(f: Field): string {
    (if f.layout.Some? then [','] + LayoutText(f.layout.value) else []) + OptionsText(f.options)
  }

  /** The text between the braces of a directive. */
  function FieldText(f: Field): string {
    NatToString(f.index) + AfterIndexText(f)
  }

  /** The item a field stands for, with the defaults for the parts it leaves out. */
  function FieldItem(f: Field): ReplacementItem {
    var l := f.layout.GetOr(Layout(None, None, 0));
    Format(FieldText(f), f.index, l.width, l.style.GetOr(Right), l.fill.GetOr(' '), f.options.GetOr([]))
  }

  /** The options part begins with `:` or is absent, and never ends in whitespace. */
  lemma OptionsTextShape(options: Option<string>)
    requires options.Some? ==> Unpadded(options.value)
    ensures var t := OptionsText(options);
      t == [] || (t[0] == ':' && t[|t| - 1] !in Whitespace)
  {
    var t := OptionsText(options);
    if options.Some? {
      var o := options.value;
      assert t[0] == ':';
      if o != [] {
        assert t[|t| - 1] == o[|o| - 1];
      }
    }
  }

  /** The first two characters of a bare width: neither is a style character. */
  lemma BareWidthFront(width: nat, rest: string)
    requires rest == [] || rest[0] == ':'
    ensures var spec := NatToString(width) + rest;
      && TranslateLocChar(spec[0]).None?
      && (|spec| > 1 ==> TranslateLocChar(spec[1]).None?)
  {
    var ds := NatToString(width);
    var spec := ds + rest;
    NatToStringShape(width);
    assert spec[0] == ds[0] && IsDigit(ds[0]);
    if |spec| > 1 {
      assert IsDigit(spec[1]) || spec[1] == ':' by {
        if |ds| > 1 { assert spec[1] == ds[1] && IsRadixDigit(ds[1], 10); }
        else { assert spec[1] == rest[0]; }
      }
    }
  }

  /** `ConsumeFieldLayout` on a layout that is a bare width. */
  lemma LayoutOfBareWidth(spec: string, width: nat, rest: string)
    requires spec != [] && TranslateLocChar(spec[0]).None?
    requires |spec| > 1 ==> TranslateLocChar(spec[1]).None?
    requires ConsumeInteger(spec, 0, SizeLimit) == Consumed(Some(width), rest)
    ensures ConsumeFieldLayout(spec) == FieldLayout(true, Right, width, ' ', rest)
  {
  }

  /** `ConsumeFieldLayout` on a layout that starts with a style and no fill. */
  lemma LayoutOfStyledWidth(spec: string, style: AlignStyle, width: nat, rest: string)
    requires |spec| > 1 && TranslateLocChar(spec[0]) == Some(style) && TranslateLocChar(spec[1]).None?
    requires ConsumeInteger(spec[1..], 0, SizeLimit) == Consumed(Some(width), rest)
    ensures ConsumeFieldLayout(spec) == FieldLayout(true, style, width, ' ', rest)
  {
  }

  /** `ConsumeFieldLayout` on a layout that starts with a fill and a style. */
  lemma LayoutOfFilledWidth(spec: string, style: AlignStyle, width: nat, rest: string)
    requires |spec| > 1 && TranslateLocChar(spec[1]) == Some(style)
    requires ConsumeInteger(spec[2..], 0, SizeLimit) == Consumed(Some(width), rest)
    ensures ConsumeFieldLayout(spec) == FieldLayout(true, style, width, spec[0], rest)
  {
  }

  /** The width of a layout, with no fill or style in front of it. */
  lemma ConsumeBareWidth(width: nat, rest: string)
    requires width < SizeLimit
    requires rest == [] || rest[0] == ':'
    ensures ConsumeFieldLayout(NatToString(width) + rest) == FieldLayout(true, Right, width, ' ', rest)
  {
    BareWidthFront(width, rest);
    ConsumeDecimal(width, rest);
    LayoutOfBareWidth(NatToString(width) + rest, width, rest);
  }

  /** A printed number starts with a digit. */
  lemma FirstDigit(n: nat)
    ensures NatToString(n) != [] && IsDigit(NatToString(n)[0])
  {
    NatToStringShape(n);
    assert IsRadixDigit(NatToString(n)[0], 10);
  }

  /** Slicing `[c] + ds + rest` after its first character. */
  lemma ConsFront(c: char, ds: string, rest: string)
    requires ds != []
    ensures var spec := [c] + ds + rest;
      |spec| > 1 && spec[0] == c && spec[1] == ds[0] && spec[1..] == ds + rest
  {
  }

  /** Slicing `[a, b] + ds + rest` after its first two characters. */
  lemma PairFront(a: char, b: char, ds: string, rest: string)
    ensures var spec := [a, b] + ds + rest;
      |spec| > 1 && spec[0] == a && spec[1] == b && spec[2..] == ds + rest
  {
  }

  /** A style, then the width. */
  lemma ConsumeStyledWidth(style: AlignStyle, width: nat, rest: string)
    requires width < SizeLimit
    requires rest == [] || rest[0] == ':'
    ensures ConsumeFieldLayout([StyleChar(style)] + NatToString(width) + rest)
            == FieldLayout(true, style, width, ' ', rest)
  {
    StyledWidthText(style, width, rest);
    LayoutOfStyledWidth([StyleChar(style)] + NatToString(width) + rest, style, width, rest);
  }

  /** The characters of a styled width, as `ConsumeFieldLayout` looks at them. */
  lemma StyledWidthText(style: AlignStyle, width: nat, rest: string)
    requires width < SizeLimit
    requires rest == [] || rest[0] == ':'
    ensures var spec := [StyleChar(style)] + NatToString(width) + rest;
      && |spec| > 1 && TranslateLocChar(spec[0]) == Some(style) && TranslateLocChar(spec[1]).None?
      && ConsumeInteger(spec[1..], 0, SizeLimit) == Consumed(Some(width), rest)
  {
    var ds := NatToString(width);
    FirstDigit(width);
    ConsFront(StyleChar(style), ds, rest);
    assert TranslateLocChar(ds[0]).None?;
    assert TranslateLocChar(StyleChar(style)) == Some(style);
    ConsumeDecimal(width, rest);
  }

  /** A fill and a style, then the width. */
  lemma ConsumeFilledWidth(fill: char, style: AlignStyle, width: nat, rest: string)
    requires width < SizeLimit
    requires rest == [] || rest[0] == ':'
    ensures ConsumeFieldLayout([fill, StyleChar(style)] + NatToString(width) + rest)
            == FieldLayout(true, style, width, fill, rest)
  {
    FilledWidthText(fill, style, width, rest);
    LayoutOfFilledWidth([fill, StyleChar(style)] + NatToString(width) + rest, style, width, rest);
  }

  /** The characters of a filled width, as `ConsumeFieldLayout` looks at them. */
  lemma FilledWidthText(fill: char, style: AlignStyle, width: nat, rest: string)
    requires width < SizeLimit
    requires rest == [] || rest[0] == ':'
    ensures var spec := [fill, StyleChar(style)] + NatToString(width) + rest;
      && |spec| > 1 && spec[0] == fill && TranslateLocChar(spec[1]) == Some(style)
      && ConsumeInteger(spec[2..], 0, SizeLimit) == Consumed(Some(width), rest)
  {
    var ds := NatToString(width);
    PairFront(fill, StyleChar(style), ds, rest);
    assert TranslateLocChar(StyleChar(style)) == Some(style);
    ConsumeDecimal(width, rest);
  }

  /** `ConsumeFieldLayout` reads a printed layout back, stopping at the options. */
  lemma ConsumeLayoutText(l: Layout, rest: string)
    requires WellFormedLayout(l)
    requires rest == [] || rest[0] == ':'
    ensures ConsumeFieldLayout(LayoutText(l) + rest)
            == FieldLayout(true, l.style.GetOr(Right), l.width, l.fill.GetOr(' '), rest)
  {
    var ds := NatToString(l.width);
    if l.fill.Some? {
      assert LayoutText(l) == [l.fill.value, StyleChar(l.style.value)] + ds;
      ConsumeFilledWidth(l.fill.value, l.style.value, l.width, rest);
    } else if l.style.Some? {
      assert LayoutText(l) == [StyleChar(l.style.value)] + ds;
      ConsumeStyledWidth(l.style.value, l.width, rest);
    } else {
      assert LayoutText(l) == ds;
      ConsumeBareWidth(l.width, rest);
    }
  }

  /** Neither a brace nor whitespace: the two `trim` calls of the parser stop at `c`. */
  predicate Solid(c: char) {
    c !in "{}" && c !in Whitespace
  }

  /** The last character of a non-empty `a + b`. */
  lemma LastOfConcat(a: string, b: string)
    requires a + b != []
    ensures (a + b)[|a + b| - 1] == if b == [] then a[|a| - 1] else b[|b| - 1]
    ensures a != [] ==> (a + b)[0] == a[0]
  {
  }

  /** A printed number starts and ends with a digit. */
  lemma NatToStringEnds(n: nat)
    ensures var s := NatToString(n);
      s != [] && Solid(s[0]) && Solid(s[|s| - 1])
  {
    var s := NatToString(n);
    NatToStringShape(n);
    assert IsRadixDigit(s[0], 10) && IsRadixDigit(s[|s| - 1], 10);
  }

  /** A printed layout ends with the last digit of its width. */
  lemma LayoutTextEnds(l: Layout)
    ensures var t := LayoutText(l);
      t != [] && Solid(t[|t| - 1])
  {
    NatToStringEnds(l.width);
    var head := (if l.fill.Some? then [l.fill.value] else []) + (if l.style.Some? then [StyleChar(l.style.value)] else []);
    LastOfConcat(head, NatToString(l.width));
  }

  /** After the index comes `,` or `:` or nothing, and the last character stops both `trim` calls. */
  lemma AfterIndexEnds(f: Field)
    requires WellFormedField(f)
    ensures var t := AfterIndexText(f);
      t == [] || ((t[0] == ',' || t[0] == ':') && Solid(t[|t| - 1]))
  {
    var ot := OptionsText(f.options);
    OptionsTextShape(f.options);
    if ot != [] {
      var o := f.options.value;
      assert ot[|ot| - 1] == ':' || ot[|ot| - 1] == o[|o| - 1];
    }
    if f.layout.Some? {
      var lt := [','] + LayoutText(f.layout.value);
      LayoutTextEnds(f.layout.value);
      LastOfConcat([','], LayoutText(f.layout.value));
      LastOfConcat(lt, ot);
    } else {
      assert AfterIndexText(f) == ot;
    }
  }

  /** A printed field starts and ends with a character that stops both `trim` calls. */
  lemma FieldTextEnds(f: Field)
    requires WellFormedField(f)
    ensures var t := FieldText(f);
      t != [] && Solid(t[0]) && Solid(t[|t| - 1])
  {
    NatToStringEnds(f.index);
    AfterIndexEnds(f);
    LastOfConcat(NatToString(f.index), AfterIndexText(f));
  }

  /** The layout a field stands for, as `ConsumeFieldLayout` reports it. */
  function FieldLayoutOf(f: Field): FieldLayout {
    var l := f.layout.GetOr(Layout(None, None, 0));
    FieldLayout(true, l.style.GetOr(Right), l.width, l.fill.GetOr(' '), OptionsText(f.options))
  }

  /** The layout and options once the index is consumed. */
  lemma ParseLayoutOf(f: Field)
    requires WellFormedField(f)
    ensures FieldLayoutOf(f) ==
      var t := AfterIndexText(f);
      if t != [] && t[0] == ',' then ConsumeFieldLayout(DropFront(t, 1))
      else FieldLayout(true, Right, 0, ' ', t)
  {
    var t := AfterIndexText(f);
    var ot := OptionsText(f.options);
    OptionsTextShape(f.options);
    if f.layout.Some? {
      assert DropFront(t, 1) == LayoutText(f.layout.value) + ot;
      ConsumeLayoutText(f.layout.value, ot);
    } else {
      assert t == ot;
    }
  }

  /** The parser's `trim` leaves a printed options part alone. */
  lemma OptionsTextTrimmed(options: Option<string>)
    requires options.Some? ==> Unpadded(options.value)
    ensures Trim(OptionsText(options), Whitespace) == OptionsText(options)
  {
    OptionsTextShape(options);
    assert ':' !in Whitespace;
    TrimKeeps(OptionsText(options), Whitespace);
  }

  /** The options part reads back as the options. */
  lemma ParseOptionsText(options: Option<string>)
    requires options.Some? ==> Unpadded(options.value)
    ensures FormatVariadic.ParseOptions(OptionsText(options)) == options.GetOr([])
  {
    if options.Some? {
      var ot := OptionsText(options);
      assert ot[0] == ':' && DropFront(ot, 1) == options.value;
      TrimKeeps(options.value, Whitespace);
    }
  }

  /** Neither `trim` of the parser changes a printed field or what follows its index. */
  lemma FieldTextTrimmed(f: Field)
    requires WellFormedField(f)
    ensures Trim(FieldText(f), "{}") == FieldText(f)
    ensures Trim(FieldText(f), Whitespace) == FieldText(f)
    ensures Trim(AfterIndexText(f), Whitespace) == AfterIndexText(f)
  {
    FieldTextEnds(f);
    AfterIndexEnds(f);
    assert ',' !in Whitespace && ':' !in Whitespace;
    TrimKeeps(FieldText(f), "{}");
    TrimKeeps(FieldText(f), Whitespace);
    TrimKeeps(AfterIndexText(f), Whitespace);
  }

  /** The index of a printed field reads back, and what follows it survives the `trim`. */
  lemma ParseIndexOf(f: Field)
    requires WellFormedField(f)
    ensures ConsumeInteger(FieldText(f), 0, SizeLimit) == Consumed(Some(f.index), AfterIndexText(f))
    ensures Trim(Trim(FieldText(f), "{}"), Whitespace) == FieldText(f)
    ensures Trim(AfterIndexText(f), Whitespace) == AfterIndexText(f)
  {
    var t := AfterIndexText(f);
    AfterIndexEnds(f);
    assert t == [] || !IsDigit(t[0]);
    ConsumeDecimal(f.index, t);
    FieldTextTrimmed(f);
  }

  /** `ParseReplacementItem` once its trims and its index are known. */
  lemma ParseWithIndex(text: string, index: nat, t: string)
    requires index < SizeLimit
    requires Trim(Trim(text, "{}"), Whitespace) == text
    requires ConsumeInteger(text, 0, SizeLimit) == Consumed(Some(index), t)
    ensures ParseReplacementItem(text) == Some(ParseAfterIndex(text, index, Trim(t, Whitespace)))
  {
  }

  /** The tail of `ParseReplacementItem` once the layout and the options are known. */
  lemma ParseWithLayout(spec: string, index: nat, t: string, layout: FieldLayout, options: string)
    requires index < SizeLimit
    requires layout ==
      if t != [] && t[0] == ',' then ConsumeFieldLayout(DropFront(t, 1))
      else FieldLayout(true, Right, 0, ' ', t)
    requires options == FormatVariadic.ParseOptions(Trim(layout.rest, Whitespace))
    ensures ParseAfterIndex(spec, index, t) == Format(spec, index, layout.align, layout.where, layout.pad, options)
  {
  }

  /** Everything after the index of a printed field reads back as its layout and options. */
  lemma ParseFieldAfterIndex(f: Field)
    requires WellFormedField(f)
    ensures ParseAfterIndex(FieldText(f), f.index, AfterIndexText(f)) == FieldItem(f)
  {
    ParseLayoutOf(f);
    OptionsTextTrimmed(f.options);
    ParseOptionsText(f.options);
    ParseWithLayout(FieldText(f), f.index, AfterIndexText(f), FieldLayoutOf(f), f.options.GetOr([]));
  }

  /** `ParseReplacementItem` reads every well-formed printed field back as the item it stands for. */
  lemma ParseFieldText(f: Field)
    requires WellFormedField(f)
    ensures ParseReplacementItem(FieldText(f)) == Some(FieldItem(f))
  {
    ParseIndexOf(f);
    ParseWithIndex(FieldText(f), f.index, AfterIndexText(f));
    ParseFieldAfterIndex(f);
  }

  // ---------------------------------------------------------------------------
  // Whole templates

  /** A printed number holds decimal digits only. */
  lemma NumberChars(n: nat)
    ensures forall c :: c in NatToString(n) ==> IsDigit(c)
  {
    NatToStringShape(n);
    var s := NatToString(n);
    forall c | c in s
      ensures IsDigit(c)
    {
      var k :| 0 <= k < |s| && s[k] == c;
      assert IsRadixDigit(s[k], 10);
    }
  }

  /** The layout text holds no brace. */
  lemma LayoutTextNoBraces(l: Layout)
    requires WellFormedLayout(l)
    ensures NoBraces(LayoutText(l))
  {
    NumberChars(l.width);
    if l.style.Some? {
      assert StyleChar(l.style.value) in "-=+";
    }
  }

  /** The text of a well-formed field holds no brace, so the field is one directive. */
  lemma FieldTextNoBraces(f: Field)
    requires WellFormedField(f)
    ensures NoBraces(FieldText(f))
  {
    NumberChars(f.index);
    if f.layout.Some? {
      LayoutTextNoBraces(f.layout.value);
    }
  }

  /** One part of a template: text to be shown as is, or a directive. */
  datatype Piece = Text(text: string) | Directive(field: Field)

  predicate WellFormedPiece(p: Piece) {
    p.Directive? ==> WellFormedField(p.field)
  }

  /** A piece as template text: text with its `{` doubled, or a directive in braces. */
  function PieceText(p: Piece): string {
    match p
    case Text(t) => Escape(t)
    case Directive(f) => ['{'] + FieldText(f) + ['}']
  }

  /** A template written out from its pieces. */
  function Compose(ps: seq<Piece>): string {
    if ps == [] then [] else PieceText(ps[0]) + Compose(ps[1..])
  }

  /**
   * What a piece should show: the text itself, the spec of a directive whose
   * index has no argument, or the argument aligned as the field says.
   */
  function PieceOutput(p: Piece, adapters: seq<Adapter>): string {
    match p
    case Text(t) => t
    case Directive(f) =>
      if f.index >= |adapters| then FieldText(f)
      else
        var l := f.layout.GetOr(Layout(None, None, 0));
        FormatAlign.Format(adapters[f.index], l.style.GetOr(Right), l.width, l.fill.GetOr(' '), f.options.GetOr([]))
  }

  /** What a whole template of pieces should show. */
  function Expected(ps: seq<Piece>, adapters: seq<Adapter>): string {
    if ps == [] then [] else PieceOutput(ps[0], adapters) + Expected(ps[1..], adapters)
  }

  /** The item a well-formed field parses to renders as its piece promises. */
  lemma FieldItemOutput(f: Field, adapters: seq<Adapter>)
    requires WellFormedField(f)
    ensures RenderItem(ParseReplacementItem(FieldText(f)).value, adapters) == PieceOutput(Directive(f), adapters)
  {
    ParseFieldText(f);
    FieldItemRenders(f, adapters);
  }

  /** The item of a field renders as its piece promises. */
  lemma FieldItemRenders(f: Field, adapters: seq<Adapter>)
    ensures RenderItem(FieldItem(f), adapters) == PieceOutput(Directive(f), adapters)
  {
  }

  /** Rendering a directive piece in front of any template. */
  lemma RenderFieldPiece(f: Field, u: string, adapters: seq<Adapter>)
    requires WellFormedField(f)
    ensures Render(['{'] + FieldText(f) + ['}'] + u, adapters)
      == PieceOutput(Directive(f), adapters) + Render(u, adapters)
  {
    FieldTextNoBraces(f);
    RenderDirective(FieldText(f), u, adapters);
    FieldItemOutput(f, adapters);
  }

  /** Rendering one piece in front of any template. */
  lemma RenderPiece(p: Piece, u: string, adapters: seq<Adapter>)
    requires WellFormedPiece(p)
    ensures Render(PieceText(p) + u, adapters) == PieceOutput(p, adapters) + Render(u, adapters)
  {
    match p
    case Text(t) =>
      RenderEscapedText(t, u, adapters);
    case Directive(f) =>
      RenderFieldPiece(f, u, adapters);
  }

  /**
   * A template composed of text and well-formed directives renders to
   * exactly what its pieces promise, whatever the neighbouring pieces are.
   */
  lemma {:induction false} RenderCompose(ps: seq<Piece>, adapters: seq<Adapter>)
    requires forall i :: 0 <= i < |ps| ==> WellFormedPiece(ps[i])
    ensures Render(Compose(ps), adapters) == Expected(ps, adapters)
  {
    if ps != [] {
      RenderCompose(ps[1..], adapters);
      RenderPiece(ps[0], Compose(ps[1..]), adapters);
    }
  }

  /**
   * `format(os)` on an object built from a composed template appends what the
   * pieces promise to the stream, and `str()` is exactly that text.
   */
  lemma StrCompose(os: string, ps: seq<Piece>, adapters: seq<Adapter>)
    requires forall i :: 0 <= i < |ps| ==> WellFormedPiece(ps[i])
    ensures FormatTo(os, FormatvObject(Compose(ps), adapters)) == os + Expected(ps, adapters)
    ensures Str(FormatvObject(Compose(ps), adapters)) == Expected(ps, adapters)
  {
    RenderCompose(ps, adapters);
  }

  // ---------------------------------------------------------------------------
  // Worked cases

  /** `1` parses as index 1 with the default layout and no options. */
  lemma ParseOneIndex()
    ensures ParseReplacementItem("1") == Some(Format("1", 1, 0, Right, ' ', ""))
  {
    var f := Field(1, None, None);
    assert FieldText(f) == "1";
    ParseFieldText(f);
  }

  /**
   * A bare index with no argument bound to it has nothing to format, so
   * `{i}` renders as `i`: with one argument, `{1}` renders as `1`.
   */
  lemma UnboundIndexRendersSpec(i: nat, adapters: seq<Adapter>)
    requires |adapters| <= i < SizeLimit
    ensures Render(['{'] + NatToString(i) + ['}'], adapters) == NatToString(i)
  {
    var f := Field(i, None, None);
    assert FieldText(f) == NatToString(i);
    RenderFieldPiece(f, [], adapters);
    assert ['{'] + NatToString(i) + ['}'] + [] == ['{'] + NatToString(i) + ['}'];
    assert Render([], adapters) == [];
  }

  /** Text that does not start with a digit holds no integer, and is left as it is. */
  lemma NoLeadingDigit(s: string)
    requires s == [] || !IsDigit(s[0])
    ensures ConsumeInteger(s, 0, SizeLimit) == Consumed(None, s)
  {
    assert SenseRadix(s, 0) == Sensed(10, s);
    assert DigitRun(s, 10) == 0;
  }

  /** A layout with neither a style nor a leading digit has no width: it fails and consumes nothing. */
  lemma LayoutWithoutWidth(spec: string)
    requires spec != [] && !IsDigit(spec[0]) && TranslateLocChar(spec[0]).None?
    requires |spec| > 1 ==> TranslateLocChar(spec[1]).None?
    ensures ConsumeFieldLayout(spec) == FieldLayout(false, Right, 0, ' ', spec)
  {
    NoLeadingDigit(spec);
  }

  /** Trimming never brings in a character that was not there. */
  lemma TrimFrontFrom(s: string, chars: string, c: char)
    requires c !in s
    ensures Trim(s, chars) == [] || Trim(s, chars)[0] != c
  {
    var r := Trim(s, chars);
    if r != [] {
      var a := |s| - |LTrim(s, chars)|;
      assert r[0] == s[a];
    }
  }

  /** The text after the index in `{i, w}`: a comma, a space, a width. */
  function SpacedWidthText(w: nat): string {
    [',', ' '] + NatToString(w)
  }

  /** The two ends of `i, w`, and the layout text ` w` after its comma. */
  lemma SpacedWidthShape(i: nat, w: nat)
    ensures var t := SpacedWidthText(w);
      var text := NatToString(i) + t;
      && text != [] && Solid(text[0]) && Solid(text[|text| - 1])
      && t != [] && t[0] == ',' && Solid(t[|t| - 1])
      && DropFront(t, 1) == [' '] + NatToString(w)
  {
    NatToStringEnds(i);
    NatToStringEnds(w);
    LastOfConcat([',', ' '], NatToString(w));
    LastOfConcat(NatToString(i), SpacedWidthText(w));
  }

  /** `i, w` and the text after its index both survive the trims. */
  lemma SpacedWidthTrimmed(i: nat, w: nat)
    ensures Trim(Trim(NatToString(i) + SpacedWidthText(w), "{}"), Whitespace)
      == NatToString(i) + SpacedWidthText(w)
    ensures Trim(SpacedWidthText(w), Whitespace) == SpacedWidthText(w)
  {
    var t := SpacedWidthText(w);
    var text := NatToString(i) + t;
    SpacedWidthShape(i, w);
    assert ',' !in Whitespace;
    TrimKeeps(text, "{}");
    TrimKeeps(text, Whitespace);
    TrimKeeps(t, Whitespace);
  }

  /** `i, w` reads index `i`, leaving the comma and what follows. */
  lemma SpacedWidthIndex(i: nat, w: nat)
    requires i < SizeLimit
    ensures ConsumeInteger(NatToString(i) + SpacedWidthText(w), 0, SizeLimit)
      == Consumed(Some(i), SpacedWidthText(w))
  {
    var t := SpacedWidthText(w);
    assert t[0] == ',';
    ConsumeDecimal(i, t);
  }

  /** The layout ` w` has no width, and no options follow it. */
  lemma SpacedWidthLayout(w: nat)
    ensures var spec := [' '] + NatToString(w);
      && ConsumeFieldLayout(spec) == FieldLayout(false, Right, 0, ' ', spec)
      && FormatVariadic.ParseOptions(Trim(spec, Whitespace)) == []
  {
    SpacedWidthChars(w);
    LayoutWithoutWidth([' '] + NatToString(w));
    TrimFrontFrom([' '] + NatToString(w), Whitespace, ':');
  }

  /** The characters of ` w`: a space, then a digit, and no `:` anywhere. */
  lemma SpacedWidthChars(w: nat)
    ensures var spec := [' '] + NatToString(w);
      && spec != [] && !IsDigit(spec[0]) && TranslateLocChar(spec[0]).None?
      && (|spec| > 1 ==> TranslateLocChar(spec[1]).None?)
      && ':' !in spec
  {
    var ds := NatToString(w);
    var spec := [' '] + ds;
    FirstDigit(w);
    assert spec[1] == ds[0];
    assert TranslateLocChar(' ').None? && TranslateLocChar(ds[0]).None?;
    NumberChars(w);
  }

  /**
   * The layout is read from the untrimmed text after the comma, so in
   * `{i, w}` the space defeats the width: the directive parses with width 0
   * and `w` is ignored.
   */
  lemma SpaceBeforeWidthIgnoresIt(i: nat, w: nat)
    requires i < SizeLimit
    ensures var text := NatToString(i) + SpacedWidthText(w);
      ParseReplacementItem(text) == Some(Format(text, i, 0, Right, ' ', ""))
  {
    var t := SpacedWidthText(w);
    var text := NatToString(i) + t;
    var spec := [' '] + NatToString(w);
    SpacedWidthTrimmed(i, w);
    SpacedWidthIndex(i, w);
    ParseWithIndex(text, i, t);
    SpacedWidthShape(i, w);
    SpacedWidthLayout(w);
    ParseWithLayout(text, i, t, FieldLayout(false, Right, 0, ' ', spec), "");
  }
}
