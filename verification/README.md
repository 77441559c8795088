# formatv in Dafny

A model of the core of `formatv`, a C++ header-only template engine. A call
such as `formatv("{0,-8} = {1:x}", a, b)` binds each argument to an *adapter*.
An adapter is the code that writes the value for a given options string. The
engine then renders the template:

- the template is split into literal text, escaped `{{` runs and
  `{index[,layout][:options]}` directives;
- each directive is parsed into an index, an alignment layout and options;
- each bound argument is rendered through its adapter and padded to the
  directive's field width.

The model has these parts:

| module | file | models |
|---|---|---|
| `Wrappers` | wrappers.dfy | `Option` (for `std::optional` and `npos`) and `Result` |
| `FormatVariadicDetails` | format_variadic_details.dfy | the compile-time choice of `build_format_adapter` overload, and what each adapter writes |
| `FormatAlign` | format_align.dfy | `AlignStyle` and `FormatAlign::format` padding, including `fill`'s 32-bit count |
| `FormatUtil` | format_util.dfy | `TranslateLocChar`; `ltrim`/`rtrim`/`trim`; radix sensing; the overflow-checked `consumeUnsignedInteger` and `ConsumeInteger`; `take_while`/`take_front`/`drop_front`/`slice`/`substr`/`find` |
| `ArrayRef` | array_ref.dfy | the slicing members of `ArrayRef<T>` over `seq<T>` |
| `FormatVariadic` | format_variadic.dfy | `ReplacementItem`, `SplitLiteralAndReplacement`, `ParseFormatString`, `ParseReplacementItem`, `ConsumeFieldLayout`, the render loop `FormatvObjectBase::format`, and `formatv` itself |
| `TemplateLemmas` | template_lemmas.dfy | how each shape of template front is split and rendered |
| `TemplatePrinter` | template_printer.dfy | a printer for numbers, escaped text, directives and whole templates, with the theorems that the engine reads back what it prints |

Conventions:

- Strings are `seq<char>`.
- `size_t` and `unsigned long long` are 64 bits wide (`SizeLimit`, `U64Limit`).
- `consumeUnsignedInteger` accumulates with 64-bit wrap-around. The model
  writes out that wrap and its overflow test, and proves the test exact.
- An adapter is a function from the options string to the text it appends.
- The output stream is a string that is only appended to.
- The release build (`NDEBUG`) is modelled: the source's `assert(false)`
  calls do nothing, so malformed directives degrade instead of aborting.

The main theorem is `TemplatePrinter.RenderCompose`. Take any template built
from text pieces (with `{` doubled) and well-formed directives. It renders to
exactly what its pieces promise:

- the text itself;
- the directive's inner text when its index has no argument;
- otherwise the argument, aligned and padded as the directive says.

`TemplatePrinter.ParseFieldText` is the parser half of this theorem: every
printed directive parses back to the item it stands for.

Four behaviours of the code that a reader may not expect:

- An index with no bound argument renders the text *between* the braces, not
  the whole directive. With one argument, `{1}` renders as `1`
  (`TemplatePrinter.UnboundIndexRendersSpec`).
- There is no `}}` escape. Only runs of `{` are escaped, and a directive ends
  at the first `}`.
- The layout is read from the untrimmed text after the `,`. So `{0, 10}` parses
  with width 0, and the ` 10` is ignored
  (`TemplatePrinter.SpaceBeforeWidthIgnoresIt`).
- A bad layout and trailing junk keep the directive as a `Format` item. Only an
  index that does not parse drops it.

## Model

| member | source | states |
|---|---|---|
| FormatVariadicDetails.SelectAdapter | src/FormatVariadicDetails.h:108-160 | the selected overload is the one whose `Uses*` guard holds, in priority order: a `FormatAdapter` subclass, then a provider, then `<<`, and `MissingFormatAdapter` exactly when the type has none of the three |
| FormatVariadicDetails.ExactlyOneGuard | src/FormatVariadicDetails.h:108-129 | for every argument type exactly one of the four `Uses*` guards holds |
| FormatVariadicDetails.BuildFormatAdapter | src/FormatVariadicDetails.h:35-63 | only a type with no capability is rejected at compile time; a `FormatAdapter` subclass is passed through; the provider adapter forwards the options; the stream adapter ignores them |
| FormatAlign.Fill | src/FormatAlign.h:63-67 | `count` copies of the fill character, with the count truncated to 32 bits |
| FormatAlign.LeadingFill | src/FormatAlign.h:43-58 | the fill before the item: none for Left, all of it for Right, the smaller half for Center |
| FormatAlign.Format | src/FormatAlign.h:26-60 | width 0 gives exactly the adapter's output; a width no larger than the output never truncates it; otherwise the item sits after the leading fill and every other character is the fill |
| FormatAlign.PaddedWidth | src/FormatAlign.h:42-58 | below the 32-bit truncation a padded field is exactly the requested width, and removing the leading fill recovers the item |
| FormatUtil.TranslateLocChar | src/FormatUtil.h:21-32 | `-`, `=`, `+` map to Left, Center, Right; every other character maps to none |
| FormatUtil.FindFirstNotOf | src/FormatUtil.h:36 | the first position outside the set, or none when every character is in it |
| FormatUtil.FindLastNotOf | src/FormatUtil.h:42 | the last position outside the set, or none when every character is in it |
| FormatUtil.LTrim | src/FormatUtil.h:34-38 | a suffix of the input whose dropped prefix lies in the set and that starts outside the set |
| FormatUtil.RTrim | src/FormatUtil.h:40-44 | a prefix of the input whose dropped suffix lies in the set and that ends outside the set |
| FormatUtil.Trim | src/FormatUtil.h:46-49 | a contiguous piece of the input, starting where `ltrim` stops, with everything after it in the set; both its ends lie outside the set; it is empty exactly when every character is in the set |
| FormatUtil.TrimKeeps | src/FormatUtil.h:46-49 | a string whose two ends lie outside the set is its own trim |
| FormatUtil.TrimIdempotent | src/FormatUtil.h:46-49 | trimming twice is trimming once |
| FormatUtil.CharValue | src/FormatUtil.h:78-86 | a digit value below 36, and a value below 10 exactly for `0`-`9` |
| FormatUtil.DigitRun | src/FormatUtil.h:76-90 | the longest prefix of radix digits: all of it is digits, and the next character is not one |
| FormatUtil.GetAutoSenseRadix | src/FormatUtil.h:51-62 | radix 8, with the leading `0` stripped, exactly when the text starts with `0` and a digit; otherwise radix 10 and the text unchanged |
| FormatUtil.WrapDetectsOverflow | src/FormatUtil.h:92-97 | the overflow test `result / radix < prev_result` after the wrapping multiply-add fires exactly when the true value needs more than 64 bits |
| FormatUtil.DigitLoop | src/FormatUtil.h:76-100 | the digit loop overflows exactly when the digit run's true value reaches 2^64; otherwise it stops with that value and the text after the run |
| FormatUtil.ConsumeUnsignedInteger | src/FormatUtil.h:64-108 | succeeds exactly when at least one digit is read and the value fits in 64 bits; on success it gives the value and the text after the digits; on failure the string keeps only the auto-sensing strip; the result is always a suffix of the input |
| FormatUtil.ConsumeInteger | src/FormatUtil.h:134-153 | for an unsigned target, succeeds exactly when `consumeUnsignedInteger` succeeds and the value survives the cast to the target type |
| FormatUtil.TakeWhile | src/FormatUtil.h:155-159 | the longest prefix whose characters all satisfy the predicate |
| FormatUtil.TakeFront | src/FormatUtil.h:161-164 | a prefix of length `min(n, len)` |
| FormatUtil.DropFront | src/FormatUtil.h:166-169 | what remains after the first `n` characters |
| FormatUtil.Slice | src/FormatUtil.h:171-177 | never fails; its length is `max(0, min(end, len) - min(start, len))`, taken from the clamped start |
| FormatUtil.Substr | src/FormatUtil.h:188-194 | never fails; at most `n` characters from the clamped start |
| FormatUtil.Find | src/FormatUtil.h:179-186 | the first occurrence at or after `from`, or none when there is none |
| ArrayRef.Slice | src/FormatUtil.h:374-377 | the `m` elements from position `n` |
| ArrayRef.DropFront | src/FormatUtil.h:381-383 | the view after the first `n` elements |
| ArrayRef.DropBack | src/FormatUtil.h:385-387 | the view before the last `n` elements |
| ArrayRef.TakeFront | src/FormatUtil.h:399-404 | the whole view when `n >= size`, otherwise exactly its first `n` elements |
| ArrayRef.TakeBack | src/FormatUtil.h:406-411 | the whole view when `n >= size`, otherwise exactly its last `n` elements |
| ArrayRef.TakeDropFront | src/FormatUtil.h:381-404 | `take_front(n)` followed by `drop_front(n)` is the whole view |
| FormatVariadic.ReadLayoutPrefix | src/FormatVariadic.h:186-195 | a style in `spec[1]` is always taken, with `spec[0]` as the fill and the first two characters consumed; otherwise a style in `spec[0]` is taken alone and consumed; with a style in neither, nothing is consumed and the style and fill stay Right and space; a one-character layout is never a style; a non-default style or fill comes only from these rules |
| FormatVariadic.ConsumeFieldLayout | src/FormatVariadic.h:177-199 | an empty layout succeeds with Right, width 0, a space fill and nothing left; a style in `spec[1]` or else in `spec[0]` is taken, with the fill rule of the prefix; the width is the integer `ConsumeInteger` reads after the prefix, and the layout fails, with width 0, exactly when no integer is read there; what is left is what the integer leaves |
| FormatVariadic.ReadWidth | src/FormatVariadic.h:197-198 | the width is the `size_t` integer read after the style, and the layout fails, with width 0 and the style and fill kept, exactly when none is read; a successful read consumes at least one character |
| FormatVariadic.ParseReplacementItem | src/FormatVariadic.h:107-155 | never `nullopt` and never a literal; the item is `Empty` exactly when no index can be read from the trimmed text, and otherwise a `Format` item carrying that index, the raw spec, a width that fits in `size_t` and trimmed options; its style, width, fill and options are exactly what `ParseAfterIndex` reads from the text after the index, with that text's whitespace trimmed |
| FormatVariadic.ParseAfterIndex | src/FormatVariadic.h:126-154 | once the index is read, the result is always a `Format` item carrying the spec and the index, whatever layout or junk follows; after a `,` its style, width and fill are what `ConsumeFieldLayout` reads and its options come from what that leaves; with no `,` the layout is Right, width 0, space fill, and the options come from the whole remainder |
| FormatVariadic.ParseOptions | src/FormatVariadic.h:138-147 | the options are the trimmed text after a leading `:`, and empty when there is no `:` |
| FormatVariadic.SplitText | src/FormatVariadic.h:207-211 | text not starting with `{` gives one literal without `{`, up to the first `{` or the end |
| FormatVariadic.SplitBraceRun | src/FormatVariadic.h:214-224 | a run of `k` braces gives a literal of the first `k / 2` of them and drops `2 * (k / 2)` characters |
| FormatVariadic.SplitAtClosingBrace | src/FormatVariadic.h:227-251 | a lone `{` whose `}` is found splits into a literal or a single brace-free directive |
| FormatVariadic.SplitBeforeBrace | src/FormatVariadic.h:235-240 | the text before the inner `{` at `bo2` is a literal, and the remainder starts at `bo2` |
| FormatVariadic.SplitDirectiveAt | src/FormatVariadic.h:242-251 | the item is what `ParseReplacementItem` gives for the brace-free text between `{` and the first `}`, and the remainder is everything after that `}` |
| FormatVariadic.SplitLiteralAndReplacement | src/FormatVariadic.h:204-259 | every split of a non-empty template returns a strict suffix as remainder; a literal is a non-empty prefix of the consumed text; a directive item is exactly one brace-free `{...}` group |
| FormatVariadic.ParseFormatString | src/FormatVariadic.h:93-104 | terminates, and the items never include `Empty`, an empty literal or a directive with a brace |
| FormatVariadic.BuildAdapters | src/FormatVariadic.h:314-323 | one adapter per argument, in order, each the one `build_format_adapter` selects; rejected exactly when some argument has no capability |
| FormatVariadic.Formatv | src/FormatVariadic.h:314-323 | the object keeps the template and, in argument order, the adapter `build_format_adapter` selects for each argument; rejected exactly when some argument has no capability |
| TemplatePrinter.StrCompose | src/FormatVariadic.h:158-164 | for a template composed of text and well-formed directives, `str()` is exactly what the pieces promise (`Expected`), and streaming the object appends that same text after whatever the stream already holds |
| TemplateLemmas.SplitPlainText | src/FormatVariadic.h:208-211 | text up to the first `{` (or the end) is one literal, and the remainder starts at that `{` |
| TemplateLemmas.SplitBraceRun | src/FormatVariadic.h:216-224 | a run of exactly `k >= 2` braces yields `k / 2` literal braces and drops `2 * (k / 2)` characters, so one `{` of an odd run stays |
| TemplateLemmas.SplitUnterminated | src/FormatVariadic.h:228-233 | a lone `{` with no `}` after it makes the whole remainder one literal, with nothing left |
| TemplateLemmas.SplitNested | src/FormatVariadic.h:237-240 | with another `{` before the first `}`, the text up to that `{` is a literal and scanning resumes there |
| TemplateLemmas.SplitDirective | src/FormatVariadic.h:242-251 | a brace-free `{p}` group becomes the item `p` parses to, and the text after `}` is the remainder |
| TemplateLemmas.RenderStep | src/FormatVariadic.h:68-104 | rendering a template renders its first split item, then the remainder |
| TemplateLemmas.RenderPlainText | src/FormatVariadic.h:207-211 | a template without `{` is a single literal and renders as itself |
| TemplateLemmas.RenderTextRun | src/FormatVariadic.h:73-75 | a maximal run of text without `{` is emitted verbatim |
| TemplateLemmas.RenderBraceRun | src/FormatVariadic.h:216-224 | a run of `k >= 2` braces is emitted as `k / 2` braces |
| TemplateLemmas.RenderPlainChar | src/FormatVariadic.h:207-211 | a character other than `{` is emitted as it stands, whatever follows |
| TemplateLemmas.RenderEscapedBrace | src/FormatVariadic.h:216-224 | `{{` renders as one `{`, whatever follows it |
| TemplateLemmas.RenderDirective | src/FormatVariadic.h:68-90 | a brace-free `{p}` group renders as the item `p` parses to, followed by the rest |
| TemplateLemmas.ParseBadIndex | src/FormatVariadic.h:119-124 | an empty or non-numeric index, or an invalid octal such as `08`, gives an `Empty` item |
| TemplateLemmas.RenderDropsBadIndex | src/FormatVariadic.h:69-72 | a directive with a bad index disappears from the output |
| TemplateLemmas.RenderBoundIndex | src/FormatVariadic.h:81-84 | a directive whose index has an argument is emitted as that argument's output for the options, aligned and padded by `FormatAlign` with the directive's style, width and fill |
| TemplateLemmas.RenderUnboundIndex | src/FormatVariadic.h:76-80 | a directive whose index has no argument is emitted as the text between its braces |
| TemplatePrinter.NatToStringValue | src/FormatUtil.h:76-100 | read back in base 10, the decimal spelling of `n` is `n` |
| TemplatePrinter.ConsumeUnsignedDecimal | src/FormatUtil.h:64-108 | `consumeUnsignedInteger` with auto-sensed radix reads the decimal spelling of any 64-bit value back exactly, leaving what followed |
| TemplatePrinter.ConsumeDecimal | src/FormatUtil.h:134-153 | `ConsumeInteger` into `size_t` reads the decimal spelling of any `size_t` value back exactly |
| TemplatePrinter.EscapeInverse | src/FormatVariadic.h:216-224 | escaping text gives a well-escaped template that unescapes to the text |
| TemplatePrinter.UnescapeInverse | src/FormatVariadic.h:216-224 | every well-escaped template is the escape of its unescaped text |
| TemplatePrinter.RenderEscapedText | src/FormatVariadic.h:204-224 | escaped text renders as the text itself, whatever template follows |
| TemplatePrinter.RenderWellEscaped | src/FormatVariadic.h:68-104 | a template without directives renders as its unescaped text, with no argument consulted |
| TemplatePrinter.ConsumeLayoutText | src/FormatVariadic.h:177-199 | `ConsumeFieldLayout` reads a printed fill, style and width back, and stops at the options |
| TemplatePrinter.ParseOptionsText | src/FormatVariadic.h:143-147 | a printed options part reads back as the options |
| TemplatePrinter.ParseFieldText | src/FormatVariadic.h:107-155 | every well-formed printed directive parses back to the item it stands for |
| TemplatePrinter.FieldTextNoBraces | src/FormatVariadic.h:237-245 | a printed directive holds no brace, so it is split as one group |
| TemplatePrinter.RenderPiece | src/FormatVariadic.h:68-90 | one text or directive piece renders as it promises, in front of any template |
| TemplatePrinter.RenderCompose | src/FormatVariadic.h:68-104 | a template composed of text and well-formed directives renders to exactly what its pieces promise: the text, the inner text of an unbound directive, or the aligned argument |
| TemplatePrinter.ParseOneIndex | src/FormatVariadic.h:107-155 | `1` parses as index 1, width 0, Right, a space fill and no options |
| TemplatePrinter.UnboundIndexRendersSpec | src/FormatVariadic.h:76-80 | `{i}` with no argument `i` renders as `i`; with one argument, `{1}` renders `1` |
| TemplatePrinter.LayoutWithoutWidth | src/FormatVariadic.h:186-198 | a layout with no style and no leading digit fails, with width 0, and consumes nothing |
| TemplatePrinter.SpaceBeforeWidthIgnoresIt | src/FormatVariadic.h:131-136 | in `{i, w}` the space before the width defeats it: the directive parses with width 0, Right, a space fill and no options |

## Left out

- `src/Format.h`, a `snprintf` wrapper with floating-point formatting, is not part of this model. It shares no logic with the engine.
- `main.cpp`, a demonstration driver, is not part of this model.
- The `std::ostream` and `std::ostringstream` plumbing: the sink is a string that is only appended to.
- The SFINAE detection templates `HasFormatProvider` and `HasStreamOperator` (src/FormatVariadicDetails.h:72-104) are given as booleans in `Capabilities`.
- The argument tuple, the adapter pointer array and the rebinding in the move constructor (src/FormatVariadic.h:276-307) are lifetime details. `FormatvObject` holds the adapters as a sequence.
- `operator std::string` is the same as `str()`.
- The `ArrayRef` iterators, constructors, `front`/`back`/`equals`/`vec`, `drop_while`/`take_while`/`take_until`, and the ADL helpers (src/FormatUtil.h:199-256) are pointer machinery with no logic beyond that of `seq`.
- `consumeSignedInteger` (src/FormatUtil.h:110-132) and the signed path of `ConsumeInteger`: the parser only reads `size_t` values.
- `find_first_of` is `find`, and is modelled by `FormatUtil.Find`.
- Debug-build `assert` aborts. In the release build they do nothing. The source's `ArrayRef::slice` precondition `n + m <= size()` is kept as a `requires`.
- The `drop_front(fmt, bc + 1)` continuation of `SplitLiteralAndReplacement` (src/FormatVariadic.h:255): it is reachable only if `ParseReplacementItem` returns `nullopt`, which it never does.
- `std::isdigit` follows the "C" locale: only `0`-`9` are digits.
- FormatUtil.DropFront: requires `n <= |s|`, so the `std::out_of_range` that `substr(n)` throws for a larger `n` is not modelled. Every call in the engine checks the size or the first character first, so that case is unreachable there.
- FormatAlign.PaddedWidth: states the exact width only below 2^32 of padding, because `fill` takes a `uint32_t` count. `FormatAlign.Format` states the truncated counts in general.
- Character encodings: one Dafny `char` stands for one C++ `char`, that is one byte, so field widths and fill counts count bytes. Text in a multi-byte encoding such as UTF-8 is modelled as its byte sequence, not as decoded characters.
