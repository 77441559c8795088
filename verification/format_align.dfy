/** Padding a rendered fragment to a field width (src/FormatAlign.h). */
module FormatAlign {
  import opened FormatVariadicDetails

  /** Where the fragment sits inside the padded field. */
  datatype AlignStyle = Left | Center | Right

  /** The layout character that names each style in a directive. */
  function StyleChar(s: AlignStyle): char {
    match s
    case Left => '-'
    case Center => '='
    case Right => '+'
  }

  /** 2^32: `fill` takes its count as `uint32_t`. */
  const U32Limit: nat := 0x1_0000_0000

  /** `fill(os, count)`: `count` copies of the fill character; the count is truncated to 32 bits. */
  function Fill(fill: char, count: nat): (r: string)
    ensures |r| == count % U32Limit
    ensures forall i :: 0 <= i < |r| ==> r[i] == fill
  {
    seq(count % U32Limit, _ => fill)
  }

  /** How many of `pad` fill characters go before the fragment. */
  function LeadingFill(where: AlignStyle, pad: nat): (n: nat)
    ensures n <= pad
    ensures where == Left ==> n == 0
    ensures where == Right ==> n == pad
    ensures where == Center ==> n <= pad - n <= n + 1
  {
    match where
    case Left => 0
    case Center => pad / 2
    case Right => pad
  }

  /**
   * `FormatAlign::format(os, options)`: render the adapter's text for `options`
   * and pad it with `fill` to `amount` characters.
   */
  function Format(adapter: Adapter, where: AlignStyle, amount: nat, fill: char, options: string): (r: string)
    // width 0 is the adapter's own output
    ensures amount == 0 ==> r == adapter(options)
    // a field no wider than the fragment never truncates it
    ensures amount <= |adapter(options)| ==> r == adapter(options)
    // otherwise the fragment is surrounded by fill characters; the count of
    // each run is truncated to 32 bits
    ensures amount > |adapter(options)| ==>
      var item := adapter(options);
      var pad := amount - |item|;
      var lead := LeadingFill(where, pad);
      |r| == lead % U32Limit + |item| + (pad - lead) % U32Limit &&
      r[lead % U32Limit..lead % U32Limit + |item|] == item &&
      forall i :: 0 <= i < |r| && !(lead % U32Limit <= i < lead % U32Limit + |item|) ==> r[i] == fill
  {
    if amount == 0 then adapter(options)
    else
      var item := adapter(options);
      if amount <= |item| then item
      else
        var pad := amount - |item|;
        match where
        case Left => item + Fill(fill, pad)
        case Center =>
          var x := pad / 2;
          Fill(fill, x) + item + Fill(fill, pad - x)
        case Right => Fill(fill, pad) + item
  }

  /**
   * Below the 32-bit truncation, a padded field is exactly `amount` wide, and
   * stripping the leading fill recovers the fragment.
   */
  lemma PaddedWidth(adapter: Adapter, where: AlignStyle, amount: nat, fill: char, options: string)
    requires |adapter(options)| < amount < |adapter(options)| + U32Limit
    ensures var r := Format(adapter, where, amount, fill, options);
      var lead := LeadingFill(where, amount - |adapter(options)|);
      |r| == amount && r[lead..lead + |adapter(options)|] == adapter(options)
  {
    var pad := amount - |adapter(options)|;
    SmallCounts(pad, LeadingFill(where, pad));
  }

  /** Both fill counts of a padding below 2^32 survive the truncation to 32 bits. */
  lemma SmallCounts(pad: nat, lead: nat)
    requires lead <= pad < U32Limit
    ensures lead % U32Limit == lead && (pad - lead) % U32Limit == pad - lead
  {
  }
}
