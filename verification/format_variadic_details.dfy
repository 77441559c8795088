/**
 * Compile-time adapter selection (src/FormatVariadicDetails.h).
 *
 * The C++ code inspects each argument type with SFINAE and picks one of four
 * `build_format_adapter` overloads. Here the three facts the detection templates
 * compute are given as booleans, and an adapter is the function from an options
 * string to the text `FormatAdapter::format` appends to its stream.
 */
module FormatVariadicDetails {
  import opened Wrappers

  /** `FormatAdapter::format(os, options)`: the text written for the given options. */
  type Adapter = string -> string

  /** The three compile-time facts adapter selection depends on. */
  datatype Capabilities = Capabilities(
    derivesFromFormatAdapter: bool,  // std::is_base_of_v<FormatAdapter, T>
    hasFormatProvider: bool,         // HasFormatProvider<T>::Value
    hasStreamOperator: bool)         // HasStreamOperator<T>::Value

  predicate UsesFormatMember(c: Capabilities) {
    c.derivesFromFormatAdapter
  }

  predicate UsesFormatProvider(c: Capabilities) {
    !UsesFormatMember(c) && c.hasFormatProvider
  }

  predicate UsesStreamOperator(c: Capabilities) {
    !UsesFormatMember(c) && !UsesFormatProvider(c) && c.hasStreamOperator
  }

  /** Note that the source tests `HasStreamOperator` here, not `UsesStreamOperator`. */
  predicate UsesMissingProvider(c: Capabilities) {
    !UsesFormatMember(c) && !UsesFormatProvider(c) && !c.hasStreamOperator
  }

  /** The adapter class `build_format_adapter` instantiates. */
  datatype AdapterKind = FormatMember | Provider | StreamOperator | Missing

  /**
   * The overload of `build_format_adapter` that survives SFINAE: the first
   * capability in priority order member > provider > stream operator.
   */
  function SelectAdapter(c: Capabilities): (k: AdapterKind)
    // each overload is enabled by exactly one of the four `Uses*` guards
    ensures k == FormatMember <==> UsesFormatMember(c)
    ensures k == Provider <==> UsesFormatProvider(c)
    ensures k == StreamOperator <==> UsesStreamOperator(c)
    ensures k == Missing <==> UsesMissingProvider(c)
    // priority: a FormatAdapter subclass beats a provider, which beats `<<`
    ensures c.derivesFromFormatAdapter ==> k == FormatMember
    ensures !c.derivesFromFormatAdapter && c.hasFormatProvider ==> k == Provider
    ensures k == StreamOperator ==> !c.hasFormatProvider && c.hasStreamOperator
    ensures k == Missing <==>
      !c.derivesFromFormatAdapter && !c.hasFormatProvider && !c.hasStreamOperator
  {
    if c.derivesFromFormatAdapter then FormatMember
    else if c.hasFormatProvider then Provider
    else if c.hasStreamOperator then StreamOperator
    else Missing
  }

  /** Exactly one of the four overload guards holds for every argument type. */
  lemma ExactlyOneGuard(c: Capabilities)
    ensures (if UsesFormatMember(c) then 1 else 0) + (if UsesFormatProvider(c) then 1 else 0)
          + (if UsesStreamOperator(c) then 1 else 0) + (if UsesMissingProvider(c) then 1 else 0) == 1
  {
    match SelectAdapter(c)
    case FormatMember =>
    case Provider =>
    case StreamOperator =>
    case Missing =>
  }

  /**
   * One argument of `formatv`: its type's capabilities and what each way of
   * rendering it would write.
   */
  datatype Argument = Argument(
    caps: Capabilities,
    member: Adapter,      // the value's own `format`, when it derives from FormatAdapter
    provider: Adapter,    // options => FormatProvider<T>::format(item, os, options)
    streamed: string)     // what `os << item` writes

  /**
   * `MissingFormatAdapter<T>` is declared but never defined, so selecting it
   * makes the program ill-formed.
   */
  datatype CompileError = MissingFormatAdapter

  /** `build_format_adapter(item)`: wrap the argument in the selected adapter. */
  function BuildFormatAdapter(a: Argument): (r: Result<Adapter, CompileError>)
    // only a type with no capability at all is rejected
    ensures r.Failure? <==> UsesMissingProvider(a.caps)
    // a FormatAdapter subclass is passed through unwrapped
    ensures UsesFormatMember(a.caps) ==> r.Success? && forall o :: r.value(o) == a.member(o)
    // ProviderFormatAdapter forwards the options unchanged
    ensures UsesFormatProvider(a.caps) ==> r.Success? && forall o :: r.value(o) == a.provider(o)
    // StreamOperatorFormatAdapter ignores the options
    ensures UsesStreamOperator(a.caps) ==> r.Success? && forall o :: r.value(o) == a.streamed
  {
    match SelectAdapter(a.caps)
    case FormatMember => Success(a.member)
    case Provider => Success(options => a.provider(options))
    case StreamOperator => Success(_ => a.streamed)
    case Missing => Failure(MissingFormatAdapter)
  }
}
