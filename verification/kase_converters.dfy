/** The converters of `KaseConverters.kt` and the two `converter` factories of
    `KaseFormat.kt`: a fixed source and destination, the same pair usable in
    both directions, and a destination only, with the source format
    determined from each input. */
module KaseConverters {
  import opened Wrappers
  import opened AsciiCase
  import opened Tokens
  import opened KaseFormats
  import opened Conversion

  /** Dynamic conversion fails when no source format can be determined; the
      error carries the input (Kotlin throws `IllegalArgumentException` with
      the input in its message). */
  datatype ConversionError = FormatUndetermined(input: string)

  /** The sealed `KaseConverter` hierarchy. */
  datatype KaseConverter =
    | OneDirectionalConverter(sourceFormat: KaseFormat, destinationFormat: KaseFormat)
    | BiDirectionalConverter(sourceFormat: KaseFormat, destinationFormat: KaseFormat)
    | DynamicConverter(destinationFormat: KaseFormat)
  {
    /** `convert(input)`. The fixed-pair converters always succeed with the
        source format's conversion; the dynamic converter fails exactly when
        `determine` finds no format and otherwise converts from the format
        it found. */
    function Convert(input: string): (r: Result<string, ConversionError>)
      ensures !DynamicConverter? ==> r.Success?
      ensures DynamicConverter? ==> (r.Failure? <==> Determine(input).None?)
      ensures r.Failure? ==> r.error == FormatUndetermined(input)
      ensures r.Success? ==>
        r.value == Converted(if DynamicConverter? then Determine(input).value else sourceFormat,
                             destinationFormat, input)
    {
      match this
      case OneDirectionalConverter(source, destination) => Success(Converted(source, destination, input))
      case BiDirectionalConverter(source, destination) => Success(Converted(source, destination, input))
      case DynamicConverter(destination) =>
        match Determine(input)
        case Some(inputFormat) => Success(Converted(inputFormat, destination, input))
        case None => Failure(FormatUndetermined(input))
    }

    /** `convertInverse(input)` of a bidirectional converter: the converter
        with source and destination swapped. */
    function ConvertInverse(input: string): (r: string)
      requires BiDirectionalConverter?
      ensures Success(r) == OneDirectionalConverter(destinationFormat, sourceFormat).Convert(input)
    {
      Converted(destinationFormat, sourceFormat, input)
    }
  }

  /** `destination.converter(sourceFormat)`: a bidirectional converter from
      the given source to this format. */
  function ConverterFrom(destination: KaseFormat, sourceFormat: KaseFormat): (r: KaseConverter)
    ensures r.BiDirectionalConverter?
    ensures r.sourceFormat == sourceFormat && r.destinationFormat == destination
  {
    BiDirectionalConverter(sourceFormat, destination)
  }

  /** `destination.converter()`: the dynamic converter to this format (Kotlin
      creates it once, lazily, and hands out the same instance). */
  function DynamicConverterTo(destination: KaseFormat): (r: KaseConverter)
    ensures r.DynamicConverter? && r.destinationFormat == destination
  {
    DynamicConverter(destination)
  }

  /** A bidirectional converter between two literal-boundary formats undoes
      its own conversion on a string whose words are already in both formats'
      case and that does not contain the destination's delimiter. */
  lemma BiDirectionalRoundTrip(destination: KaseFormat, source: KaseFormat, s: string)
    requires source.Boundary().Literal? && destination.Boundary().Literal?
    requires source == destination || destination.Boundary().delimiter !in s
    requires forall w :: w in SplitOn(s, source.Boundary().delimiter) ==>
      InCaseOf(source, w) && InCaseOf(destination, w)
    ensures var c := ConverterFrom(destination, source);
      c.ConvertInverse(c.Convert(s).value) == s
  {
    LiteralRoundTrip(source, destination, s);
  }

  /** A blank input has no format, so dynamic conversion fails on it. */
  lemma DynamicFailsOnBlank(destination: KaseFormat, s: string)
    requires IsBlank(s)
    ensures DynamicConverterTo(destination).Convert(s) == Failure(FormatUndetermined(s))
  {
  }

  /** On a non-blank input that a format matches, dynamic conversion is the
      conversion from that format. */
  lemma DynamicAgreesWithMatchingFormat(destination: KaseFormat, f: KaseFormat, s: string)
    requires !IsBlank(s) && f.Matches(TokenizedString(Tokenize(s)))
    ensures DynamicConverterTo(destination).Convert(s) == ConverterFrom(destination, f).Convert(s)
  {
  }

  /** Uppercase letters and digits only: the input is read as upper
      underscore. */
  lemma DynamicReadsUpperAsUpperUnderscore(destination: KaseFormat, s: string)
    requires |s| > 0
    requires forall k :: 0 <= k < |s| ==> IsUpper(s[k]) || '0' <= s[k] <= '9'
    ensures DynamicConverterTo(destination).Convert(s) == Success(Converted(UpperUnderscore, destination, s))
  {
    DetermineUpperCaseOrNumeric(s);
  }

  /** Lowercase letters and digits with at least one letter: the input is read
      as lower camel. */
  lemma DynamicReadsLowerAsLowerCamel(destination: KaseFormat, s: string)
    requires forall k :: 0 <= k < |s| ==> IsLower(s[k]) || '0' <= s[k] <= '9'
    requires exists k :: 0 <= k < |s| && IsLower(s[k])
    ensures DynamicConverterTo(destination).Convert(s) == Success(Converted(LowerCamel, destination, s))
  {
    DetermineLowerCaseOrNumeric(s);
  }
}
