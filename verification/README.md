# kase-format in Dafny

A model of the core of kase-format, a small Kotlin library that recognises
and converts the letter case and word-delimiter format of identifiers. It
covers the eight formats:

- lower, capital and upper hyphen: `hello-world`, `Hello-World`, `HELLO-WORLD`;
- lower, capital and upper underscore, which use `_` instead of `-`;
- lower camel `helloWorld` and capital camel `HelloWorld`.

The pipeline has four stages:

- **Classify.** Every character is classified into a `CharToken`: hyphen,
  underscore, uppercase letter, lowercase letter, number, space or other
  printable special. Characters outside printable ASCII are unclassified.
- **Tokenize.** A string becomes a `TokenizedString`, the sequence of its
  tokens. It answers three questions: which tokens occur, the longest run of
  a token, and whether the first token outside an ignored set is a given one.
- **Determine.** Each format states its required tokens, its absent tokens,
  a predicate on the longest run of uppercase letters, and a start token.
  `determine` returns the first format, in declaration order, that meets all
  four. Failing that, it falls back to UPPER_UNDERSCORE for strings of
  uppercase letters and digits, and to LOWER_CAMEL for strings of lowercase
  letters and digits.
- **Convert.** The source format splits the input into words. For camel
  formats this is a lookahead split before each uppercase letter, followed by
  a rejoin that keeps acronyms together. The destination format normalises
  each word and joins the words with its delimiter. Converters package this
  for a fixed source and destination, or for a destination only, in which
  case the source is determined from each input.

Modules, one per source file:

- `CharTokens`: `CharToken.kt`.
- `Tokens`: `TokenizedString.kt`.
- `ExtSet`: `ExtSet.kt`.
- `KaseFormats`: the format catalogue, `matches`, `containsOnly` and
  `determine` from `KaseFormat.kt`.
- `Conversion`: `splitWords` and `convert` from `KaseFormat.kt`.
- `KaseConverters`: `KaseConverters.kt` and the two `converter` factories.

Three modules support these:

- `AsciiCase`: the Kotlin string case functions the formats use.
- `Wrappers`: `Option` and `Result`.
- `Examples`: inputs and outputs from the repository's test suite, as lemmas.

The loops of the source are methods proved equal to specification
functions:

- `TokenizedString.of`, `startsWith` and `maxSequentialCount`;
- `containsOnly`;
- the rejoin loop of `splitWords`, and `convert`.

Properties are then proved about those functions. Among them:

- classification is a partition of printable ASCII;
- at most one format matches any token sequence, so the declaration order of
  `determine` does not matter;
- inputs with specials, with both delimiters, or with a run of capitals next
  to lowercase letters and a delimiter are never recognised;
- the camel split concatenates back to its input;
- the length of a conversion is exact;
- literal-to-literal conversions round-trip.

## Model

Source paths are relative to the repository root.

| member | source | states |
|---|---|---|
| CharTokens.AnyContains | src/commonMain/kotlin/io/dotcipher/kase/CharToken.kt:23-30 | true exactly when some range of the list contains the character |
| CharTokens.CharToken.Matches | src/commonMain/kotlin/io/dotcipher/kase/CharToken.kt:23-30 | a token matches a character exactly when one of its declared ranges contains it |
| CharTokens.Values | src/commonMain/kotlin/io/dotcipher/kase/CharToken.kt:3-16 | exactly seven entries; with ValuesListsEveryToken, each token once, as `values()` scans them |
| CharTokens.ValuesListsEveryToken | src/commonMain/kotlin/io/dotcipher/kase/CharToken.kt:3-16 | every token occurs in the scan order `matching` uses |
| CharTokens.FirstMatching | src/commonMain/kotlin/io/dotcipher/kase/CharToken.kt:34-41 | a found token is in the scanned list and matches; `None` means no listed token matches |
| CharTokens.Matching | src/commonMain/kotlin/io/dotcipher/kase/CharToken.kt:34-41 | a found token matches the character; `None` only when no token matches it |
| CharTokens.RangesDisjoint | src/commonMain/kotlin/io/dotcipher/kase/CharToken.kt:3-16 | no character matches two different tokens |
| CharTokens.MatchingIsOrderFree | src/commonMain/kotlin/io/dotcipher/kase/CharToken.kt:34-41 | scanning the tokens in any order that lists them all gives the same result as declaration order |
| CharTokens.MatchingExactly | src/commonMain/kotlin/io/dotcipher/kase/CharToken.kt:34-41 | `matching(c)` is `t` if and only if `t` matches `c` |
| CharTokens.PrintableAsciiClassified | src/commonMain/kotlin/io/dotcipher/kase/CharToken.kt:3-16 | every character from space to `~` is matched by exactly one token |
| CharTokens.OutsidePrintableUnclassified | src/commonMain/kotlin/io/dotcipher/kase/CharToken.kt:17 | control characters, DEL, the Latin supplement and everything else outside space..`~` are unclassified |
| CharTokens.SpecificMappings | src/commonMain/kotlin/io/dotcipher/kase/CharToken.kt:4-9 | `-`, `_` and space are the hyphen, underscore and space tokens; letters and digits get their own tokens |
| CharTokens.OtherSpecialsAreTheRest | src/commonMain/kotlin/io/dotcipher/kase/CharToken.kt:10-16 | every other printable character is an other-special |
| ExtSet.ContainsNone | src/commonMain/kotlin/io/dotcipher/kase/ExtSet.kt:3-10 | true exactly when the two sets are disjoint |
| ExtSet.ContainsNoneOfEmpty | src/commonMain/kotlin/io/dotcipher/kase/ExtSet.kt:3-10 | no set contains any element of the empty set |
| ExtSet.ContainsNoneSymmetric | src/commonMain/kotlin/io/dotcipher/kase/ExtSet.kt:3-10 | the result does not depend on which set is the receiver |
| ExtSet.ContainsNoneOfSubset | src/commonMain/kotlin/io/dotcipher/kase/ExtSet.kt:3-10 | a set always contains some element of a non-empty subset of itself |
| Tokens.TokenOf | src/commonMain/kotlin/io/dotcipher/kase/TokenizedString.kt:43-47 | at most one token, and a token is in it exactly when that token matches the character |
| Tokens.Tokenize | src/commonMain/kotlin/io/dotcipher/kase/TokenizedString.kt:40-50 | never more tokens than characters |
| Tokens.TokenizeAppend | src/commonMain/kotlin/io/dotcipher/kase/TokenizedString.kt:40-50 | the tokens of a concatenation are the concatenation of the tokens, so order is kept |
| Tokens.TokenizeUniform | src/commonMain/kotlin/io/dotcipher/kase/TokenizedString.kt:40-50 | a string of characters of one kind gives one token of that kind per character |
| Tokens.TokenizeMembership | src/commonMain/kotlin/io/dotcipher/kase/TokenizedString.kt:40-50 | a token occurs in the sequence if and only if some character of the string has that token |
| Tokens.TokenizeAllClassified | src/commonMain/kotlin/io/dotcipher/kase/TokenizedString.kt:40-50 | when every character is classified, the tokens line up with the characters one for one |
| Tokens.Of | src/commonMain/kotlin/io/dotcipher/kase/TokenizedString.kt:40-50 | the loop builds exactly the token sequence of the string |
| Tokens.TokenizedString.UniqueTokens | src/commonMain/kotlin/io/dotcipher/kase/TokenizedString.kt:5 | a token is in the set exactly when it occurs in the sequence; the set is no larger than the sequence |
| Tokens.UniqueTokensOfString | src/commonMain/kotlin/io/dotcipher/kase/TokenizedString.kt:5 | a token is unique to a string exactly when some character of the string is classified as it |
| Tokens.FirstUnignored | src/commonMain/kotlin/io/dotcipher/kase/TokenizedString.kt:7-16 | `None` exactly when every token is ignored; otherwise a token outside the ignored set, all before it ignored |
| Tokens.FirstUnignoredAt | src/commonMain/kotlin/io/dotcipher/kase/TokenizedString.kt:7-16 | the first position outside the ignored set determines the result |
| Tokens.TokenizedString.StartsWith | src/commonMain/kotlin/io/dotcipher/kase/TokenizedString.kt:7-16 | true exactly when the first token outside the ignored set exists and is the expected one; false when every token is ignored |
| Tokens.TrailingRun | src/commonMain/kotlin/io/dotcipher/kase/TokenizedString.kt:20-30 | the trailing run is no longer than the sequence |
| Tokens.TrailingRunIsMaximal | src/commonMain/kotlin/io/dotcipher/kase/TokenizedString.kt:20-30 | the trailing run is a run that ends the sequence, and the token before it is different |
| Tokens.LongestRun | src/commonMain/kotlin/io/dotcipher/kase/TokenizedString.kt:18-36 | the longest run is no longer than the sequence |
| Tokens.LongestRunIsRun | src/commonMain/kotlin/io/dotcipher/kase/TokenizedString.kt:18-36 | the longest run is attained somewhere in the sequence |
| Tokens.LongestRunBound | src/commonMain/kotlin/io/dotcipher/kase/TokenizedString.kt:18-36 | every run is at most the longest run, which is therefore the maximum |
| Tokens.LongestRunZeroIffAbsent | src/commonMain/kotlin/io/dotcipher/kase/TokenizedString.kt:18-36 | the longest run is 0 if and only if the token does not occur |
| Tokens.RunOfPair | src/commonMain/kotlin/io/dotcipher/kase/TokenizedString.kt:18-36 | two adjacent characters of one kind make the longest run of that token at least 2 |
| Tokens.PairIsRun | src/commonMain/kotlin/io/dotcipher/kase/TokenizedString.kt:18-36 | a sequence containing two adjacent copies of a token has a run of at least 2 |
| Tokens.TokenizeAroundPair | src/commonMain/kotlin/io/dotcipher/kase/TokenizedString.kt:40-50 | two adjacent characters of one kind appear as two adjacent tokens between the tokens of the text before and after |
| Tokens.RunStep | src/commonMain/kotlin/io/dotcipher/kase/TokenizedString.kt:22-29 | a matching token adds one to the trailing run; any other token resets it to 0 and leaves the longest run unchanged |
| Tokens.TokenizedString.MaxSequentialCount | src/commonMain/kotlin/io/dotcipher/kase/TokenizedString.kt:18-36 | the loop, including the final check for a run at the end, returns the longest run of the token |
| AsciiCase.ToLower | src/commonMain/kotlin/io/dotcipher/kase/KaseFormat.kt:29 | uppercase ASCII letters move down by 32; every other character is unchanged; the result is never uppercase |
| AsciiCase.ToUpper | src/commonMain/kotlin/io/dotcipher/kase/KaseFormat.kt:154 | lowercase ASCII letters move up by 32; every other character is unchanged; the result is never lowercase |
| AsciiCase.LowerString | src/commonMain/kotlin/io/dotcipher/kase/KaseFormat.kt:29 | same letters position by position, and no uppercase letter left |
| AsciiCase.UpperString | src/commonMain/kotlin/io/dotcipher/kase/KaseFormat.kt:154 | same letters position by position, and no lowercase letter left |
| AsciiCase.Capitalize | src/commonMain/kotlin/io/dotcipher/kase/KaseFormat.kt:55 | same letters; the first character is not lowercase and the rest is unchanged; the empty string is kept |
| AsciiCase.LowerStringIdentity | src/commonMain/kotlin/io/dotcipher/kase/KaseFormat.kt:29 | lowercasing a string with no uppercase letter changes nothing |
| AsciiCase.UpperStringIdentity | src/commonMain/kotlin/io/dotcipher/kase/KaseFormat.kt:154 | uppercasing a string with no lowercase letter changes nothing |
| AsciiCase.SameLetterUnique | src/commonMain/kotlin/io/dotcipher/kase/KaseFormat.kt:29 | two characters with the same letter and the same case are equal |
| AsciiCase.CapitalizeIdentity | src/commonMain/kotlin/io/dotcipher/kase/KaseFormat.kt:55 | capitalising a string that does not start lowercase changes nothing |
| KaseFormats.KaseFormat.NormalizeWord | src/commonMain/kotlin/io/dotcipher/kase/KaseFormat.kt:177-187 | the letters are kept, and the empty word is unchanged. Lower formats, and the first word of lower camel, give no uppercase letter; upper formats give no lowercase letter; capital literal formats make the first letter not lowercase; later camel words and capital camel words are capitalised with the rest lowercased |
| KaseFormats.CamelWord | src/commonMain/kotlin/io/dotcipher/kase/KaseFormat.kt:210-218 | same letters; the first is not lowercase and the rest have no uppercase letter; the empty word is kept |
| KaseFormats.KaseFormat.Matches | src/commonMain/kotlin/io/dotcipher/kase/KaseFormat.kt:301-305 | holds exactly when all four checks hold: required tokens present, absent tokens absent, the uppercase-run predicate holds, and the start check holds |
| KaseFormats.FormatValues | src/commonMain/kotlin/io/dotcipher/kase/KaseFormat.kt:3-219 | exactly eight entries; with FormatValuesListsEveryFormat, each format once, as `values()` scans them |
| KaseFormats.FormatValuesListsEveryFormat | src/commonMain/kotlin/io/dotcipher/kase/KaseFormat.kt:3-219 | every format is scanned by `determine` |
| KaseFormats.DelimiterOfBoundary | src/commonMain/kotlin/io/dotcipher/kase/KaseFormat.kt:3-219 | the delimiter is the boundary's literal character; the camel formats, which split before capitals, have the empty delimiter |
| KaseFormats.DelimiterTokenRules | src/commonMain/kotlin/io/dotcipher/kase/KaseFormat.kt:9-219 | a hyphen or underscore format requires its own delimiter token, forbids the other and skips its own before the start token; camel formats forbid both and skip only digits |
| KaseFormats.LetterTokenRules | src/commonMain/kotlin/io/dotcipher/kase/KaseFormat.kt:9-219 | every format forbids spaces and other specials, neither requires nor forbids digits, never forbids capitals, requires a letter, and either requires or forbids lowercase letters |
| KaseFormats.UppercaseRunRules | src/commonMain/kotlin/io/dotcipher/kase/KaseFormat.kt:9-219 | a format rejects a longest capital run of 0 exactly when it requires capitals and exactly when it starts uppercase; only the upper formats and capital camel accept runs of 2 or more |
| KaseFormats.StartRules | src/commonMain/kotlin/io/dotcipher/kase/KaseFormat.kt:9-219 | every format has a start token, a letter it requires, never among the skipped tokens; digits are always skipped and no skipped token is forbidden |
| KaseFormats.KaseFormat.MatchesRequiredTokens | src/commonMain/kotlin/io/dotcipher/kase/KaseFormat.kt:282-283 | true exactly when every required token occurs in the sequence |
| KaseFormats.KaseFormat.MatchesAbsentTokens | src/commonMain/kotlin/io/dotcipher/kase/KaseFormat.kt:285-286 | true exactly when no absent token occurs in the sequence |
| KaseFormats.UppercaseRunMeaning | src/commonMain/kotlin/io/dotcipher/kase/KaseFormat.kt:288-289 | per format, in terms of the tokens: lower formats forbid capitals, capital formats need one and no two in a row, upper formats and capital camel need one, lower camel forbids two in a row |
| KaseFormats.StartTokenMeaning | src/commonMain/kotlin/io/dotcipher/kase/KaseFormat.kt:291-294 | true exactly when some position holds the start token and every token before it is a skipped one |
| KaseFormats.FirstMatch | src/commonMain/kotlin/io/dotcipher/kase/KaseFormat.kt:337 | a found format is listed and matches; `None` means no listed format matches |
| KaseFormats.RequiredAbsentDisjoint | src/commonMain/kotlin/io/dotcipher/kase/KaseFormat.kt:270-271 | no format requires a token it also forbids |
| KaseFormats.FormatsExclusive | src/commonMain/kotlin/io/dotcipher/kase/KaseFormat.kt:9-219 | at most one format matches any token sequence |
| KaseFormats.FirstMatchIsOnlyMatch | src/commonMain/kotlin/io/dotcipher/kase/KaseFormat.kt:337 | the first matching format is `f` if and only if `f` matches, so the scan order does not matter |
| KaseFormats.ContainsOnly | src/commonMain/kotlin/io/dotcipher/kase/KaseFormat.kt:309-322 | true exactly when every character lies in one of the ranges; the empty string gives true |
| KaseFormats.FallbackRanges | src/commonMain/kotlin/io/dotcipher/kase/KaseFormat.kt:324-328 | the two fallback range lists hold exactly the capitals or the lowercase letters, and the digits |
| KaseFormats.OnlyInFallbackRanges | src/commonMain/kotlin/io/dotcipher/kase/KaseFormat.kt:309-328 | a string passes a fallback check exactly when each character is a letter of that case or a digit; it passes both exactly when it is all digits |
| KaseFormats.BlankMatchesNoFormat | src/commonMain/kotlin/io/dotcipher/kase/KaseFormat.kt:330-334 | a blank string has only space tokens and matches no format, so the short circuit only keeps it from the fallbacks |
| KaseFormats.Determine | src/commonMain/kotlin/io/dotcipher/kase/KaseFormat.kt:330-350 | a blank string has no format. A matching format is the answer. Any answer matches, or is one of the two fallbacks justified by the characters. `None` exactly when the string is blank, or nothing matches and neither fallback applies |
| KaseFormats.TokensOfAlphanumeric | src/commonMain/kotlin/io/dotcipher/kase/KaseFormat.kt:324-328 | letters of one case and digits give only that letter token and the number token |
| KaseFormats.DetermineUpperCaseOrNumeric | src/commonMain/kotlin/io/dotcipher/kase/KaseFormat.kt:342-344 | a non-empty string of uppercase letters and digits is upper underscore |
| KaseFormats.LowerCamelMatchesLowerOrNumeric | src/commonMain/kotlin/io/dotcipher/kase/KaseFormat.kt:158-175 | lowercase and number tokens with at least one lowercase letter match lower camel |
| KaseFormats.DetermineLowerCaseOrNumeric | src/commonMain/kotlin/io/dotcipher/kase/KaseFormat.kt:330-350 | a string of lowercase letters and digits with at least one letter is lower camel |
| KaseFormats.DetermineNoneWithoutFallback | src/commonMain/kotlin/io/dotcipher/kase/KaseFormat.kt:342-349 | when no format matches and some character is neither a letter nor a digit, the result is `None` |
| KaseFormats.NoFormatAllowsSpecials | src/commonMain/kotlin/io/dotcipher/kase/KaseFormat.kt:9-219 | no format matches a sequence with a space or other-special token |
| KaseFormats.NoFormatAllowsBothDelimiters | src/commonMain/kotlin/io/dotcipher/kase/KaseFormat.kt:9-219 | no format matches a sequence with both a hyphen and an underscore |
| KaseFormats.NoFormatAllowsMixedCaseRun | src/commonMain/kotlin/io/dotcipher/kase/KaseFormat.kt:9-155 | with a delimiter and a lowercase letter, two adjacent capitals rule out every format |
| KaseFormats.DetermineRejectsSpecials | src/commonMain/kotlin/io/dotcipher/kase/KaseFormat.kt:330-350 | a string containing a space or an other-special character has no format |
| KaseFormats.DetermineRejectsBothDelimiters | src/commonMain/kotlin/io/dotcipher/kase/KaseFormat.kt:330-350 | a string containing both `-` and `_` has no format |
| KaseFormats.DetermineRejectsMixedCaseRun | src/commonMain/kotlin/io/dotcipher/kase/KaseFormat.kt:330-350 | a delimiter, a lowercase letter and two adjacent capitals together mean no format |
| KaseFormats.TokensOfCapitalized | src/commonMain/kotlin/io/dotcipher/kase/TokenizedString.kt:40-50 | a capitalised word tokenizes as one uppercase token followed by lowercase tokens |
| KaseFormats.LongestRunOfCapitalized | src/commonMain/kotlin/io/dotcipher/kase/TokenizedString.kt:18-36 | such a sequence has a longest uppercase run of exactly 1 |
| KaseFormats.CapitalCamelMatchesCapitalized | src/commonMain/kotlin/io/dotcipher/kase/KaseFormat.kt:191-209 | an uppercase token followed by lowercase tokens matches capital camel |
| KaseFormats.DetermineCapitalizedWord | src/commonMain/kotlin/io/dotcipher/kase/KaseFormat.kt:330-350 | a capitalised word of two or more letters is capital camel |
| KaseFormats.TokensAt | src/commonMain/kotlin/io/dotcipher/kase/TokenizedString.kt:40-50 | a string of letters, digits and one delimiter tokenizes position by position into the class of each character |
| KaseFormats.NoAdjacentUppercase | src/commonMain/kotlin/io/dotcipher/kase/TokenizedString.kt:18-36 | without two adjacent capitals the longest uppercase run is at most 1 |
| KaseFormats.FirstAfterDigits | src/commonMain/kotlin/io/dotcipher/kase/TokenizedString.kt:7-16 | after leading digits only, the first token outside the digits is the class of the first letter |
| KaseFormats.FirstAfterDigitsOrDelimiters | src/commonMain/kotlin/io/dotcipher/kase/TokenizedString.kt:7-16 | after leading digits and delimiters, the first token outside them is the class of the first letter |
| KaseFormats.LowerDelimitedMatches | src/commonMain/kotlin/io/dotcipher/kase/KaseFormat.kt:9-30 | lowercase, digit and delimiter tokens with a delimiter and a lowercase letter match the lower format of that delimiter |
| KaseFormats.UpperDelimitedMatches | src/commonMain/kotlin/io/dotcipher/kase/KaseFormat.kt:56-78 | uppercase, digit and delimiter tokens with a delimiter and a capital match the upper format of that delimiter |
| KaseFormats.CapitalDelimitedMatches | src/commonMain/kotlin/io/dotcipher/kase/KaseFormat.kt:32-54 | letters, digits and a delimiter, with a lowercase letter, no two capitals in a row and a capital first after digits and delimiters, match the capital format of that delimiter |
| KaseFormats.LowerCamelMatches | src/commonMain/kotlin/io/dotcipher/kase/KaseFormat.kt:158-175 | letter and digit tokens with no two capitals in a row and a lowercase letter first after digits match lower camel |
| KaseFormats.CapitalCamelMatches | src/commonMain/kotlin/io/dotcipher/kase/KaseFormat.kt:191-209 | letter and digit tokens with a lowercase letter and a capital first after digits match capital camel |
| KaseFormats.DetermineLowerDelimited | src/commonMain/kotlin/io/dotcipher/kase/KaseFormat.kt:330-340 | a string of lowercase letters, digits and one delimiter, holding both a delimiter and a letter, is lower hyphen or lower underscore |
| KaseFormats.DetermineUpperDelimited | src/commonMain/kotlin/io/dotcipher/kase/KaseFormat.kt:330-340 | a string of capitals, digits and one delimiter, holding both a delimiter and a capital, is upper hyphen or upper underscore |
| KaseFormats.DetermineCapitalDelimited | src/commonMain/kotlin/io/dotcipher/kase/KaseFormat.kt:330-340 | a string of letters, digits and one delimiter with a delimiter, a lowercase letter, no two capitals in a row and a capital as first letter is capital hyphen or capital underscore |
| KaseFormats.DetermineLowerCamel | src/commonMain/kotlin/io/dotcipher/kase/KaseFormat.kt:330-340 | a string of letters and digits with no two capitals in a row whose first letter is lowercase is lower camel |
| KaseFormats.DetermineCapitalCamel | src/commonMain/kotlin/io/dotcipher/kase/KaseFormat.kt:330-340 | a string of letters and digits with a lowercase letter whose first letter is a capital is capital camel |
| Conversion.SplitOn | src/commonMain/kotlin/io/dotcipher/kase/KaseFormat.kt:254 | one more piece than delimiter occurrences; no piece holds the delimiter; every piece character comes from the input |
| Conversion.JoinSplitOn | src/commonMain/kotlin/io/dotcipher/kase/KaseFormat.kt:254 | joining the pieces with the delimiter gives back the input |
| Conversion.SplitOnJoin | src/commonMain/kotlin/io/dotcipher/kase/KaseFormat.kt:254 | splitting a join of delimiter-free words gives back the words |
| Conversion.SplitOnPrefix | src/commonMain/kotlin/io/dotcipher/kase/KaseFormat.kt:254 | a delimiter-free word followed by the delimiter is split off as the first piece |
| Conversion.SplitOnWithout | src/commonMain/kotlin/io/dotcipher/kase/KaseFormat.kt:254 | a string without the delimiter is a single piece |
| Conversion.JoinWith | src/commonMain/kotlin/io/dotcipher/kase/KaseFormat.kt:257-267 | the join starts with the first word; with the empty delimiter it is the plain concatenation of the words |
| Conversion.LookaheadSplit | src/commonMain/kotlin/io/dotcipher/kase/KaseFormat.kt:224 | the fragments concatenate to the input; the first has no uppercase letter; every later one is an uppercase letter followed by no uppercase letter |
| Conversion.SingleUpperIsOneCapital | src/commonMain/kotlin/io/dotcipher/kase/KaseFormat.kt:233 | a fragment matches the boundary `[A-Z]` exactly when it is one uppercase letter |
| Conversion.Rejoin | src/commonMain/kotlin/io/dotcipher/kase/KaseFormat.kt:228-251 | no emitted word is empty |
| Conversion.CamelWords | src/commonMain/kotlin/io/dotcipher/kase/KaseFormat.kt:221-252 | the words concatenate back to exactly the input; none is empty; every word but the first starts with an uppercase letter |
| Conversion.Words | src/commonMain/kotlin/io/dotcipher/kase/KaseFormat.kt:221-255 | joined again with the source's own delimiter the words give back the input; literal words hold no delimiter; camel words are never empty |
| Conversion.SplitWords | src/commonMain/kotlin/io/dotcipher/kase/KaseFormat.kt:221-255 | the method, including its rejoin loop with the word cache, returns the words of the input for the source format |
| Conversion.NormalizeAll | src/commonMain/kotlin/io/dotcipher/kase/KaseFormat.kt:260-261 | one normalised word per word, each normalised with its own index and keeping its letters up to case |
| Conversion.Convert | src/commonMain/kotlin/io/dotcipher/kase/KaseFormat.kt:257-267 | the builder loop gives the normalised words joined by the destination delimiter, with no trailing delimiter |
| Conversion.Converted | src/commonMain/kotlin/io/dotcipher/kase/KaseFormat.kt:257-267 | the output is the source's words joined with the destination delimiter, changed only in letter case; between formats with the same delimiter it equals the input up to case |
| Conversion.JoinSameLetters | src/commonMain/kotlin/io/dotcipher/kase/KaseFormat.kt:260-265 | joining words that agree up to case gives strings that agree up to case |
| Conversion.JoinFrom | src/commonMain/kotlin/io/dotcipher/kase/KaseFormat.kt:260-265 | appending a word, and a delimiter unless it is the last word, advances the join by one word |
| Conversion.JoinSnoc | src/commonMain/kotlin/io/dotcipher/kase/KaseFormat.kt:262-264 | the join ends with the last word, never with a delimiter |
| Conversion.RejoinFlatten | src/commonMain/kotlin/io/dotcipher/kase/KaseFormat.kt:228-251 | the rejoin keeps every character in order: its words concatenate to the cache followed by the remaining fragments |
| Conversion.RejoinStarts | src/commonMain/kotlin/io/dotcipher/kase/KaseFormat.kt:228-251 | from the second fragment on, every word starts uppercase; a word built on the cache starts with the cache |
| Conversion.RejoinFirst | src/commonMain/kotlin/io/dotcipher/kase/KaseFormat.kt:229-243 | the first step caches a one-letter fragment before a single capital, emits a non-empty first fragment, or skips an empty one |
| Conversion.RejoinWordsStartUppercase | src/commonMain/kotlin/io/dotcipher/kase/KaseFormat.kt:228-251 | every rejoined word after the first starts with an uppercase letter |
| Conversion.LookaheadSplitNoUpper | src/commonMain/kotlin/io/dotcipher/kase/KaseFormat.kt:224 | a string without uppercase letters is a single fragment |
| Conversion.CamelWordsNoUpper | src/commonMain/kotlin/io/dotcipher/kase/KaseFormat.kt:222-252 | a non-empty string without uppercase letters is one word |
| Conversion.LookaheadSplitPrefix | src/commonMain/kotlin/io/dotcipher/kase/KaseFormat.kt:224 | a prefix without uppercase letters joins the first fragment of the rest |
| Conversion.LookaheadSplitOfCapitalized | src/commonMain/kotlin/io/dotcipher/kase/KaseFormat.kt:224 | a capitalised word is cut only before its first letter, leaving an empty first fragment |
| Conversion.CamelWordsOfCapitalized | src/commonMain/kotlin/io/dotcipher/kase/KaseFormat.kt:222-252 | a capitalised word is one word |
| Conversion.LookaheadSplitOfUpper | src/commonMain/kotlin/io/dotcipher/kase/KaseFormat.kt:224 | a run of capitals gives an empty fragment, then one fragment per letter |
| Conversion.RejoinUpperRun | src/commonMain/kotlin/io/dotcipher/kase/KaseFormat.kt:239-240 | single capitals are gathered in the cache into one acronym word |
| Conversion.RejoinAcronym | src/commonMain/kotlin/io/dotcipher/kase/KaseFormat.kt:228-251 | a run of single capitals ended by a fragment that is not one is emitted with the cache as one word, and the rejoin resumes after it with an empty cache |
| Conversion.CamelWordsAllUpper | src/commonMain/kotlin/io/dotcipher/kase/KaseFormat.kt:222-252 | a non-empty all-uppercase string is one word |
| Conversion.FlattenLength | src/commonMain/kotlin/io/dotcipher/kase/KaseFormat.kt:257-267 | the concatenation is as long as the words together |
| Conversion.JoinLength | src/commonMain/kotlin/io/dotcipher/kase/KaseFormat.kt:257-267 | joining n words adds exactly n - 1 delimiters |
| Conversion.SplitOnLength | src/commonMain/kotlin/io/dotcipher/kase/KaseFormat.kt:254 | the pieces lose exactly one character per delimiter occurrence |
| Conversion.NormalizeAllLength | src/commonMain/kotlin/io/dotcipher/kase/KaseFormat.kt:260-261 | normalising keeps the total length of the words |
| Conversion.TotalLengthPointwise | src/commonMain/kotlin/io/dotcipher/kase/KaseFormat.kt:260-261 | word lists whose words have equal lengths position by position have equal total length |
| Conversion.JoinedPiecesLength | src/commonMain/kotlin/io/dotcipher/kase/KaseFormat.kt:257-267 | rejoining literal pieces with a one-character delimiter restores the input length; with no delimiter, one character is lost per occurrence |
| Conversion.LiteralConvertedLength | src/commonMain/kotlin/io/dotcipher/kase/KaseFormat.kt:257-267 | from a hyphen or underscore format, converting to another such format keeps the length; converting to camel drops one character per delimiter |
| Conversion.CamelConvertedLength | src/commonMain/kotlin/io/dotcipher/kase/KaseFormat.kt:257-267 | from a camel format, the output is the input length plus one destination delimiter between each pair of words |
| Conversion.NormalizeWordKeeps | src/commonMain/kotlin/io/dotcipher/kase/KaseFormat.kt:29 | a word already in a literal format's case is normalised to itself |
| Conversion.NormalizeAllKeeps | src/commonMain/kotlin/io/dotcipher/kase/KaseFormat.kt:260-261 | words already in the format's case come through normalisation unchanged |
| Conversion.LiteralRoundTrip | src/commonMain/kotlin/io/dotcipher/kase/KaseFormat.kt:257-267 | between literal formats whose case the words already have, conversion only swaps the delimiter. Converting back restores the input when the destination delimiter does not occur in it. With equal formats this is idempotence |
| Conversion.SameCaseRoundTrip | src/commonMain/kotlin/io/dotcipher/kase/KaseFormat.kt:257-267 | a lowercase string round-trips between lower hyphen and lower underscore, and an uppercase one between the two upper formats |
| KaseConverters.KaseConverter.Convert | src/commonMain/kotlin/io/dotcipher/kase/KaseConverters.kt:3-29 | fixed-pair converters always succeed with the source format's conversion. The dynamic converter fails, carrying the input, exactly when `determine` finds no format; otherwise it converts from the format found |
| KaseConverters.KaseConverter.ConvertInverse | src/commonMain/kotlin/io/dotcipher/kase/KaseConverters.kt:16 | equals the one-directional converter with source and destination swapped |
| KaseConverters.ConverterFrom | src/commonMain/kotlin/io/dotcipher/kase/KaseFormat.kt:298-299 | a bidirectional converter from the given source to the receiver |
| KaseConverters.DynamicConverterTo | src/commonMain/kotlin/io/dotcipher/kase/KaseFormat.kt:278 | the dynamic converter to the receiver |
| KaseConverters.BiDirectionalRoundTrip | src/commonMain/kotlin/io/dotcipher/kase/KaseConverters.kt:13-17 | `convertInverse` undoes `convert` between literal formats whose case the words already have, when the destination delimiter does not occur in the input |
| KaseConverters.DynamicFailsOnBlank | src/commonMain/kotlin/io/dotcipher/kase/KaseConverters.kt:19-29 | dynamic conversion of a blank input fails |
| KaseConverters.DynamicAgreesWithMatchingFormat | src/commonMain/kotlin/io/dotcipher/kase/KaseConverters.kt:19-29 | on a non-blank input that a format matches, the dynamic converter is the converter from that format |
| KaseConverters.DynamicReadsUpperAsUpperUnderscore | src/commonMain/kotlin/io/dotcipher/kase/KaseConverters.kt:19-29 | uppercase letters and digits are converted as upper underscore |
| KaseConverters.DynamicReadsLowerAsLowerCamel | src/commonMain/kotlin/io/dotcipher/kase/KaseConverters.kt:19-29 | lowercase letters and digits with at least one letter are converted as lower camel |
| Examples.UnknownBlank | src/commonTest/kotlin/io/dotcipher/kase/KaseFormatTests.kt:211-216 | "" and " " have no format |
| Examples.UnknownBothDelimiters | src/commonTest/kotlin/io/dotcipher/kase/KaseFormatTests.kt:209-212 | "abc-abc_abc" and "-_" have no format |
| Examples.UnknownBang | src/commonTest/kotlin/io/dotcipher/kase/KaseFormatTests.kt:213 | "!" has no format |
| Examples.UnknownBrackets | src/commonTest/kotlin/io/dotcipher/kase/KaseFormatTests.kt:215 | "[]" has no format |
| Examples.UnknownSpaced | src/commonTest/kotlin/io/dotcipher/kase/KaseFormatTests.kt:217-220 | "A B C" and " Nope" have no format |
| Examples.UnknownQuestion | src/commonTest/kotlin/io/dotcipher/kase/KaseFormatTests.kt:218-219 | "MaybeThough?" has no format |
| Examples.UnknownAmpersand | src/commonTest/kotlin/io/dotcipher/kase/KaseFormatTests.kt:221 | "-not&this-either" has no format |
| Examples.UnknownMixedCase | src/commonTest/kotlin/io/dotcipher/kase/KaseFormatTests.kt:210-214 | "ABC_abc" and "ABC-abc" have no format |
| Examples.UpperUnderscoreByFallback | src/commonTest/kotlin/io/dotcipher/kase/KaseFormatTests.kt:168 | "ABC" is upper underscore |
| Examples.UpperUnderscoreWithDigitsByFallback | src/commonTest/kotlin/io/dotcipher/kase/KaseFormatTests.kt:169 | "123ABC" is upper underscore |
| Examples.LowerCamelOfOneWord | src/commonTest/kotlin/io/dotcipher/kase/KaseFormatTests.kt:146 | "what" is lower camel |
| Examples.LowerHyphenInput | src/commonTest/kotlin/io/dotcipher/kase/KaseFormatTests.kt:203 | "a-b" is lower hyphen |
| Examples.LowerHyphenWithDigits | src/commonTest/kotlin/io/dotcipher/kase/KaseFormatTests.kt:205 | "123-abc-rew-34-whatever" is lower hyphen |
| Examples.LowerUnderscoreInput | src/commonTest/kotlin/io/dotcipher/kase/KaseFormatTests.kt:181 | "a_b" is lower underscore |
| Examples.UpperHyphenInput | src/commonTest/kotlin/io/dotcipher/kase/KaseFormatTests.kt:187 | "A-B" is upper hyphen |
| Examples.UpperUnderscoreInput | src/commonTest/kotlin/io/dotcipher/kase/KaseFormatTests.kt:166 | "ABC_DEF" is upper underscore by the catalogue, not the fallback |
| Examples.UpperUnderscoreWithDigits | src/commonTest/kotlin/io/dotcipher/kase/KaseFormatTests.kt:167 | "123_ABC_WITH_THINGS" is upper underscore |
| Examples.CapitalHyphenInput | src/commonTest/kotlin/io/dotcipher/kase/KaseFormatTests.kt:195 | "Ab-Ab" is capital hyphen |
| Examples.CapitalUnderscoreInput | src/commonTest/kotlin/io/dotcipher/kase/KaseFormatTests.kt:173 | "Ab_Ab" is capital underscore |
| Examples.CapitalUnderscoreLeadingDelimiter | src/commonTest/kotlin/io/dotcipher/kase/KaseFormatTests.kt:175 | "_Ab" is capital underscore: the leading delimiter is skipped before the start token |
| Examples.LowerCamelInput | src/commonTest/kotlin/io/dotcipher/kase/KaseFormatTests.kt:145 | "with123Numbers" is lower camel |
| Examples.LowerCamelLeadingDigits | src/commonTest/kotlin/io/dotcipher/kase/KaseFormatTests.kt:147 | "123somethingElse" is lower camel: leading digits are skipped |
| Examples.CapitalCamelInput | src/commonTest/kotlin/io/dotcipher/kase/KaseFormatTests.kt:129 | "ItWorks" is capital camel |
| Examples.CapitalCamelWithAcronym | src/commonTest/kotlin/io/dotcipher/kase/KaseFormatTests.kt:133 | "SomeJSONAcronym" is capital camel |
| Examples.CapitalCamelLeadingDigits | src/commonTest/kotlin/io/dotcipher/kase/KaseFormatTests.kt:128 | "123SomethingElse" is capital camel |
| Examples.WordsOfXmlThing | src/commonTest/kotlin/io/dotcipher/kase/KaseFormatTests.kt:134 | "XMLThing" splits into the acronym "XML" and the word "Thing" |
| Examples.NormalizedXmlThing | src/commonTest/kotlin/io/dotcipher/kase/KaseFormatTests.kt:137 | the camel formats normalise "XML" to "xml" or "Xml" and keep "Thing" |
| Examples.ConvertXmlThingToLowerCamel | src/commonTest/kotlin/io/dotcipher/kase/KaseFormatTests.kt:137 | "XMLThing" converts from capital camel to "xmlThing" |
| Examples.ConvertXmlThingToItself | src/commonTest/kotlin/io/dotcipher/kase/KaseFormatTests.kt:134 | converting "XMLThing" to its own format gives "XmlThing", so conversion is not idempotent on acronyms |
| Examples.WordsOfSomeJsonAcronym | src/commonTest/kotlin/io/dotcipher/kase/KaseFormatTests.kt:133 | "SomeJSONAcronym" splits into "Some", the acronym "JSON" and "Acronym" |
| Examples.ConvertSomeJsonAcronymToLowerCamel | src/commonTest/kotlin/io/dotcipher/kase/KaseFormatTests.kt:138 | "SomeJSONAcronym" converts from capital camel to "someJsonAcronym" |
| Examples.HopefullyIsCapitalCamel | src/commonTest/kotlin/io/dotcipher/kase/KaseFormatTests.kt:130 | "Hopefully" is capital camel |
| Examples.ConvertHopefullyToLowerCamel | src/commonTest/kotlin/io/dotcipher/kase/KaseFormatTests.kt:139 | "Hopefully" converts from capital camel to "hopefully" |
| Examples.DynamicHopefully | src/commonTest/kotlin/io/dotcipher/kase/KaseFormatTests.kt:39-43 | the dynamic converter to lower camel turns "Hopefully" into "hopefully" |
| Examples.WordsOfSomethingElse | src/commonTest/kotlin/io/dotcipher/kase/KaseFormatTests.kt:144 | "abcSomethingElse" splits into "abc", "Something" and "Else" |
| Examples.ConvertSomethingElseToUpperHyphen | src/commonTest/kotlin/io/dotcipher/kase/KaseFormatTests.kt:157 | "abcSomethingElse" converts from lower camel to "ABC-SOMETHING-ELSE" |
| Examples.WordsOfABCd | src/commonMain/kotlin/io/dotcipher/kase/KaseFormat.kt:239-240 | in "aBCd" the one-letter fragment is cached: the words are "aB" and "Cd" |
| Examples.ConvertWhatToCapitalCamel | src/commonTest/kotlin/io/dotcipher/kase/KaseFormatTests.kt:153 | "what" converts from lower camel to "What" |
| Examples.WordsOfWith123Numbers | src/commonTest/kotlin/io/dotcipher/kase/KaseFormatTests.kt:145 | "with123Numbers" splits into "with123" and "Numbers" |
| Examples.ConvertWith123NumbersToCapitalCamel | src/commonTest/kotlin/io/dotcipher/kase/KaseFormatTests.kt:152 | "with123Numbers" converts from lower camel to "With123Numbers" |
| Examples.UnderscoreToHyphenAndBack | src/commonTest/kotlin/io/dotcipher/kase/KaseFormatTests.kt:183 | "something_blah_123_other_stuff" survives lower underscore to lower hyphen and back |

## Left out

- Regular expressions: a regex engine is not modelled.
  - `Regex("-")` and `Regex("_")` become a split on one character, with every empty piece kept.
  - `Regex("(?=[A-Z])")` becomes a cut before each uppercase letter, keeping the empty leading fragment of a cut at position 0 as the JVM split does. The rejoin drops that fragment.
  - `nextToken.matches(boundary)` becomes "exactly one uppercase letter".
- Case mapping and `isBlank` are ASCII only.
  - `toLowerCase`, `toUpperCase` and `capitalize` change only `A`-`Z` and `a`-`z`. Kotlin would also change non-ASCII letters. This never matters to `determine`, because those characters are unclassified and the fallbacks accept only ASCII.
  - `isBlank` treats space, 0x09-0x0D and 0x1C-0x1F as whitespace, and no non-ASCII character.
- The lazy `dynamicConverter` cache is not modelled: `converter()` builds the equivalent value `DynamicConverter(this)`.
- Exceptions: the `IllegalArgumentException` thrown by the dynamic converter becomes `Failure(FormatUndetermined(input))`.
- Integer width: counters are unbounded. The Kotlin `Int` counters of `maxSequentialCount` cannot overflow on any string that fits in memory.
- The `nextToken != null` check in `splitWords` is always true inside the loop bound. The model drops it.
- The vararg constructors and the `Set` type of `CharToken`'s ranges are not modelled; the ranges are a fixed list per token.
- Test inputs: only a sample of the test suite's inputs is stated as example lemmas. Every unknown input and at least one input of each format's list is covered. The general lemmas cover the rest of those lists: DetermineLowerDelimited, DetermineUpperDelimited, DetermineCapitalDelimited, DetermineLowerCamel, DetermineCapitalCamel, DetermineCapitalizedWord, DetermineUpperCaseOrNumeric and DetermineLowerCaseOrNumeric for the positive ones, and DetermineRejectsSpecials, DetermineRejectsBothDelimiters and DetermineRejectsMixedCaseRun for the unknown ones.
- Characters are Unicode code points, not UTF-16 units. Kotlin's `string.length == 1` in the rejoin counts UTF-16 units, and the model's `|frags[i]| == 1` counts code points. The two differ only for a fragment that is one character outside the Basic Multilingual Plane. For example, capital camel "\u{1F600}AB" converted to lower hyphen gives "\u{1F600}-ab" in Kotlin, because the emoji is two UTF-16 units and is not cached. The model gives "\u{1F600}ab", because the emoji is one code point and is cached together with "A".
- Locale: Kotlin's `toLowerCase` and `toUpperCase` use the default locale, which in a Turkish locale maps `I` to a dotless `ı`. The model fixes the root locale, where the ASCII letters map to each other.

Where the documentation and the code differ, the model follows the code:

- `capitalize` uppercases the first letter and leaves the rest of the word untouched.
- The catalogue's `NUMBER` and `OTHER_SPECIAL` are the enum entries `NUMBERS` and `OTHER_SPECIALS`.
- Converting a string to its own format is not idempotent when it holds an acronym: capital camel "XMLThing" becomes "XmlThing" (Examples.ConvertXmlThingToItself). Idempotence holds for literal formats whose words are already in case (Conversion.LiteralRoundTrip).
