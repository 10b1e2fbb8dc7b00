/** The format catalogue of `KaseFormat.kt`: eight fixed case formats, each
    with the tokens it requires and forbids, a predicate on the longest run of
    uppercase letters, a start-token rule, a word boundary, a delimiter and a
    per-word normaliser; and format detection (`determine`). */
module KaseFormats {
  import opened Wrappers
  import opened AsciiCase
  import opened CharTokens
  import opened Tokens
  import opened ExtSet

  /** The `boundary` regex of a format: a literal delimiter character, or the
      class `[A-Z]` that the camel formats split before. */
  datatype WordBoundary = Literal(delimiter: char) | BeforeUppercase

  /** The formats, in declaration order. */
  datatype KaseFormat =
    | LowerHyphen        // hello-world
    | CapitalHyphen      // Hello-World
    | UpperHyphen        // HELLO-WORLD
    | LowerUnderscore    // hello_world
    | CapitalUnderscore  // Hello_World
    | UpperUnderscore    // HELLO_WORLD
    | LowerCamel         // helloWorld
    | CapitalCamel       // HelloWorld
  {
    function Boundary(): WordBoundary
    {
      match this
      case LowerHyphen | CapitalHyphen | UpperHyphen => Literal('-')
      case LowerUnderscore | CapitalUnderscore | UpperUnderscore => Literal('_')
      case LowerCamel | CapitalCamel => BeforeUppercase
    }

    /** The string put between two words of this format. */
    function Delimiter(): string
    {
      match this
      case LowerHyphen | CapitalHyphen | UpperHyphen => "-"
      case LowerUnderscore | CapitalUnderscore | UpperUnderscore => "_"
      case LowerCamel | CapitalCamel => ""
    }

    function RequiredTokens(): set<CharToken>
    {
      match this
      case LowerHyphen => {Hyphen, LowercaseLetter}
      case CapitalHyphen => {Hyphen, UppercaseLetter, LowercaseLetter}
      case UpperHyphen => {Hyphen, UppercaseLetter}
      case LowerUnderscore => {Underscore, LowercaseLetter}
      case CapitalUnderscore => {Underscore, UppercaseLetter, LowercaseLetter}
      case UpperUnderscore => {Underscore, UppercaseLetter}
      case LowerCamel => {LowercaseLetter}
      case CapitalCamel => {LowercaseLetter, UppercaseLetter}
    }

    function AbsentTokens(): set<CharToken>
    {
      match this
      case LowerHyphen => {Underscore, Space, OtherSpecials}
      case CapitalHyphen => {Underscore, Space, OtherSpecials}
      case UpperHyphen => {LowercaseLetter, Underscore, Space, OtherSpecials}
      case LowerUnderscore => {Hyphen, Space, OtherSpecials}
      case CapitalUnderscore => {Hyphen, Space, OtherSpecials}
      case UpperUnderscore => {LowercaseLetter, Hyphen, Space, OtherSpecials}
      case LowerCamel => {Underscore, Hyphen, Space, OtherSpecials}
      case CapitalCamel => {Underscore, Hyphen, Space, OtherSpecials}
    }

    /** `matchMaxSequentialUppercase`: the condition on the longest run of
        uppercase letters. */
    predicate MatchMaxSequentialUppercase(n: int)
    {
      match this
      case LowerHyphen | LowerUnderscore => n == 0
      case CapitalHyphen | CapitalUnderscore => n == 1
      case UpperHyphen | UpperUnderscore => n > 0
      case LowerCamel => n == 1 || n == 0
      case CapitalCamel => n >= 1
    }

    /** `shouldStartWith`: every entry sets it (the base class default is
        `null`, `None` here). */
    function ShouldStartWith(): Option<CharToken>
    {
      match this
      case LowerHyphen | LowerUnderscore | LowerCamel => Some(LowercaseLetter)
      case _ => Some(UppercaseLetter)
    }

    /** `shouldStartWithIgnore`: the tokens skipped before the start token. */
    function ShouldStartWithIgnore(): set<CharToken>
    {
      match this
      case LowerHyphen | CapitalHyphen | UpperHyphen => {Numbers, Hyphen}
      case LowerUnderscore | CapitalUnderscore | UpperUnderscore => {Numbers, Underscore}
      case LowerCamel | CapitalCamel => {Numbers}
    }

    /** `normalizeWord(word, wordIndex)`: only letter case changes. Lower
        formats (and lower camel's first word) lowercase the word, upper formats
        uppercase it, the capital hyphen and underscore formats uppercase the
        first character and leave the rest as it is, and the camel formats
        uppercase the first character and lowercase the rest. */
    function NormalizeWord(word: string, wordIndex: int): (r: string)
      ensures SameLetters(r, word)
      ensures |word| == 0 ==> r == word
      ensures (this == LowerHyphen || this == LowerUnderscore || (this == LowerCamel && wordIndex == 0))
        ==> NoUpper(r)
      ensures (this == UpperHyphen || this == UpperUnderscore) ==> NoLower(r)
      ensures (this == CapitalHyphen || this == CapitalUnderscore) && |word| > 0
        ==> !IsLower(r[0]) && r[1..] == word[1..]
      ensures ((this == LowerCamel && wordIndex != 0) || this == CapitalCamel) && |word| > 0
        ==> !IsLower(r[0]) && NoUpper(r[1..])
    {
      match this
      case LowerHyphen | LowerUnderscore => LowerString(word)
      case CapitalHyphen | CapitalUnderscore => Capitalize(word)
      case UpperHyphen | UpperUnderscore => UpperString(word)
      case LowerCamel => if wordIndex == 0 then LowerString(word) else CamelWord(word)
      case CapitalCamel => CamelWord(word)
    }

    /** `matches(tokenized)`: all required tokens occur, no absent token
        occurs, the longest uppercase run satisfies the run predicate, and,
        when a start token is set, the first token outside the ignored ones
        is that token. */
    predicate Matches(tokenized: TokenizedString)
      ensures Matches(tokenized) <==>
        && (forall t :: t in RequiredTokens() ==> t in tokenized.charTokens)
        && (forall t :: t in AbsentTokens() ==> t !in tokenized.charTokens)
        && MatchMaxSequentialUppercase(LongestRun(tokenized.charTokens, UppercaseLetter))
        && (ShouldStartWith().Some? ==>
              FirstUnignored(tokenized.charTokens, ShouldStartWithIgnore()) == ShouldStartWith())
    {
      && MatchesRequiredTokens(tokenized)
      && MatchesAbsentTokens(tokenized)
      && MatchesMaxSequentialUppercase(tokenized)
      && MatchesStartsWith(tokenized)
    }

    predicate MatchesRequiredTokens(tokenized: TokenizedString)
      ensures MatchesRequiredTokens(tokenized) <==>
        forall t :: t in RequiredTokens() ==> t in tokenized.charTokens
    {
      tokenized.UniqueTokens() >= RequiredTokens()
    }

    predicate MatchesAbsentTokens(tokenized: TokenizedString)
      ensures MatchesAbsentTokens(tokenized) <==>
        forall t :: t in AbsentTokens() ==> t !in tokenized.charTokens
    {
      ContainsNone(tokenized.UniqueTokens(), AbsentTokens())
    }

    predicate MatchesMaxSequentialUppercase(tokenized: TokenizedString)
    {
      MatchMaxSequentialUppercase(LongestRun(tokenized.charTokens, UppercaseLetter))
    }

    predicate MatchesStartsWith(tokenized: TokenizedString)
    {
      match ShouldStartWith()
      case Some(start) => FirstUnignored(tokenized.charTokens, ShouldStartWithIgnore()) == Some(start)
      case None => true
    }
  }

  /** The camel normalisation of a word that is not lower camel's first: the
      empty word unchanged, a one-character word capitalized, a longer one
      with its first character uppercased and the rest lowercased. */
  function CamelWord(word: string): (r: string)
    ensures SameLetters(r, word)
    ensures |word| == 0 ==> r == word
    ensures |word| > 0 ==> !IsLower(r[0]) && NoUpper(r[1..])
  {
    if |word| == 0 then word
    else if |word| == 1 then Capitalize(word)
    else [ToUpper(word[0])] + LowerString(word[1..])
  }

  /** `values()`: the formats in declaration order, the order `determine`
      tries them in. */
  function FormatValues(): (r: seq<KaseFormat>)
    ensures |r| == 8
  {
    [LowerHyphen, CapitalHyphen, UpperHyphen, LowerUnderscore, CapitalUnderscore,
     UpperUnderscore, LowerCamel, CapitalCamel]
  }

  lemma FormatValuesListsEveryFormat(f: KaseFormat)
    ensures f in FormatValues()
  {
    var v := FormatValues();
    match f
    case LowerHyphen => assert v[0] == f;
    case CapitalHyphen => assert v[1] == f;
    case UpperHyphen => assert v[2] == f;
    case LowerUnderscore => assert v[3] == f;
    case CapitalUnderscore => assert v[4] == f;
    case UpperUnderscore => assert v[5] == f;
    case LowerCamel => assert v[6] == f;
    case CapitalCamel => assert v[7] == f;
  }

  /** `firstOrNull { it.matches(tokenized) }` over `formats`. */
  function FirstMatch(formats: seq<KaseFormat>, tokenized: TokenizedString): (r: Option<KaseFormat>)
    ensures r.Some? ==> r.value in formats && r.value.Matches(tokenized)
    ensures r.None? ==> forall f :: f in formats ==> !f.Matches(tokenized)
  {
    if formats == [] then None
    else if formats[0].Matches(tokenized) then Some(formats[0])
    else FirstMatch(formats[1..], tokenized)
  }

  /** The delimiter put between words is the boundary's literal character;
      the camel formats, which split before capitals, put nothing. */
  lemma DelimiterOfBoundary(f: KaseFormat)
    ensures f.Boundary() == BeforeUppercase <==> f.Delimiter() == []
    ensures f.Boundary().Literal? ==> f.Delimiter() == [f.Boundary().delimiter]
  {
  }

  /** Each literal format requires its own delimiter token, forbids the other
      one and skips its own before the start token; the camel formats forbid
      both delimiters and skip only digits. */
  lemma DelimiterTokenRules(f: KaseFormat)
    ensures f.Boundary() == Literal('-') ==>
      Hyphen in f.RequiredTokens() && Underscore in f.AbsentTokens()
      && f.ShouldStartWithIgnore() == {Numbers, Hyphen}
    ensures f.Boundary() == Literal('_') ==>
      Underscore in f.RequiredTokens() && Hyphen in f.AbsentTokens()
      && f.ShouldStartWithIgnore() == {Numbers, Underscore}
    ensures f.Boundary() == BeforeUppercase ==>
      Hyphen in f.AbsentTokens() && Underscore in f.AbsentTokens()
      && f.ShouldStartWithIgnore() == {Numbers}
  {
  }

  /** Every format forbids spaces and other specials, neither requires nor
      forbids digits, never forbids capitals, requires at least one letter
      token, and either requires or forbids lowercase letters. */
  lemma LetterTokenRules(f: KaseFormat)
    ensures Space in f.AbsentTokens() && OtherSpecials in f.AbsentTokens()
    ensures Numbers !in f.RequiredTokens() && Numbers !in f.AbsentTokens()
    ensures UppercaseLetter !in f.AbsentTokens()
    ensures UppercaseLetter in f.RequiredTokens() || LowercaseLetter in f.RequiredTokens()
    ensures LowercaseLetter in f.RequiredTokens() <==> LowercaseLetter !in f.AbsentTokens()
    ensures forall t :: t in f.RequiredTokens() ==>
      t == Hyphen || t == Underscore || t == UppercaseLetter || t == LowercaseLetter
  {
  }

  /** The run predicate on capitals agrees with the other checks: a format
      demands a capital (rejects a longest run of 0) exactly when it requires
      the uppercase token, and exactly when it starts with one. Only the upper
      formats and capital camel accept runs of two or more. */
  lemma UppercaseRunRules(f: KaseFormat)
    ensures !f.MatchMaxSequentialUppercase(0) <==> UppercaseLetter in f.RequiredTokens()
    ensures !f.MatchMaxSequentialUppercase(0) <==> f.ShouldStartWith() == Some(UppercaseLetter)
    ensures f.MatchMaxSequentialUppercase(1) <==> f != LowerHyphen && f != LowerUnderscore
    ensures forall n: int :: n >= 2 ==>
      (f.MatchMaxSequentialUppercase(n) <==> f == UpperHyphen || f == UpperUnderscore || f == CapitalCamel)
    ensures forall n: int :: n < 0 ==> !f.MatchMaxSequentialUppercase(n)
  {
  }

  /** Every format has a start token; it is a letter the format requires, it
      is never among the tokens skipped before it, and digits are always
      skipped. */
  lemma StartRules(f: KaseFormat)
    ensures f.ShouldStartWith().Some?
    ensures f.ShouldStartWith().value in f.RequiredTokens()
    ensures f.ShouldStartWith().value == UppercaseLetter || f.ShouldStartWith().value == LowercaseLetter
    ensures f.ShouldStartWith().value !in f.ShouldStartWithIgnore()
    ensures Numbers in f.ShouldStartWithIgnore()
    ensures forall t :: t in f.ShouldStartWithIgnore() ==> t !in f.AbsentTokens()
  {
  }

  /** No two adjacent uppercase tokens. */
  predicate NoUppercasePair(ts: seq<CharToken>)
  {
    forall k :: 0 <= k < |ts| - 1 ==> !(ts[k] == UppercaseLetter && ts[k + 1] == UppercaseLetter)
  }

  /** `matchesMaxSequentialUppercase` in terms of the tokens: the lower
      hyphen and underscore formats forbid capitals, the capital ones need a
      capital and no two in a row, the upper formats and capital camel need a
      capital, and lower camel allows capitals but no two in a row. */
  lemma UppercaseRunMeaning(f: KaseFormat, tokenized: TokenizedString)
    ensures (f == LowerHyphen || f == LowerUnderscore) ==>
      (f.MatchesMaxSequentialUppercase(tokenized) <==> UppercaseLetter !in tokenized.charTokens)
    ensures (f == CapitalHyphen || f == CapitalUnderscore) ==>
      (f.MatchesMaxSequentialUppercase(tokenized) <==>
        UppercaseLetter in tokenized.charTokens && NoUppercasePair(tokenized.charTokens))
    ensures (f == UpperHyphen || f == UpperUnderscore || f == CapitalCamel) ==>
      (f.MatchesMaxSequentialUppercase(tokenized) <==> UppercaseLetter in tokenized.charTokens)
    ensures f == LowerCamel ==>
      (f.MatchesMaxSequentialUppercase(tokenized) <==> NoUppercasePair(tokenized.charTokens))
  {
    LongestRunZeroIffAbsent(tokenized.charTokens, UppercaseLetter);
    LongestRunAtMostOne(tokenized.charTokens, UppercaseLetter);
  }

  /** `matchesStartsWith` in terms of the tokens: some position holds the
      start token and every token before it is one of the skipped ones. */
  lemma StartTokenMeaning(f: KaseFormat, tokenized: TokenizedString)
    ensures f.MatchesStartsWith(tokenized) <==>
      (f.ShouldStartWith().None? ||
       exists k :: 0 <= k < |tokenized.charTokens| && tokenized.charTokens[k] == f.ShouldStartWith().value
         && forall j :: 0 <= j < k ==> tokenized.charTokens[j] in f.ShouldStartWithIgnore())
  {
    var ts := tokenized.charTokens;
    StartRules(f);
    var start := f.ShouldStartWith().value;
    if exists k :: 0 <= k < |ts| && ts[k] == start && forall j :: 0 <= j < k ==> ts[j] in f.ShouldStartWithIgnore() {
      var k :| 0 <= k < |ts| && ts[k] == start && forall j :: 0 <= j < k ==> ts[j] in f.ShouldStartWithIgnore();
      FirstUnignoredAt(ts, f.ShouldStartWithIgnore(), k);
    }
  }

  /** For every format the required and the absent tokens are disjoint. */
  lemma RequiredAbsentDisjoint(f: KaseFormat)
    ensures f.RequiredTokens() * f.AbsentTokens() == {}
  {
  }

  /** No token sequence matches two different formats: the hyphen and the
      underscore formats require and forbid each other's delimiter, the camel
      formats forbid both, the run predicates 0 / 1 / >0 and the lowercase
      token separate the lower, capital and upper variants, and the two camel
      formats require different start tokens. */
  lemma FormatsExclusive(f: KaseFormat, g: KaseFormat, tokenized: TokenizedString)
    requires f != g && f.Matches(tokenized)
    ensures !g.Matches(tokenized)
  {
    var ts := tokenized.charTokens;
    if g.Matches(tokenized) {
      if f.Boundary() != g.Boundary() {
        assert false;
      } else if f.MatchMaxSequentialUppercase(LongestRun(ts, UppercaseLetter))
             && g.MatchMaxSequentialUppercase(LongestRun(ts, UppercaseLetter)) {
        assert false;
      }
    }
  }

  /** The first match in declaration order is the only match. */
  lemma FirstMatchIsOnlyMatch(tokenized: TokenizedString, f: KaseFormat)
    ensures FirstMatch(FormatValues(), tokenized) == Some(f) <==> f.Matches(tokenized)
  {
    var r := FirstMatch(FormatValues(), tokenized);
    if f.Matches(tokenized) {
      FormatValuesListsEveryFormat(f);
      if r.Some? && r.value != f {
        FormatsExclusive(f, r.value, tokenized);
      }
    }
  }

  /** Whether every character of `s` lies in one of `ranges`. */
  predicate OnlyIn(s: string, ranges: seq<CharRange>)
  {
    forall k :: 0 <= k < |s| ==> AnyContains(ranges, s[k])
  }

  /** `containsOnly(vararg charRange)`: for each character, a flag records
      whether some range contains it; the scan stops at the first character
      no range contains. */
  method ContainsOnly(s: string, charRange: seq<CharRange>) returns (b: bool)
    ensures b <==> OnlyIn(s, charRange)
  {
    for i := 0 to |s|
      invariant forall k :: 0 <= k < i ==> AnyContains(charRange, s[k])
    {
      var matchesAtLeastOneRange := false;
      for j := 0 to |charRange|
        invariant matchesAtLeastOneRange <==> exists m :: 0 <= m < j && charRange[m].Contains(s[i])
      {
        if charRange[j].Contains(s[i]) {
          matchesAtLeastOneRange := true;
        }
      }
      assert matchesAtLeastOneRange <==> AnyContains(charRange, s[i]);
      if !matchesAtLeastOneRange {
        return false;
      }
    }
    return true;
  }

  /** The ranges of `containsOnlyUpperCaseOrNumeric`. */
  function UpperCaseOrNumeric(): seq<CharRange> { [CharRange('A', 'Z'), CharRange('0', '9')] }

  /** The ranges of `containsOnlyLowerCaseOrNumeric`. */
  function LowerCaseOrNumeric(): seq<CharRange> { [CharRange('a', 'z'), CharRange('0', '9')] }

  /** The fallback ranges hold exactly the capitals (or lowercase letters)
      and the digits. */
  lemma FallbackRanges(c: char)
    ensures AnyContains(UpperCaseOrNumeric(), c) <==> IsUpper(c) || '0' <= c <= '9'
    ensures AnyContains(LowerCaseOrNumeric(), c) <==> IsLower(c) || '0' <= c <= '9'
  {
    assert UpperCaseOrNumeric()[0].Contains(c) <==> IsUpper(c);
    assert LowerCaseOrNumeric()[0].Contains(c) <==> IsLower(c);
  }

  /** `containsOnlyUpperCaseOrNumeric` and `containsOnlyLowerCaseOrNumeric`
      character by character; a string of digits alone passes both, and so
      does the empty string. */
  lemma OnlyInFallbackRanges(s: string)
    ensures OnlyIn(s, UpperCaseOrNumeric()) <==> forall k :: 0 <= k < |s| ==> IsUpper(s[k]) || '0' <= s[k] <= '9'
    ensures OnlyIn(s, LowerCaseOrNumeric()) <==> forall k :: 0 <= k < |s| ==> IsLower(s[k]) || '0' <= s[k] <= '9'
    ensures OnlyIn(s, UpperCaseOrNumeric()) && OnlyIn(s, LowerCaseOrNumeric()) <==>
      forall k :: 0 <= k < |s| ==> '0' <= s[k] <= '9'
  {
    forall k | 0 <= k < |s| {
      FallbackRanges(s[k]);
    }
  }

  /** A blank string has only space tokens (the other whitespace characters
      are unclassified), so no format matches it: the `isBlank` short circuit
      only keeps such strings away from the fallbacks. */
  lemma BlankMatchesNoFormat(s: string)
    requires IsBlank(s)
    ensures forall t :: t in Tokenize(s) ==> t == Space
    ensures forall f: KaseFormat :: !f.Matches(TokenizedString(Tokenize(s)))
  {
    forall t | t in Tokenize(s) ensures t == Space {
      TokenizeMembership(s, t);
      var k :| 0 <= k < |s| && Matching(s[k]) == Some(t);
      SpecificMappings(s[k]);
      if s[k] != ' ' {
        OutsidePrintableUnclassified(s[k]);
      }
    }
    forall f: KaseFormat ensures !f.Matches(TokenizedString(Tokenize(s))) {
      LetterTokenRules(f);
    }
  }

  /** `determine(string)`: `None` for a blank string; otherwise the first
      format in declaration order that matches the tokenized string; failing
      that, upper underscore for a string of only uppercase letters and
      digits, lower camel for one of only lowercase letters and digits, and
      `None` for anything else. */
  function Determine(s: string): (r: Option<KaseFormat>)
    ensures IsBlank(s) ==> r.None?
    ensures !IsBlank(s) ==> forall f: KaseFormat :: f.Matches(TokenizedString(Tokenize(s))) ==> r == Some(f)
    ensures r.Some? ==>
      || r.value.Matches(TokenizedString(Tokenize(s)))
      || (r.value == UpperUnderscore && OnlyIn(s, UpperCaseOrNumeric()))
      || (r.value == LowerCamel && OnlyIn(s, LowerCaseOrNumeric()))
    ensures r.None? <==> (IsBlank(s) ||
      ((forall f: KaseFormat :: !f.Matches(TokenizedString(Tokenize(s))))
       && !OnlyIn(s, UpperCaseOrNumeric()) && !OnlyIn(s, LowerCaseOrNumeric())))
  {
    if IsBlank(s) then None
    else
      var tokenized := TokenizedString(Tokenize(s));
      var maybeFormat := FirstMatch(FormatValues(), tokenized);
      assert forall f: KaseFormat :: f.Matches(tokenized) ==> maybeFormat == Some(f) by {
        forall f: KaseFormat | f.Matches(tokenized) ensures maybeFormat == Some(f) {
          FirstMatchIsOnlyMatch(tokenized, f);
        }
      }
      if maybeFormat.Some? then maybeFormat
      else if OnlyIn(s, UpperCaseOrNumeric()) then Some(UpperUnderscore)
      else if OnlyIn(s, LowerCaseOrNumeric()) then Some(LowerCamel)
      else None
  }

  /** Every token of a string over [A-Z0-9] is an uppercase letter or a digit
      token, and every token of a string over [a-z0-9] a lowercase letter or a
      digit token. */
  lemma TokensOfAlphanumeric(s: string, letter: CharToken)
    requires letter == UppercaseLetter || letter == LowercaseLetter
    requires forall k :: 0 <= k < |s| ==>
      (if letter == UppercaseLetter then IsUpper(s[k]) else IsLower(s[k])) || '0' <= s[k] <= '9'
    ensures forall t :: t in Tokenize(s) ==> t == letter || t == Numbers
  {
    forall t | t in Tokenize(s) ensures t == letter || t == Numbers {
      TokenizeMembership(s, t);
      var k :| 0 <= k < |s| && Matching(s[k]) == Some(t);
      SpecificMappings(s[k]);
    }
  }

  /** A non-empty string of uppercase letters and digits matches no format of
      the catalogue and is detected as upper underscore by the fallback. */
  lemma DetermineUpperCaseOrNumeric(s: string)
    requires |s| > 0
    requires forall k :: 0 <= k < |s| ==> IsUpper(s[k]) || '0' <= s[k] <= '9'
    ensures Determine(s) == Some(UpperUnderscore)
  {
    assert !IsAsciiWhitespace(s[0]);
    var tokenized := TokenizedString(Tokenize(s));
    TokensOfAlphanumeric(s, UppercaseLetter);
    forall f: KaseFormat ensures !f.Matches(tokenized) {
      assert Hyphen in f.RequiredTokens() || Underscore in f.RequiredTokens()
        || LowercaseLetter in f.RequiredTokens();
    }
    forall k | 0 <= k < |s| ensures AnyContains(UpperCaseOrNumeric(), s[k]) {
      assert UpperCaseOrNumeric()[0].Contains(s[k]) || UpperCaseOrNumeric()[1].Contains(s[k]);
    }
  }

  /** A token sequence of lowercase letters and digits with at least one
      lowercase letter satisfies all four checks of lower camel. */
  lemma LowerCamelMatchesLowerOrNumeric(ts: seq<CharToken>)
    requires forall t :: t in ts ==> t == LowercaseLetter || t == Numbers
    requires LowercaseLetter in ts
    ensures LowerCamel.Matches(TokenizedString(ts))
  {
    LongestRunZeroIffAbsent(ts, UppercaseLetter);
    var first := FirstUnignored(ts, {Numbers});
    assert first.Some? by {
      var j :| 0 <= j < |ts| && ts[j] == LowercaseLetter;
      assert ts[j] !in {Numbers};
    }
    assert first == Some(LowercaseLetter) by {
      var j :| 0 <= j < |ts| && ts[j] == first.value;
      assert ts[j] in ts;
    }
  }

  /** A string of lowercase letters and digits with at least one lowercase
      letter is detected as lower camel (by the catalogue, before the
      fallback). */
  lemma DetermineLowerCaseOrNumeric(s: string)
    requires forall k :: 0 <= k < |s| ==> IsLower(s[k]) || '0' <= s[k] <= '9'
    requires exists k :: 0 <= k < |s| && IsLower(s[k])
    ensures Determine(s) == Some(LowerCamel)
  {
    var k :| 0 <= k < |s| && IsLower(s[k]);
    assert !IsAsciiWhitespace(s[k]);
    var ts := Tokenize(s);
    TokensOfAlphanumeric(s, LowercaseLetter);
    SpecificMappings(s[k]);
    TokenizeMembership(s, LowercaseLetter);
    LowerCamelMatchesLowerOrNumeric(ts);
  }

  /** A string that no format matches and that holds a character outside
      letters and digits has no format: both fallbacks fail on that
      character. */
  lemma DetermineNoneWithoutFallback(s: string, k: int)
    requires 0 <= k < |s| && !IsUpper(s[k]) && !IsLower(s[k]) && !('0' <= s[k] <= '9')
    requires forall f: KaseFormat :: !f.Matches(TokenizedString(Tokenize(s)))
    ensures Determine(s) == None
  {
    assert !AnyContains(UpperCaseOrNumeric(), s[k]);
    assert !AnyContains(LowerCaseOrNumeric(), s[k]);
    assert !OnlyIn(s, UpperCaseOrNumeric()) && !OnlyIn(s, LowerCaseOrNumeric());
  }

  /** Every format forbids spaces and other special characters. */
  lemma NoFormatAllowsSpecials(ts: seq<CharToken>, t: CharToken)
    requires t in ts && (t == Space || t == OtherSpecials)
    ensures forall f: KaseFormat :: !f.Matches(TokenizedString(ts))
  {
    forall f: KaseFormat ensures !f.Matches(TokenizedString(ts)) {
      assert t in f.AbsentTokens();
    }
  }

  /** Every format forbids one of the two delimiters. */
  lemma NoFormatAllowsBothDelimiters(ts: seq<CharToken>)
    requires Hyphen in ts && Underscore in ts
    ensures forall f: KaseFormat :: !f.Matches(TokenizedString(ts))
  {
    forall f: KaseFormat ensures !f.Matches(TokenizedString(ts)) {
      assert Hyphen in f.AbsentTokens() || Underscore in f.AbsentTokens();
    }
  }

  /** The hyphen and underscore formats allow at most one uppercase letter in
      a row unless they are upper formats, which forbid lowercase letters; the
      camel formats forbid delimiters. */
  lemma NoFormatAllowsMixedCaseRun(ts: seq<CharToken>, delimiter: CharToken)
    requires delimiter in ts && (delimiter == Hyphen || delimiter == Underscore)
    requires LowercaseLetter in ts && LongestRun(ts, UppercaseLetter) >= 2
    ensures forall f: KaseFormat :: !f.Matches(TokenizedString(ts))
  {
    forall f: KaseFormat ensures !f.Matches(TokenizedString(ts)) {
      assert delimiter in f.AbsentTokens() || LowercaseLetter in f.AbsentTokens()
        || !f.MatchMaxSequentialUppercase(LongestRun(ts, UppercaseLetter));
    }
  }

  /** A string containing a space or another special character has no
      format. */
  lemma DetermineRejectsSpecials(s: string, k: int)
    requires 0 <= k < |s|
    requires Matching(s[k]) == Some(Space) || Matching(s[k]) == Some(OtherSpecials)
    ensures Determine(s) == None
  {
    var t := Matching(s[k]).value;
    TokenizeMembership(s, t);
    NoFormatAllowsSpecials(Tokenize(s), t);
    SpecificMappings(s[k]);
    DetermineNoneWithoutFallback(s, k);
  }

  /** A string containing a hyphen and an underscore has no format. */
  lemma DetermineRejectsBothDelimiters(s: string, i: int, j: int)
    requires 0 <= i < |s| && s[i] == '-'
    requires 0 <= j < |s| && s[j] == '_'
    ensures Determine(s) == None
  {
    SpecificMappings(s[i]);
    TokenizeMembership(s, Hyphen);
    TokenizeMembership(s, Underscore);
    NoFormatAllowsBothDelimiters(Tokenize(s));
    DetermineNoneWithoutFallback(s, i);
  }

  /** A string with a delimiter, a lowercase letter and two uppercase letters
      in a row has no format. */
  lemma DetermineRejectsMixedCaseRun(s: string, d: int, l: int, u: int)
    requires 0 <= d < |s| && (s[d] == '-' || s[d] == '_')
    requires 0 <= l < |s| && IsLower(s[l])
    requires 0 <= u && u + 1 < |s| && IsUpper(s[u]) && IsUpper(s[u + 1])
    ensures Determine(s) == None
  {
    SpecificMappings(s[l]);
    SpecificMappings(s[d]);
    var delimiter := Matching(s[d]).value;
    TokenizeMembership(s, delimiter);
    TokenizeMembership(s, LowercaseLetter);
    SpecificMappings(s[u]);
    SpecificMappings(s[u + 1]);
    RunOfPair(s, u, UppercaseLetter);
    NoFormatAllowsMixedCaseRun(Tokenize(s), delimiter);
    DetermineNoneWithoutFallback(s, d);
  }

  /** The tokens of an uppercase letter followed by lowercase letters: an
      uppercase token first and lowercase tokens after it. */
  lemma TokensOfCapitalized(s: string)
    requires |s| >= 2 && IsUpper(s[0]) && forall k :: 1 <= k < |s| ==> IsLower(s[k])
    ensures var ts := Tokenize(s);
      && |ts| == |s| && ts[0] == UppercaseLetter
      && forall j :: 1 <= j < |ts| ==> ts[j] == LowercaseLetter
  {
    SpecificMappings(s[0]);
    var rest := s[1..];
    forall k | 0 <= k < |rest| ensures Matching(rest[k]) == Some(LowercaseLetter) {
      SpecificMappings(rest[k]);
    }
    TokenizeUniform(rest, LowercaseLetter);
    assert Tokenize(s) == [UppercaseLetter] + Tokenize(rest);
  }

  /** At most one uppercase letter in a row: the longest uppercase run of
      tokens that hold one uppercase token, first, is one. */
  lemma LongestRunOfCapitalized(ts: seq<CharToken>)
    requires |ts| >= 1 && ts[0] == UppercaseLetter
    requires forall j :: 1 <= j < |ts| ==> ts[j] == LowercaseLetter
    ensures LongestRun(ts, UppercaseLetter) == 1
  {
    LongestRunZeroIffAbsent(ts, UppercaseLetter);
    LongestRunIsRun(ts, UppercaseLetter);
  }

  /** The tokens of a capitalised word satisfy the four checks of capital
      camel. */
  lemma CapitalCamelMatchesCapitalized(ts: seq<CharToken>)
    requires |ts| >= 2 && ts[0] == UppercaseLetter
    requires forall j :: 1 <= j < |ts| ==> ts[j] == LowercaseLetter
    ensures CapitalCamel.Matches(TokenizedString(ts))
  {
    LongestRunOfCapitalized(ts);
    FirstUnignoredAt(ts, {Numbers}, 0);
    assert ts[1] in ts;
    assert forall t :: t in ts ==> t == UppercaseLetter || t == LowercaseLetter;
  }

  /** A capitalised word (an uppercase letter, then lowercase letters) is
      detected as capital camel. */
  lemma DetermineCapitalizedWord(s: string)
    requires |s| >= 2 && IsUpper(s[0]) && forall k :: 1 <= k < |s| ==> IsLower(s[k])
    ensures Determine(s) == Some(CapitalCamel)
  {
    TokensOfCapitalized(s);
    CapitalCamelMatchesCapitalized(Tokenize(s));
    assert !IsAsciiWhitespace(s[0]);
  }

  /** The token of a hyphen or underscore delimiter. */
  function DelimiterToken(d: char): CharToken
  {
    if d == '-' then Hyphen else Underscore
  }

  /** The token of a letter, a digit or the delimiter `d`. */
  function TokenClass(c: char, d: char): CharToken
  {
    if IsUpper(c) then UppercaseLetter
    else if IsLower(c) then LowercaseLetter
    else if '0' <= c <= '9' then Numbers
    else DelimiterToken(d)
  }

  /** A string of letters, digits and one delimiter character is classified
      position by position. */
  lemma TokensAt(s: string, d: char)
    requires d == '-' || d == '_'
    requires forall k :: 0 <= k < |s| ==> IsUpper(s[k]) || IsLower(s[k]) || '0' <= s[k] <= '9' || s[k] == d
    ensures |Tokenize(s)| == |s|
    ensures forall k :: 0 <= k < |s| ==> Tokenize(s)[k] == TokenClass(s[k], d)
  {
    forall k | 0 <= k < |s| ensures Matching(s[k]) == Some(TokenClass(s[k], d)) {
      SpecificMappings(s[k]);
    }
    TokenizeAllClassified(s);
  }

  /** The tokens of letters, digits and the delimiter `d` are letter,
      digit and delimiter tokens. */
  lemma TokensWithin(s: string, d: char)
    requires d == '-' || d == '_'
    requires forall k :: 0 <= k < |s| ==> IsUpper(s[k]) || IsLower(s[k]) || '0' <= s[k] <= '9' || s[k] == d
    ensures forall t :: t in Tokenize(s) ==> t in {UppercaseLetter, LowercaseLetter, Numbers, DelimiterToken(d)}
  {
    TokensAt(s, d);
    var ts := Tokenize(s);
    forall t | t in ts ensures t in {UppercaseLetter, LowercaseLetter, Numbers, DelimiterToken(d)} {
      var k :| 0 <= k < |ts| && ts[k] == t;
      assert ts[k] == TokenClass(s[k], d);
    }
  }

  /** The tokens of letters and digits are letter and digit tokens. */
  lemma CamelTokensWithin(s: string)
    requires forall k :: 0 <= k < |s| ==> IsUpper(s[k]) || IsLower(s[k]) || '0' <= s[k] <= '9'
    ensures forall t :: t in Tokenize(s) ==> t in {UppercaseLetter, LowercaseLetter, Numbers}
  {
    TokensAt(s, '-');
    var ts := Tokenize(s);
    forall t | t in ts ensures t in {UppercaseLetter, LowercaseLetter, Numbers} {
      var k :| 0 <= k < |ts| && ts[k] == t;
      assert ts[k] == TokenClass(s[k], '-');
    }
  }

  /** The token of every character occurs in the tokens. */
  lemma TokenIn(s: string, d: char, k: int)
    requires d == '-' || d == '_'
    requires forall k :: 0 <= k < |s| ==> IsUpper(s[k]) || IsLower(s[k]) || '0' <= s[k] <= '9' || s[k] == d
    requires 0 <= k < |s|
    ensures TokenClass(s[k], d) in Tokenize(s)
  {
    TokensAt(s, d);
    assert Tokenize(s)[k] == TokenClass(s[k], d);
  }

  /** Tokens classified position by position from characters with no two
      adjacent uppercase letters have no uppercase run longer than one. */
  lemma LongestRunOfClasses(ts: seq<CharToken>, s: string, d: char)
    requires |ts| == |s|
    requires forall k :: 0 <= k < |s| ==> ts[k] == TokenClass(s[k], d)
    requires forall k :: 0 <= k < |s| - 1 ==> !(IsUpper(s[k]) && IsUpper(s[k + 1]))
    ensures LongestRun(ts, UppercaseLetter) <= 1
  {
    forall k | 0 <= k < |ts| - 1 ensures !(ts[k] == UppercaseLetter && ts[k + 1] == UppercaseLetter) {
      assert ts[k] == TokenClass(s[k], d) && ts[k + 1] == TokenClass(s[k + 1], d);
    }
    LongestRunAtMostOne(ts, UppercaseLetter);
  }

  /** The tokens of letters, digits and the delimiter with no two adjacent
      uppercase letters have no uppercase run longer than one. */
  lemma NoAdjacentUppercase(s: string, d: char)
    requires d == '-' || d == '_'
    requires forall k :: 0 <= k < |s| ==> IsUpper(s[k]) || IsLower(s[k]) || '0' <= s[k] <= '9' || s[k] == d
    requires forall k :: 0 <= k < |s| - 1 ==> !(IsUpper(s[k]) && IsUpper(s[k + 1]))
    ensures LongestRun(Tokenize(s), UppercaseLetter) <= 1
  {
    TokensAt(s, d);
    LongestRunOfClasses(Tokenize(s), s, d);
  }

  /** Tokens classified position by position from characters that are
      digits up to the letter at `u`: the first token that is not a digit's
      is that letter's. */
  lemma FirstOfClassesAfterDigits(ts: seq<CharToken>, s: string, d: char, u: int)
    requires |ts| == |s|
    requires forall k :: 0 <= k < |s| ==> ts[k] == TokenClass(s[k], d)
    requires 0 <= u < |s| && (IsUpper(s[u]) || IsLower(s[u]))
    requires forall k :: 0 <= k < u ==> '0' <= s[k] <= '9'
    ensures FirstUnignored(ts, {Numbers}) == Some(TokenClass(s[u], d))
  {
    forall k | 0 <= k < u ensures ts[k] in {Numbers} {
      assert ts[k] == TokenClass(s[k], d);
    }
    FirstUnignoredAt(ts, {Numbers}, u);
  }

  /** When the characters up to the letter at `u` are digits, the first
      token that is not a digit's is that letter's. */
  lemma FirstAfterDigits(s: string, d: char, u: int)
    requires d == '-' || d == '_'
    requires forall k :: 0 <= k < |s| ==> IsUpper(s[k]) || IsLower(s[k]) || '0' <= s[k] <= '9' || s[k] == d
    requires 0 <= u < |s| && (IsUpper(s[u]) || IsLower(s[u]))
    requires forall k :: 0 <= k < u ==> '0' <= s[k] <= '9'
    ensures FirstUnignored(Tokenize(s), {Numbers}) == Some(TokenClass(s[u], d))
  {
    TokensAt(s, d);
    FirstOfClassesAfterDigits(Tokenize(s), s, d, u);
  }

  /** Tokens classified position by position from characters that are
      digits or the delimiter up to the letter at `u`: the first token that
      is neither a digit's nor the delimiter's is that letter's. */
  lemma FirstOfClassesAfterDelimiters(ts: seq<CharToken>, s: string, d: char, u: int)
    requires d == '-' || d == '_'
    requires |ts| == |s|
    requires forall k :: 0 <= k < |s| ==> ts[k] == TokenClass(s[k], d)
    requires 0 <= u < |s| && (IsUpper(s[u]) || IsLower(s[u]))
    requires forall k :: 0 <= k < u ==> '0' <= s[k] <= '9' || s[k] == d
    ensures FirstUnignored(ts, {Numbers, DelimiterToken(d)}) == Some(TokenClass(s[u], d))
  {
    forall k | 0 <= k < u ensures ts[k] in {Numbers, DelimiterToken(d)} {
      assert ts[k] == TokenClass(s[k], d);
    }
    FirstUnignoredAt(ts, {Numbers, DelimiterToken(d)}, u);
  }

  /** When the characters up to the letter at `u` are digits or the
      delimiter, the first token that is neither a digit's nor the
      delimiter's is that letter's. */
  lemma FirstAfterDigitsOrDelimiters(s: string, d: char, u: int)
    requires d == '-' || d == '_'
    requires forall k :: 0 <= k < |s| ==> IsUpper(s[k]) || IsLower(s[k]) || '0' <= s[k] <= '9' || s[k] == d
    requires 0 <= u < |s| && (IsUpper(s[u]) || IsLower(s[u]))
    requires forall k :: 0 <= k < u ==> '0' <= s[k] <= '9' || s[k] == d
    ensures FirstUnignored(Tokenize(s), {Numbers, DelimiterToken(d)}) == Some(TokenClass(s[u], d))
  {
    TokensAt(s, d);
    FirstOfClassesAfterDelimiters(Tokenize(s), s, d, u);
  }

  /** Lowercase letter and digit tokens with a lowercase letter and the
      delimiter token of a lower hyphen or lower underscore format satisfy
      its four checks. */
  lemma LowerDelimitedMatches(ts: seq<CharToken>, f: KaseFormat, d: CharToken)
    requires (f == LowerHyphen && d == Hyphen) || (f == LowerUnderscore && d == Underscore)
    requires forall t :: t in ts ==> t in {LowercaseLetter, Numbers, d}
    requires d in ts && LowercaseLetter in ts
    ensures f.Matches(TokenizedString(ts))
  {
    LongestRunZeroIffAbsent(ts, UppercaseLetter);
    var j :| 0 <= j < |ts| && ts[j] == LowercaseLetter;
    var first := FirstUnignored(ts, f.ShouldStartWithIgnore());
    assert first.Some? by {
      assert ts[j] !in f.ShouldStartWithIgnore();
    }
    assert first == Some(LowercaseLetter) by {
      var k :| 0 <= k < |ts| && ts[k] == first.value;
      assert ts[k] in ts;
    }
  }

  /** A string whose tokens are as in `LowerDelimitedMatches` is detected as
      that format. */
  lemma DetermineLowerDelimitedTokens(s: string, f: KaseFormat, d: CharToken, l: int)
    requires (f == LowerHyphen && d == Hyphen) || (f == LowerUnderscore && d == Underscore)
    requires forall t :: t in Tokenize(s) ==> t in {LowercaseLetter, Numbers, d}
    requires d in Tokenize(s) && LowercaseLetter in Tokenize(s)
    requires 0 <= l < |s| && !IsAsciiWhitespace(s[l])
    ensures Determine(s) == Some(f)
  {
    LowerDelimitedMatches(Tokenize(s), f, d);
    assert !IsBlank(s);
  }

  /** Lowercase words with digits, joined by the delimiter of a lower hyphen
      or lower underscore format, are detected as that format
      (INPUTS_LOWER_HYPHEN, INPUTS_LOWER_UNDERSCORE). */
  lemma DetermineLowerDelimited(s: string, f: KaseFormat, d: char, i: int, l: int)
    requires (f == LowerHyphen && d == '-') || (f == LowerUnderscore && d == '_')
    requires forall k :: 0 <= k < |s| ==> IsLower(s[k]) || '0' <= s[k] <= '9' || s[k] == d
    requires 0 <= i < |s| && s[i] == d
    requires 0 <= l < |s| && IsLower(s[l])
    ensures Determine(s) == Some(f)
  {
    TokensAt(s, d);
    var ts := Tokenize(s);
    forall t | t in ts ensures t in {LowercaseLetter, Numbers, DelimiterToken(d)} {
      var k :| 0 <= k < |ts| && ts[k] == t;
      assert ts[k] == TokenClass(s[k], d);
    }
    assert ts[i] == TokenClass(s[i], d) && ts[l] == TokenClass(s[l], d);
    assert ts[i] in ts && ts[l] in ts;
    DetermineLowerDelimitedTokens(s, f, DelimiterToken(d), l);
  }

  /** Uppercase letter and digit tokens with an uppercase letter and the
      delimiter token of an upper hyphen or upper underscore format satisfy
      its four checks. */
  lemma UpperDelimitedMatches(ts: seq<CharToken>, f: KaseFormat, d: CharToken)
    requires (f == UpperHyphen && d == Hyphen) || (f == UpperUnderscore && d == Underscore)
    requires forall t :: t in ts ==> t in {UppercaseLetter, Numbers, d}
    requires d in ts && UppercaseLetter in ts
    ensures f.Matches(TokenizedString(ts))
  {
    LongestRunZeroIffAbsent(ts, UppercaseLetter);
    var j :| 0 <= j < |ts| && ts[j] == UppercaseLetter;
    var first := FirstUnignored(ts, f.ShouldStartWithIgnore());
    assert first.Some? by {
      assert ts[j] !in f.ShouldStartWithIgnore();
    }
    assert first == Some(UppercaseLetter) by {
      var k :| 0 <= k < |ts| && ts[k] == first.value;
      assert ts[k] in ts;
    }
  }

  /** A string whose tokens are as in `UpperDelimitedMatches` is detected as
      that format. */
  lemma DetermineUpperDelimitedTokens(s: string, f: KaseFormat, d: CharToken, u: int)
    requires (f == UpperHyphen && d == Hyphen) || (f == UpperUnderscore && d == Underscore)
    requires forall t :: t in Tokenize(s) ==> t in {UppercaseLetter, Numbers, d}
    requires d in Tokenize(s) && UppercaseLetter in Tokenize(s)
    requires 0 <= u < |s| && !IsAsciiWhitespace(s[u])
    ensures Determine(s) == Some(f)
  {
    UpperDelimitedMatches(Tokenize(s), f, d);
    assert !IsBlank(s);
  }

  /** Uppercase words with digits, joined by the delimiter of an upper
      hyphen or upper underscore format, are detected as that format by the
      catalogue (INPUTS_UPPER_HYPHEN, INPUTS_UPPER_UNDERSCORE). */
  lemma DetermineUpperDelimited(s: string, f: KaseFormat, d: char, i: int, u: int)
    requires (f == UpperHyphen && d == '-') || (f == UpperUnderscore && d == '_')
    requires forall k :: 0 <= k < |s| ==> IsUpper(s[k]) || '0' <= s[k] <= '9' || s[k] == d
    requires 0 <= i < |s| && s[i] == d
    requires 0 <= u < |s| && IsUpper(s[u])
    ensures Determine(s) == Some(f)
  {
    TokensAt(s, d);
    var ts := Tokenize(s);
    forall t | t in ts ensures t in {UppercaseLetter, Numbers, DelimiterToken(d)} {
      var k :| 0 <= k < |ts| && ts[k] == t;
      assert ts[k] == TokenClass(s[k], d);
    }
    assert ts[i] == TokenClass(s[i], d) && ts[u] == TokenClass(s[u], d);
    assert ts[i] in ts && ts[u] in ts;
    DetermineUpperDelimitedTokens(s, f, DelimiterToken(d), u);
  }

  /** Letter and digit tokens with a lowercase letter and the delimiter
      token of a capital hyphen or capital underscore format, no two
      uppercase letters in a row and an uppercase letter first after digits
      and delimiters, satisfy its four checks. */
  lemma CapitalDelimitedMatches(ts: seq<CharToken>, f: KaseFormat, d: CharToken)
    requires (f == CapitalHyphen && d == Hyphen) || (f == CapitalUnderscore && d == Underscore)
    requires forall t :: t in ts ==> t in {UppercaseLetter, LowercaseLetter, Numbers, d}
    requires d in ts && LowercaseLetter in ts
    requires LongestRun(ts, UppercaseLetter) <= 1
    requires FirstUnignored(ts, {Numbers, d}) == Some(UppercaseLetter)
    ensures f.Matches(TokenizedString(ts))
  {
    var k :| 0 <= k < |ts| && ts[k] == UppercaseLetter;
    LongestRunZeroIffAbsent(ts, UppercaseLetter);
  }

  /** A string whose tokens are as in `CapitalDelimitedMatches` is detected
      as that format. */
  lemma DetermineCapitalDelimitedTokens(s: string, f: KaseFormat, d: CharToken, u: int)
    requires (f == CapitalHyphen && d == Hyphen) || (f == CapitalUnderscore && d == Underscore)
    requires forall t :: t in Tokenize(s) ==> t in {UppercaseLetter, LowercaseLetter, Numbers, d}
    requires d in Tokenize(s) && LowercaseLetter in Tokenize(s)
    requires LongestRun(Tokenize(s), UppercaseLetter) <= 1
    requires FirstUnignored(Tokenize(s), {Numbers, d}) == Some(UppercaseLetter)
    requires 0 <= u < |s| && !IsAsciiWhitespace(s[u])
    ensures Determine(s) == Some(f)
  {
    CapitalDelimitedMatches(Tokenize(s), f, d);
    assert !IsBlank(s);
  }

  /** The tokens of capitalised words joined by a delimiter: letters,
      digits and the delimiter's token, with the delimiter and a lowercase
      letter among them, no uppercase run longer than one, and an uppercase
      letter first after digits and delimiters. */
  lemma CapitalDelimitedTokens(s: string, d: char, i: int, u: int, l: int)
    requires d == '-' || d == '_'
    requires forall k :: 0 <= k < |s| ==> IsUpper(s[k]) || IsLower(s[k]) || '0' <= s[k] <= '9' || s[k] == d
    requires forall k :: 0 <= k < |s| - 1 ==> !(IsUpper(s[k]) && IsUpper(s[k + 1]))
    requires 0 <= i < |s| && s[i] == d
    requires 0 <= u < |s| && IsUpper(s[u]) && forall k :: 0 <= k < u ==> '0' <= s[k] <= '9' || s[k] == d
    requires 0 <= l < |s| && IsLower(s[l])
    ensures forall t :: t in Tokenize(s) ==> t in {UppercaseLetter, LowercaseLetter, Numbers, DelimiterToken(d)}
    ensures DelimiterToken(d) in Tokenize(s) && LowercaseLetter in Tokenize(s)
    ensures LongestRun(Tokenize(s), UppercaseLetter) <= 1
    ensures FirstUnignored(Tokenize(s), {Numbers, DelimiterToken(d)}) == Some(UppercaseLetter)
  {
    TokensWithin(s, d);
    TokenIn(s, d, i);
    TokenIn(s, d, l);
    NoAdjacentUppercase(s, d);
    FirstAfterDigitsOrDelimiters(s, d, u);
  }

  /** Capitalised words with digits, joined by the delimiter of a capital
      hyphen or capital underscore format, are detected as that format: the
      first letter is uppercase, a lowercase letter occurs, and no two
      uppercase letters are adjacent (INPUTS_CAPITAL_HYPHEN,
      INPUTS_CAPITAL_UNDERSCORE). */
  lemma DetermineCapitalDelimited(s: string, f: KaseFormat, d: char, i: int, u: int, l: int)
    requires (f == CapitalHyphen && d == '-') || (f == CapitalUnderscore && d == '_')
    requires forall k :: 0 <= k < |s| ==> IsUpper(s[k]) || IsLower(s[k]) || '0' <= s[k] <= '9' || s[k] == d
    requires forall k :: 0 <= k < |s| - 1 ==> !(IsUpper(s[k]) && IsUpper(s[k + 1]))
    requires 0 <= i < |s| && s[i] == d
    requires 0 <= u < |s| && IsUpper(s[u]) && forall k :: 0 <= k < u ==> '0' <= s[k] <= '9' || s[k] == d
    requires 0 <= l < |s| && IsLower(s[l])
    ensures Determine(s) == Some(f)
  {
    CapitalDelimitedTokens(s, d, i, u, l);
    DetermineCapitalDelimitedTokens(s, f, DelimiterToken(d), u);
  }

  /** Letter and digit tokens with no two uppercase letters in a row and a
      lowercase letter first after digits satisfy the four checks of lower
      camel. */
  lemma LowerCamelMatches(ts: seq<CharToken>)
    requires forall t :: t in ts ==> t in {UppercaseLetter, LowercaseLetter, Numbers}
    requires LongestRun(ts, UppercaseLetter) <= 1
    requires FirstUnignored(ts, {Numbers}) == Some(LowercaseLetter)
    ensures LowerCamel.Matches(TokenizedString(ts))
  {
    var first := FirstUnignored(ts, {Numbers});
    var k :| 0 <= k < |ts| && ts[k] == first.value;
    assert ts[k] in ts;
    assert Hyphen !in ts && Underscore !in ts && Space !in ts && OtherSpecials !in ts;
  }

  /** A string whose tokens are as in `LowerCamelMatches` is detected as
      lower camel. */
  lemma DetermineLowerCamelTokens(s: string, l: int)
    requires forall t :: t in Tokenize(s) ==> t in {UppercaseLetter, LowercaseLetter, Numbers}
    requires LongestRun(Tokenize(s), UppercaseLetter) <= 1
    requires FirstUnignored(Tokenize(s), {Numbers}) == Some(LowercaseLetter)
    requires 0 <= l < |s| && !IsAsciiWhitespace(s[l])
    ensures Determine(s) == Some(LowerCamel)
  {
    LowerCamelMatches(Tokenize(s));
    assert !IsBlank(s);
  }

  /** The tokens of camel words with a lowercase first letter: letters and
      digits, no uppercase run longer than one, and a lowercase letter first
      after digits. */
  lemma LowerCamelTokens(s: string, l: int)
    requires forall k :: 0 <= k < |s| ==> IsUpper(s[k]) || IsLower(s[k]) || '0' <= s[k] <= '9'
    requires forall k :: 0 <= k < |s| - 1 ==> !(IsUpper(s[k]) && IsUpper(s[k + 1]))
    requires 0 <= l < |s| && IsLower(s[l]) && forall k :: 0 <= k < l ==> '0' <= s[k] <= '9'
    ensures forall t :: t in Tokenize(s) ==> t in {UppercaseLetter, LowercaseLetter, Numbers}
    ensures LongestRun(Tokenize(s), UppercaseLetter) <= 1
    ensures FirstUnignored(Tokenize(s), {Numbers}) == Some(LowercaseLetter)
  {
    CamelTokensWithin(s);
    NoAdjacentUppercase(s, '-');
    FirstAfterDigits(s, '-', l);
  }

  /** Words of letters and digits with no two uppercase letters adjacent and
      a lowercase first letter are detected as lower camel
      (INPUTS_LOWER_CAMEL). */
  lemma DetermineLowerCamel(s: string, l: int)
    requires forall k :: 0 <= k < |s| ==> IsUpper(s[k]) || IsLower(s[k]) || '0' <= s[k] <= '9'
    requires forall k :: 0 <= k < |s| - 1 ==> !(IsUpper(s[k]) && IsUpper(s[k + 1]))
    requires 0 <= l < |s| && IsLower(s[l]) && forall k :: 0 <= k < l ==> '0' <= s[k] <= '9'
    ensures Determine(s) == Some(LowerCamel)
  {
    LowerCamelTokens(s, l);
    DetermineLowerCamelTokens(s, l);
  }

  /** Letter and digit tokens with a lowercase letter and an uppercase
      letter first after digits satisfy the four checks of capital camel. */
  lemma CapitalCamelMatches(ts: seq<CharToken>)
    requires forall t :: t in ts ==> t in {UppercaseLetter, LowercaseLetter, Numbers}
    requires LowercaseLetter in ts
    requires FirstUnignored(ts, {Numbers}) == Some(UppercaseLetter)
    ensures CapitalCamel.Matches(TokenizedString(ts))
  {
    var k :| 0 <= k < |ts| && ts[k] == UppercaseLetter;
    LongestRunZeroIffAbsent(ts, UppercaseLetter);
  }

  /** A string whose tokens are as in `CapitalCamelMatches` is detected as
      capital camel. */
  lemma DetermineCapitalCamelTokens(s: string, u: int)
    requires forall t :: t in Tokenize(s) ==> t in {UppercaseLetter, LowercaseLetter, Numbers}
    requires LowercaseLetter in Tokenize(s)
    requires FirstUnignored(Tokenize(s), {Numbers}) == Some(UppercaseLetter)
    requires 0 <= u < |s| && !IsAsciiWhitespace(s[u])
    ensures Determine(s) == Some(CapitalCamel)
  {
    CapitalCamelMatches(Tokenize(s));
    assert !IsBlank(s);
  }

  /** The tokens of camel words with an uppercase first letter: letters and
      digits, a lowercase letter among them, and an uppercase letter first
      after digits. */
  lemma CapitalCamelTokens(s: string, u: int, l: int)
    requires forall k :: 0 <= k < |s| ==> IsUpper(s[k]) || IsLower(s[k]) || '0' <= s[k] <= '9'
    requires 0 <= u < |s| && IsUpper(s[u]) && forall k :: 0 <= k < u ==> '0' <= s[k] <= '9'
    requires 0 <= l < |s| && IsLower(s[l])
    ensures forall t :: t in Tokenize(s) ==> t in {UppercaseLetter, LowercaseLetter, Numbers}
    ensures LowercaseLetter in Tokenize(s)
    ensures FirstUnignored(Tokenize(s), {Numbers}) == Some(UppercaseLetter)
  {
    CamelTokensWithin(s);
    TokenIn(s, '-', l);
    FirstAfterDigits(s, '-', u);
  }

  /** Words of letters and digits with an uppercase first letter and a
      lowercase letter somewhere are detected as capital camel; runs of
      uppercase letters (acronyms) are allowed (INPUTS_CAPITAL_CAMEL). */
  lemma DetermineCapitalCamel(s: string, u: int, l: int)
    requires forall k :: 0 <= k < |s| ==> IsUpper(s[k]) || IsLower(s[k]) || '0' <= s[k] <= '9'
    requires 0 <= u < |s| && IsUpper(s[u]) && forall k :: 0 <= k < u ==> '0' <= s[k] <= '9'
    requires 0 <= l < |s| && IsLower(s[l])
    ensures Determine(s) == Some(CapitalCamel)
  {
    CapitalCamelTokens(s, u, l);
    DetermineCapitalCamelTokens(s, u);
  }
}
