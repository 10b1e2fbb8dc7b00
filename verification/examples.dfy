/** Inputs and outputs of the repository's test suite
    (`KaseFormatTests.kt`), derived from the model. */
module Examples {
  import opened Wrappers
  import opened AsciiCase
  import opened CharTokens
  import opened Tokens
  import opened KaseFormats
  import opened Conversion
  import opened KaseConverters

  // determine: the inputs of INPUTS_UNKNOWN

  lemma UnknownBlank()
    ensures Determine("") == None && Determine(" ") == None
  {
    assert IsBlank(" ");
  }

  lemma UnknownBothDelimiters()
    ensures Determine("abc-abc_abc") == None && Determine("-_") == None
  {
    DetermineRejectsBothDelimiters("abc-abc_abc", 3, 7);
    DetermineRejectsBothDelimiters("-_", 0, 1);
  }

  lemma UnknownBang()
    ensures Determine("!") == None
  {
    OtherSpecialsAreTheRest('!');
    DetermineRejectsSpecials("!", 0);
  }

  lemma UnknownBrackets()
    ensures Determine("[]") == None
  {
    OtherSpecialsAreTheRest('[');
    DetermineRejectsSpecials("[]", 0);
  }

  lemma UnknownSpaced()
    ensures Determine("A B C") == None && Determine(" Nope") == None
  {
    SpecificMappings(' ');
    DetermineRejectsSpecials("A B C", 1);
    DetermineRejectsSpecials(" Nope", 0);
  }

  lemma UnknownQuestion()
    ensures Determine("MaybeThough?") == None
  {
    OtherSpecialsAreTheRest('?');
    DetermineRejectsSpecials("MaybeThough?", 11);
  }

  lemma UnknownAmpersand()
    ensures Determine("-not&this-either") == None
  {
    var s := "-not&this-either";
    assert s[4] == '&';
    OtherSpecialsAreTheRest('&');
    DetermineRejectsSpecials(s, 4);
  }

  lemma UnknownMixedCase()
    ensures Determine("ABC_abc") == None && Determine("ABC-abc") == None
  {
    DetermineRejectsMixedCaseRun("ABC_abc", 3, 4, 0);
    DetermineRejectsMixedCaseRun("ABC-abc", 3, 4, 0);
  }

  // determine: the fallbacks

  lemma UpperUnderscoreByFallback()
    ensures Determine("ABC") == Some(UpperUnderscore)
  {
    DetermineUpperCaseOrNumeric("ABC");
  }

  lemma UpperUnderscoreWithDigitsByFallback()
    ensures Determine("123ABC") == Some(UpperUnderscore)
  {
    var s := "123ABC";
    assert forall k :: 0 <= k < |s| ==> IsUpper(s[k]) || '0' <= s[k] <= '9';
    DetermineUpperCaseOrNumeric(s);
  }

  lemma LowerCamelOfOneWord()
    ensures Determine("what") == Some(LowerCamel)
  {
    var s := "what";
    assert IsLower(s[0]);
    DetermineLowerCaseOrNumeric(s);
  }

  // determine: one input of each format's test list

  lemma LowerHyphenInput(s: string)
    requires s == "a-b"
    ensures Determine(s) == Some(LowerHyphen)
  {
    DetermineLowerDelimited(s, LowerHyphen, '-', 1, 0);
  }

  lemma LowerUnderscoreInput(s: string)
    requires s == "a_b"
    ensures Determine(s) == Some(LowerUnderscore)
  {
    DetermineLowerDelimited(s, LowerUnderscore, '_', 1, 0);
  }

  lemma LowerHyphenWithDigits(s: string)
    requires s == "123-abc-rew-34-whatever"
    ensures Determine(s) == Some(LowerHyphen)
  {
    assert forall k :: 0 <= k < |s| ==> IsLower(s[k]) || '0' <= s[k] <= '9' || s[k] == '-';
    DetermineLowerDelimited(s, LowerHyphen, '-', 3, 4);
  }

  lemma UpperHyphenInput(s: string)
    requires s == "A-B"
    ensures Determine(s) == Some(UpperHyphen)
  {
    DetermineUpperDelimited(s, UpperHyphen, '-', 1, 0);
  }

  lemma UpperUnderscoreInput(s: string)
    requires s == "ABC_DEF"
    ensures Determine(s) == Some(UpperUnderscore)
  {
    assert forall k :: 0 <= k < |s| ==> IsUpper(s[k]) || '0' <= s[k] <= '9' || s[k] == '_';
    DetermineUpperDelimited(s, UpperUnderscore, '_', 3, 0);
  }

  lemma UpperUnderscoreWithDigits(s: string)
    requires s == "123_ABC_WITH_THINGS"
    ensures Determine(s) == Some(UpperUnderscore)
  {
    assert forall k :: 0 <= k < |s| ==> IsUpper(s[k]) || '0' <= s[k] <= '9' || s[k] == '_';
    DetermineUpperDelimited(s, UpperUnderscore, '_', 3, 4);
  }

  lemma CapitalHyphenInput(s: string)
    requires s == "Ab-Ab"
    ensures Determine(s) == Some(CapitalHyphen)
  {
    assert forall k :: 0 <= k < |s| ==> IsUpper(s[k]) || IsLower(s[k]) || '0' <= s[k] <= '9' || s[k] == '-';
    assert forall k :: 0 <= k < |s| - 1 ==> !(IsUpper(s[k]) && IsUpper(s[k + 1]));
    DetermineCapitalDelimited(s, CapitalHyphen, '-', 2, 0, 1);
  }

  lemma CapitalUnderscoreInput(s: string)
    requires s == "Ab_Ab"
    ensures Determine(s) == Some(CapitalUnderscore)
  {
    assert forall k :: 0 <= k < |s| ==> IsUpper(s[k]) || IsLower(s[k]) || '0' <= s[k] <= '9' || s[k] == '_';
    assert forall k :: 0 <= k < |s| - 1 ==> !(IsUpper(s[k]) && IsUpper(s[k + 1]));
    DetermineCapitalDelimited(s, CapitalUnderscore, '_', 2, 0, 1);
  }

  lemma CapitalUnderscoreLeadingDelimiter(s: string)
    requires s == "_Ab"
    ensures Determine(s) == Some(CapitalUnderscore)
  {
    DetermineCapitalDelimited(s, CapitalUnderscore, '_', 0, 1, 2);
  }

  lemma LowerCamelInput(s: string)
    requires s == "with123Numbers"
    ensures Determine(s) == Some(LowerCamel)
  {
    assert forall k :: 0 <= k < |s| ==> IsUpper(s[k]) || IsLower(s[k]) || '0' <= s[k] <= '9';
    assert forall k :: 0 <= k < |s| - 1 ==> !(IsUpper(s[k]) && IsUpper(s[k + 1]));
    DetermineLowerCamel(s, 0);
  }

  lemma LowerCamelLeadingDigits(s: string)
    requires s == "123somethingElse"
    ensures Determine(s) == Some(LowerCamel)
  {
    assert forall k :: 0 <= k < |s| ==> IsUpper(s[k]) || IsLower(s[k]) || '0' <= s[k] <= '9';
    assert forall k :: 0 <= k < |s| - 1 ==> !(IsUpper(s[k]) && IsUpper(s[k + 1]));
    DetermineLowerCamel(s, 3);
  }

  lemma CapitalCamelInput(s: string)
    requires s == "ItWorks"
    ensures Determine(s) == Some(CapitalCamel)
  {
    assert forall k :: 0 <= k < |s| ==> IsUpper(s[k]) || IsLower(s[k]) || '0' <= s[k] <= '9';
    DetermineCapitalCamel(s, 0, 1);
  }

  lemma CapitalCamelWithAcronym(s: string)
    requires s == "SomeJSONAcronym"
    ensures Determine(s) == Some(CapitalCamel)
  {
    assert forall k :: 0 <= k < |s| ==> IsUpper(s[k]) || IsLower(s[k]) || '0' <= s[k] <= '9';
    DetermineCapitalCamel(s, 0, 1);
  }

  lemma CapitalCamelLeadingDigits(s: string)
    requires s == "123SomethingElse"
    ensures Determine(s) == Some(CapitalCamel)
  {
    assert forall k :: 0 <= k < |s| ==> IsUpper(s[k]) || IsLower(s[k]) || '0' <= s[k] <= '9';
    DetermineCapitalCamel(s, 3, 4);
  }

  // splitWords: acronyms are gathered into one word

  /** One cut of the lookahead split. */
  lemma CutBefore(c: char, rest: string, head: string, tail: seq<string>)
    requires IsUpper(c) && LookaheadSplit(rest) == [head] + tail
    ensures LookaheadSplit([c] + rest) == [[], [c] + head] + tail
  {
    assert ([c] + rest)[1..] == rest;
    assert ([head] + tail)[1..] == tail;
  }

  lemma PiecesOfXmlThing(s: string)
    requires s == "XMLThing"
    ensures s[3..] == "Thing" && IsUpper(s[3..][0]) && NoUpper(s[3..][1..])
    ensures s == ['X'] + (['M'] + (['L'] + s[3..]))
    ensures ['X'] + ['M'] + ['L'] == "XML"
  {
  }

  /** A single capital before a string whose split starts with an empty
      fragment is a fragment of its own. */
  lemma CutSingle(c: char, rest: string, tail: seq<string>)
    requires IsUpper(c) && LookaheadSplit(rest) == [[]] + tail
    ensures LookaheadSplit([c] + rest) == [[]] + ([[c]] + tail)
  {
    CutBefore(c, rest, [], tail);
    assert [c] + [] == [c];
  }

  /** Three single capitals before a capitalised word are cut apart. */
  lemma FragmentsOfCapitalsBefore(th: string)
    requires LookaheadSplit(th) == [[], th]
    ensures LookaheadSplit(['X'] + (['M'] + (['L'] + th)))
      == [[]] + ([['X']] + ([['M']] + ([['L']] + [th])))
  {
    assert [[], th] == [[]] + [th];
    CutSingle('L', th, [th]);
    CutSingle('M', ['L'] + th, [['L']] + [th]);
    CutSingle('X', ['M'] + (['L'] + th), [['M']] + ([['L']] + [th]));
  }

  lemma FragmentsOfXmlThing(s: string)
    requires s == "XMLThing"
    ensures LookaheadSplit(s) == [[], ['X'], ['M'], ['L'], s[3..]]
  {
    PiecesOfXmlThing(s);
    LookaheadSplitOfCapitalized(s[3..]);
    FragmentsOfCapitalsBefore(s[3..]);
    assert [[]] + ([['X']] + ([['M']] + ([['L']] + [s[3..]]))) == [[], ['X'], ['M'], ['L'], s[3..]];
  }

  /** "XMLThing" is the acronym "XML" and the word "Thing". */
  lemma WordsOfXmlThing(s: string)
    requires s == "XMLThing"
    ensures CamelWords(s) == ["XML", "Thing"]
  {
    FragmentsOfXmlThing(s);
    PiecesOfXmlThing(s);
    var th := s[3..];
    var frags := [[], ['X'], ['M'], ['L'], th];
    assert [] + th == th;
    assert Rejoin(frags, 4, []) == [th];
    assert !IsSingleUpper(th);
    assert Rejoin(frags, 3, ['X'] + ['M']) == [['X'] + ['M'] + ['L'], th];
    assert [] + ['X'] == ['X'];
    assert Rejoin(frags, 2, ['X']) == Rejoin(frags, 3, ['X'] + ['M']);
    assert Rejoin(frags, 1, []) == Rejoin(frags, 2, ['X']);
    assert Rejoin(frags, 0, []) == Rejoin(frags, 1, []);
  }

  lemma PiecesOfSomeJsonAcronym(s: string)
    requires s == "SomeJSONAcronym"
    ensures NoUpper(s[1..4]) && |s[1..4]| == 3
    ensures |s[8..]| == 7 && IsUpper(s[8..][0]) && NoUpper(s[8..][1..])
    ensures s == ['S'] + (s[1..4] + (['J'] + (['S'] + (['O'] + (['N'] + s[8..])))))
    ensures ['S'] + s[1..4] == "Some" && s[8..] == "Acronym"
  {
  }

  /** Four single capitals before a capitalised word are cut apart. */
  lemma FragmentsOfJsonBefore(w: string)
    requires LookaheadSplit(w) == [[], w]
    ensures LookaheadSplit(['J'] + (['S'] + (['O'] + (['N'] + w))))
      == [[]] + ([['J']] + ([['S']] + ([['O']] + ([['N']] + [w]))))
  {
    assert [[], w] == [[]] + [w];
    CutSingle('N', w, [w]);
    CutSingle('O', ['N'] + w, [['N']] + [w]);
    CutSingle('S', ['O'] + (['N'] + w), [['O']] + ([['N']] + [w]));
    CutSingle('J', ['S'] + (['O'] + (['N'] + w)), [['S']] + ([['O']] + ([['N']] + [w])));
  }

  /** A capitalised word before a string whose split starts with an empty
      fragment is a fragment of its own. */
  lemma CutWord(c: char, a: string, rest: string, tail: seq<string>)
    requires IsUpper(c) && NoUpper(a) && LookaheadSplit(rest) == [[]] + tail
    ensures LookaheadSplit([c] + (a + rest)) == [[], [c] + a] + tail
  {
    LookaheadSplitPrefix(a, rest);
    assert a + [] == a && ([[]] + tail)[1..] == tail;
    CutBefore(c, a + rest, a, tail);
  }

  lemma FragmentsOfSomeJsonAcronym(s: string)
    requires s == "SomeJSONAcronym"
    ensures LookaheadSplit(s) == [[], ['S'] + s[1..4], ['J'], ['S'], ['O'], ['N'], s[8..]]
  {
    PiecesOfSomeJsonAcronym(s);
    var a, w := s[1..4], s[8..];
    LookaheadSplitOfCapitalized(w);
    FragmentsOfJsonBefore(w);
    var tail := [['J']] + ([['S']] + ([['O']] + ([['N']] + [w])));
    CutWord('S', a, ['J'] + (['S'] + (['O'] + (['N'] + w))), tail);
    assert [[], ['S'] + a] + tail == [[], ['S'] + a, ['J'], ['S'], ['O'], ['N'], w];
  }

  /** A word, four single capitals and a word: the capitals are gathered. */
  lemma RejoinJson(v: string, w: string)
    requires |v| >= 2 && |w| >= 2
    ensures Rejoin([[], v, ['J'], ['S'], ['O'], ['N'], w], 0, []) == [v, "JSON", w]
  {
    var frags: seq<string> := [[], v, ['J'], ['S'], ['O'], ['N'], w];
    assert forall k :: 2 <= k <= 5 ==> IsSingleUpper(frags[k]);
    RejoinAcronym(frags, 2, 5, []);
    assert frags[2..6] == ["J", "S", "O", "N"];
    assert Flatten(["J", "S", "O", "N"]) == "JSON";
    assert [] + w == w && [] + v == v;
    assert Rejoin(frags, 6, []) == [w];
    assert Rejoin(frags, 2, []) == [[] + Flatten(frags[2..6])] + Rejoin(frags, 6, []);
    assert [] + Flatten(frags[2..6]) == "JSON";
    assert Rejoin(frags, 2, []) == ["JSON", w];
    assert !IsSingleUpper(v) && IsSingleUpper(frags[2]);
    assert Rejoin(frags, 1, []) == [v] + Rejoin(frags, 2, []);
    assert Rejoin(frags, 0, []) == Rejoin(frags, 1, []);
  }

  /** "SomeJSONAcronym" is the word "Some", the acronym "JSON" and the word
      "Acronym": the four single capitals are gathered into one word. */
  lemma WordsOfSomeJsonAcronym(s: string)
    requires s == "SomeJSONAcronym"
    ensures CamelWords(s) == ["Some", "JSON", "Acronym"]
  {
    FragmentsOfSomeJsonAcronym(s);
    PiecesOfSomeJsonAcronym(s);
    RejoinJson(['S'] + s[1..4], s[8..]);
  }

  lemma NormalizedSomeJsonAcronym()
    ensures LowerCamel.NormalizeWord("Some", 0) == "some"
    ensures LowerCamel.NormalizeWord("JSON", 1) == "Json"
    ensures LowerCamel.NormalizeWord("Acronym", 2) == "Acronym"
  {
    assert LowerString("Some") == "some";
    assert LowerString("SON") == "son";
    assert ['J'] + "son" == "Json";
    assert LowerString("cronym") == "cronym";
    assert ['A'] + "cronym" == "Acronym";
  }

  /** Capital camel to lower camel, as in INPUTS_CAPITAL_CAMEL_TO_LOWER_CAMEL:
      the acronym is normalised like any other word. */
  lemma ConvertSomeJsonAcronymToLowerCamel(s: string)
    requires s == "SomeJSONAcronym"
    ensures Converted(CapitalCamel, LowerCamel, s) == "someJsonAcronym"
  {
    WordsOfSomeJsonAcronym(s);
    NormalizedSomeJsonAcronym();
    var n := NormalizeAll(LowerCamel, ["Some", "JSON", "Acronym"]);
    assert n == ["some", "Json", "Acronym"];
    assert n[1..] == ["Json", "Acronym"] && n[1..][1..] == ["Acronym"];
    assert "some" + "" + ("Json" + "" + "Acronym") == "someJsonAcronym";
  }

  lemma PiecesOfWith123Numbers(s: string)
    requires s == "with123Numbers"
    ensures s == s[..7] + s[7..] && NoUpper(s[..7]) && s[..7] != []
    ensures |s[7..]| >= 2 && IsUpper(s[7..][0]) && NoUpper(s[7..][1..])
    ensures s[..7] == "with123" && s[7..] == "Numbers"
  {
  }

  /** A lowercase word before a capitalised word: two words. */
  lemma RejoinTwoWords(a: string, b: string)
    requires a != [] && |b| >= 2
    ensures Rejoin([a, b], 0, []) == [a, b]
  {
    var frags := [a, b];
    assert [] + a == a && [] + b == b;
    assert Rejoin(frags, 1, []) == [b];
  }

  /** "with123Numbers" is the words "with123" and "Numbers". */
  lemma WordsOfWith123Numbers(s: string)
    requires s == "with123Numbers"
    ensures CamelWords(s) == ["with123", "Numbers"]
  {
    PiecesOfWith123Numbers(s);
    var a, b := s[..7], s[7..];
    LookaheadSplitOfCapitalized(b);
    LookaheadSplitPrefix(a, b);
    assert a + [] == a && [[], b][1..] == [b];
    assert LookaheadSplit(s) == [a, b];
    RejoinTwoWords(a, b);
  }

  lemma NormalizedWith123Numbers()
    ensures CapitalCamel.NormalizeWord("with123", 0) == "With123"
    ensures CapitalCamel.NormalizeWord("Numbers", 1) == "Numbers"
  {
    assert LowerString("ith123") == "ith123";
    assert ['W'] + "ith123" == "With123";
    assert LowerString("umbers") == "umbers";
    assert ['N'] + "umbers" == "Numbers";
  }

  /** Lower camel to capital camel, as in INPUTS_LOWER_CAMEL_TO_CAPITAL_CAMEL. */
  lemma ConvertWith123NumbersToCapitalCamel(s: string)
    requires s == "with123Numbers"
    ensures Converted(LowerCamel, CapitalCamel, s) == "With123Numbers"
  {
    WordsOfWith123Numbers(s);
    NormalizedWith123Numbers();
    var n := NormalizeAll(CapitalCamel, ["with123", "Numbers"]);
    assert n == ["With123", "Numbers"];
    assert n[1..] == ["Numbers"];
    assert "With123" + "" + "Numbers" == "With123Numbers";
  }

  // convert: the normalised words joined with the destination's delimiter

  lemma NormalizedXmlThing()
    ensures LowerCamel.NormalizeWord("XML", 0) == "xml"
    ensures CapitalCamel.NormalizeWord("XML", 0) == "Xml"
    ensures LowerCamel.NormalizeWord("Thing", 1) == "Thing"
  {
    assert LowerString("XML") == "xml";
    assert LowerString("ML") == "ml";
    assert ['X'] + "ml" == "Xml";
    assert LowerString("hing") == "hing";
    assert ['T'] + "hing" == "Thing";
  }

  /** Capital camel to lower camel, as in INPUTS_CAPITAL_CAMEL_TO_LOWER_CAMEL. */
  lemma ConvertXmlThingToLowerCamel(s: string)
    requires s == "XMLThing"
    ensures Converted(CapitalCamel, LowerCamel, s) == "xmlThing"
  {
    WordsOfXmlThing(s);
    NormalizedXmlThing();
    var n := NormalizeAll(LowerCamel, ["XML", "Thing"]);
    assert n == ["xml", "Thing"];
    assert n[1..] == ["Thing"];
    assert "xml" + "" + "Thing" == "xmlThing";
  }

  /** Converting to its own format does not give back an input with an
      acronym: the acronym is normalised like any other word. */
  lemma ConvertXmlThingToItself(s: string)
    requires s == "XMLThing"
    ensures Converted(CapitalCamel, CapitalCamel, s) == "XmlThing"
  {
    WordsOfXmlThing(s);
    NormalizedXmlThing();
    var n := NormalizeAll(CapitalCamel, ["XML", "Thing"]);
    assert n == ["Xml", "Thing"];
    assert n[1..] == ["Thing"];
    assert "Xml" + "" + "Thing" == "XmlThing";
  }

  lemma HopefullyIsCapitalCamel(s: string)
    requires s == "Hopefully"
    ensures Determine(s) == Some(CapitalCamel)
  {
    assert forall k :: 1 <= k < |s| ==> IsLower(s[k]);
    DetermineCapitalizedWord(s);
  }

  /** Capital camel to lower camel, as in INPUTS_CAPITAL_CAMEL_TO_LOWER_CAMEL. */
  lemma ConvertHopefullyToLowerCamel(s: string)
    requires s == "Hopefully"
    ensures Converted(CapitalCamel, LowerCamel, s) == "hopefully"
  {
    assert NoUpper(s[1..]);
    CamelWordsOfCapitalized(s);
    LowerHopefully(s);
    var n := NormalizeAll(LowerCamel, [s]);
    assert n == ["hopefully"];
  }

  /** The dynamic converter reads a capitalised word as capital camel. */
  lemma DynamicHopefully(s: string)
    requires s == "Hopefully"
    ensures DynamicConverterTo(LowerCamel).Convert(s) == Success("hopefully")
  {
    HopefullyIsCapitalCamel(s);
    ConvertHopefullyToLowerCamel(s);
  }

  lemma LowerHopefully(s: string)
    requires s == "Hopefully"
    ensures LowerString(s) == "hopefully"
  {
  }

  lemma NoUpperInOmething(s: string)
    requires s == "omething"
    ensures NoUpper(s)
  {
  }

  lemma FragmentsOfElse(s: string)
    requires s == "Else"
    ensures LookaheadSplit(s) == ["", "Else"]
  {
    LookaheadSplitNoUpper(s[1..]);
    CutBefore('E', s[1..], s[1..], []);
    assert ['E'] + s[1..] == s;
  }

  lemma PiecesOfCapitalSomethingElse(s: string)
    requires s == "SomethingElse"
    ensures s[1..9] == "omething" && s[9..] == "Else"
    ensures s == ['S'] + (s[1..9] + s[9..]) && ['S'] + s[1..9] == "Something"
  {
  }

  lemma FragmentsOfCapitalSomethingElse(s: string)
    requires s == "SomethingElse"
    ensures LookaheadSplit(s) == ["", "Something", "Else"]
  {
    PiecesOfCapitalSomethingElse(s);
    var a, b := s[1..9], s[9..];
    NoUpperInOmething(a);
    FragmentsOfElse(b);
    LookaheadSplitPrefix(a, b);
    assert a + [] == a;
    CutBefore('S', a + b, a, [b]);
  }

  lemma PiecesOfAbcSomethingElse(s: string)
    requires s == "abcSomethingElse"
    ensures s[..3] == "abc" && s[3..] == "SomethingElse" && s == s[..3] + s[3..]
  {
  }

  lemma WordsOfSomethingElse(s: string)
    requires s == "abcSomethingElse"
    ensures CamelWords(s) == ["abc", "Something", "Else"]
  {
    PiecesOfAbcSomethingElse(s);
    var a, b := s[..3], s[3..];
    FragmentsOfCapitalSomethingElse(b);
    LookaheadSplitPrefix(a, b);
    assert a + [] == a;
    var frags := ["abc", "Something", "Else"];
    assert LookaheadSplit(s) == frags;
    RejoinPlainWords(frags[0], frags[1], frags[2]);
    assert [frags[0], frags[1], frags[2]] == frags;
  }

  /** Words of two or more characters are emitted as they are. */
  lemma RejoinPlainWords(a: string, b: string, w: string)
    requires a != [] && |b| >= 2 && |w| >= 2
    ensures Rejoin([a, b, w], 0, []) == [a, b, w]
  {
    var frags := [a, b, w];
    assert [] + w == w && [] + b == b && [] + a == a;
    assert Rejoin(frags, 2, []) == [w];
    assert Rejoin(frags, 1, []) == [b] + Rejoin(frags, 2, []);
  }

  /** Lower camel to upper hyphen, as in INPUTS_LOWER_CAMEL_TO_UPPER_HYPEN. */
  lemma ConvertSomethingElseToUpperHyphen(s: string)
    requires s == "abcSomethingElse"
    ensures Converted(LowerCamel, UpperHyphen, s) == "ABC-SOMETHING-ELSE"
  {
    WordsOfSomethingElse(s);
    var ws := CamelWords(s);
    UpperWordsOfSomethingElse(ws);
    var n := NormalizeAll(UpperHyphen, ws);
    JoinedSomethingElse(n);
    assert Converted(LowerCamel, UpperHyphen, s) == JoinWith(n, "-");
  }

  lemma UpperWordsOfSomethingElse(ws: seq<string>)
    requires ws == ["abc", "Something", "Else"]
    ensures NormalizeAll(UpperHyphen, ws) == ["ABC", "SOMETHING", "ELSE"]
  {
    assert UpperString("abc") == "ABC";
    assert UpperString("Something") == "SOMETHING";
    assert UpperString("Else") == "ELSE";
  }

  lemma JoinedSomethingElse(n: seq<string>)
    requires n == ["ABC", "SOMETHING", "ELSE"]
    ensures JoinWith(n, "-") == "ABC-SOMETHING-ELSE"
  {
    assert n[1..] == ["SOMETHING", "ELSE"] && n[1..][1..] == ["ELSE"];
    assert JoinWith(n[1..], "-") == "SOMETHING" + "-" + "ELSE";
    assert "ABC" + "-" + ("SOMETHING" + "-" + "ELSE") == "ABC-SOMETHING-ELSE";
  }

  lemma PiecesOfABCd(s: string)
    requires s == "aBCd"
    ensures |s[..1]| == 1 && NoUpper(s[..1]) && |s[3..]| == 1 && NoUpper(s[3..])
    ensures s == s[..1] + (['B'] + (['C'] + s[3..]))
    ensures s[..1] + ['B'] == "aB" && ['C'] + s[3..] == "Cd"
  {
  }

  /** A lowercase prefix, a single capital and a capitalised word. */
  lemma FragmentsOfPrefixCapitalWord(a: string, c: char, w: string)
    requires NoUpper(a) && IsUpper(c) && |w| >= 1 && IsUpper(w[0]) && NoUpper(w[1..])
    ensures LookaheadSplit(a + ([c] + w)) == [a] + ([[c]] + [w])
  {
    LookaheadSplitOfCapitalized(w);
    assert [[], w] == [[]] + [w];
    CutSingle(c, w, [w]);
    var p := LookaheadSplit([c] + w);
    assert p[0] == [] && p[1..] == [[c]] + [w];
    LookaheadSplitPrefix(a, [c] + w);
    assert a + [] == a;
  }

  /** A one-letter fragment before a single capital is cached and emitted with
      it; the word after is emitted on its own. */
  lemma RejoinCachedLetter(a: string, b: string, w: string)
    requires |a| == 1 && IsSingleUpper(b) && |w| >= 2
    ensures Rejoin([a, b, w], 0, []) == [a + b, w]
  {
    var frags := [a, b, w];
    assert [] + w == w;
    assert Rejoin(frags, 2, []) == [w];
    assert Rejoin(frags, 1, a) == [a + b] + Rejoin(frags, 2, []);
    assert [] + a == a;
  }

  /** A one-letter fragment before a single uppercase letter is cached and
      emitted with it. */
  lemma WordsOfABCd(s: string)
    requires s == "aBCd"
    ensures CamelWords(s) == ["aB", "Cd"]
  {
    PiecesOfABCd(s);
    var a, w := s[..1], ['C'] + s[3..];
    assert w[1..] == s[3..];
    FragmentsOfPrefixCapitalWord(a, 'B', w);
    assert [a] + ([['B']] + [w]) == [a, ['B'], w];
    RejoinCachedLetter(a, ['B'], w);
  }

  /** Lower camel to capital camel, as in INPUTS_LOWER_CAMEL_TO_CAPITAL_CAMEL. */
  lemma ConvertWhatToCapitalCamel(s: string)
    requires s == "what"
    ensures Converted(LowerCamel, CapitalCamel, s) == "What"
  {
    CamelWordsNoUpper(s);
    assert LowerString(s[1..]) == "hat";
    assert [ToUpper(s[0])] + "hat" == "What";
    assert CamelWord(s) == "What";
    var n := NormalizeAll(CapitalCamel, [s]);
    assert n == ["What"];
  }

  /** A lower underscore input of the test suite converts to lower hyphen and
      back unchanged. */
  lemma UnderscoreToHyphenAndBack(s: string)
    requires s == "something_blah_123_other_stuff"
    ensures Converted(LowerHyphen, LowerUnderscore, Converted(LowerUnderscore, LowerHyphen, s)) == s
  {
    assert NoUpper(s);
    assert '-' !in s;
    SameCaseRoundTrip(LowerUnderscore, LowerHyphen, s);
  }
}
