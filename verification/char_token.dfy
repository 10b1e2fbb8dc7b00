/** The character classifier of `CharToken.kt`: seven token kinds, each
    declared by a set of ASCII character ranges; characters outside every range
    (controls, DEL, Latin supplement and all other non-ASCII characters) are
    unclassified. */
module CharTokens {
  import opened Wrappers

  /** An inclusive range of characters, Kotlin's `CharRange` `first..last`. */
  datatype CharRange = CharRange(first: char, last: char) {
    predicate Contains(c: char) { first <= c <= last }
  }

  /** Whether one of `ranges` contains `c`, scanning them in order and stopping
      at the first that does. */
  function AnyContains(ranges: seq<CharRange>, c: char): (r: bool)
    ensures r <==> exists k :: 0 <= k < |ranges| && ranges[k].Contains(c)
  {
    if ranges == [] then false
    else if ranges[0].Contains(c) then true
    else AnyContains(ranges[1..], c)
  }

  /** The token kinds in declaration order. `NUMBERS` and `OTHER_SPECIALS` are
      the entries that `KaseFormat.kt` also calls `NUMBER` and `OTHER_SPECIAL`. */
  datatype CharToken =
    | Hyphen
    | Underscore
    | UppercaseLetter
    | LowercaseLetter
    | Numbers
    | Space
    | OtherSpecials
  {
    /** The declared ranges of each token. */
    function CharRanges(): seq<CharRange>
    {
      match this
      case Hyphen => [CharRange('-', '-')]
      case Underscore => [CharRange('_', '_')]
      case UppercaseLetter => [CharRange('A', 'Z')]
      case LowercaseLetter => [CharRange('a', 'z')]
      case Numbers => [CharRange('0', '9')]
      case Space => [CharRange(' ', ' ')]
      case OtherSpecials =>
        [CharRange('!', ','), CharRange('.', '/'), CharRange(':', '@'),
         CharRange('[', '^'), CharRange('`', '`'), CharRange('{', '~')]
    }

    /** `matches(char)`: true exactly when one of the declared ranges holds `c`. */
    function Matches(c: char): (r: bool)
      ensures r <==> exists k :: 0 <= k < |CharRanges()| && CharRanges()[k].Contains(c)
    {
      AnyContains(CharRanges(), c)
    }
  }

  /** `values()`: every token, in declaration order. */
  function Values(): (r: seq<CharToken>)
    ensures |r| == 7
  {
    [Hyphen, Underscore, UppercaseLetter, LowercaseLetter, Numbers, Space, OtherSpecials]
  }

  /** `values()` lists every token. */
  lemma ValuesListsEveryToken(t: CharToken)
    ensures t in Values()
  {
    var v := Values();
    match t
    case Hyphen => assert v[0] == t;
    case Underscore => assert v[1] == t;
    case UppercaseLetter => assert v[2] == t;
    case LowercaseLetter => assert v[3] == t;
    case Numbers => assert v[4] == t;
    case Space => assert v[5] == t;
    case OtherSpecials => assert v[6] == t;
  }

  /** The first token of `order` that matches `c`, or `None`. */
  function FirstMatching(order: seq<CharToken>, c: char): (r: Option<CharToken>)
    ensures r.Some? ==> r.value in order && r.value.Matches(c)
    ensures r.None? ==> forall t :: t in order ==> !t.Matches(c)
  {
    if order == [] then None
    else if order[0].Matches(c) then Some(order[0])
    else FirstMatching(order[1..], c)
  }

  /** `CharToken.matching(char)`: the first token in declaration order whose
      ranges contain `c`; `None` (Kotlin's `null`) when there is none. */
  function Matching(c: char): (r: Option<CharToken>)
    ensures r.Some? ==> r.value.Matches(c)
    ensures r.None? ==> forall t: CharToken :: !t.Matches(c)
  {
    forall t: CharToken ensures t in Values() {
      ValuesListsEveryToken(t);
    }
    FirstMatching(Values(), c)
  }

  /** The token ranges are pairwise disjoint: no character matches two tokens. */
  lemma RangesDisjoint(t: CharToken, u: CharToken, c: char)
    requires t != u && t.Matches(c)
    ensures !u.Matches(c)
  {
  }

  /** Scanning the tokens in ANY order that lists each of them finds the same
      token as the declaration order, because the ranges are disjoint. */
  lemma {:induction false} MatchingIsOrderFree(order: seq<CharToken>, c: char)
    requires forall t: CharToken :: t in order
    ensures FirstMatching(order, c) == Matching(c)
  {
    var r := FirstMatching(order, c);
    var m := Matching(c);
    if r.Some? {
      if m.Some? && m.value != r.value {
        RangesDisjoint(r.value, m.value, c);
      }
    }
  }

  /** `matching(c) == t` exactly when `t` matches `c`: classification is a
      partition of the characters it classifies. */
  lemma MatchingExactly(c: char, t: CharToken)
    ensures Matching(c) == Some(t) <==> t.Matches(c)
  {
    var m := Matching(c);
    if t.Matches(c) {
      ValuesListsEveryToken(t);
      if m.Some? && m.value != t {
        RangesDisjoint(t, m.value, c);
      }
    }
  }

  /** `MatchingExactly` for every token at once. */
  lemma MatchingExactlyAll(c: char)
    ensures forall t :: Matching(c) == Some(t) <==> t.Matches(c)
  {
    forall t {
      MatchingExactly(c, t);
    }
  }

  /** Every printable ASCII character from ' ' (0x20) to '~' (0x7E) is matched by
      exactly one token. */
  lemma PrintableAsciiClassified(c: char)
    requires ' ' <= c <= '~'
    ensures Matching(c).Some?
    ensures forall t: CharToken :: t.Matches(c) <==> t == Matching(c).value
  {
    var t: CharToken;
    if c == '-' { t := Hyphen; }
    else if c == '_' { t := Underscore; }
    else if 'A' <= c <= 'Z' { t := UppercaseLetter; }
    else if 'a' <= c <= 'z' { t := LowercaseLetter; }
    else if '0' <= c <= '9' { t := Numbers; }
    else if c == ' ' { t := Space; }
    else {
      t := OtherSpecials;
      assert t.CharRanges()[0].Contains(c) || t.CharRanges()[1].Contains(c)
        || t.CharRanges()[2].Contains(c) || t.CharRanges()[3].Contains(c)
        || t.CharRanges()[4].Contains(c) || t.CharRanges()[5].Contains(c);
    }
    assert t.Matches(c);
    MatchingExactly(c, t);
    forall u: CharToken ensures u.Matches(c) <==> u == t {
      if u != t && u.Matches(c) {
        RangesDisjoint(t, u, c);
      }
    }
  }

  /** Characters outside ' '..'~' (controls, DEL, Latin supplement, every other
      non-ASCII character) are unclassified. */
  lemma OutsidePrintableUnclassified(c: char)
    requires c < ' ' || '~' < c
    ensures Matching(c) == None
  {
    forall t: CharToken ensures !t.Matches(c) {
    }
  }

  /** The specific mappings of the single-kind tokens. */
  lemma SpecificMappings(c: char)
    ensures Matching('-') == Some(Hyphen)
    ensures Matching('_') == Some(Underscore)
    ensures Matching(' ') == Some(Space)
    ensures 'A' <= c <= 'Z' ==> Matching(c) == Some(UppercaseLetter)
    ensures 'a' <= c <= 'z' ==> Matching(c) == Some(LowercaseLetter)
    ensures '0' <= c <= '9' ==> Matching(c) == Some(Numbers)
  {
    MatchingExactly('-', Hyphen);
    MatchingExactly('_', Underscore);
    MatchingExactly(' ', Space);
    MatchingExactly(c, UppercaseLetter);
    MatchingExactly(c, LowercaseLetter);
    MatchingExactly(c, Numbers);
  }

  /** `OTHER_SPECIALS` is the rest of printable ASCII: every printable
      character that is not a letter, a digit, a hyphen, an underscore or a
      space. */
  lemma OtherSpecialsAreTheRest(c: char)
    requires ' ' <= c <= '~'
    requires !('A' <= c <= 'Z') && !('a' <= c <= 'z') && !('0' <= c <= '9')
    requires c != '-' && c != '_' && c != ' '
    ensures Matching(c) == Some(OtherSpecials)
  {
    PrintableAsciiClassified(c);
  }
}
