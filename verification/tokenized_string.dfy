/** The token-sequence analysis of `TokenizedString.kt`: a string becomes the
    sequence of its classified characters' tokens, which then answers three
    questions: the distinct tokens, the longest run of a token, and whether
    the first token outside an ignored set is a given one. */
module Tokens {
  import opened Wrappers
  import opened CharTokens

  /** The token of `c` as a sequence of at most one element: unclassified
      characters contribute nothing. */
  function TokenOf(c: char): (r: seq<CharToken>)
    ensures |r| <= 1
    ensures forall t :: t in r <==> t.Matches(c)
  {
    MatchingExactlyAll(c);
    match Matching(c)
    case Some(t) => [t]
    case None => []
  }

  /** The tokens of the characters of `s`, in order, unclassified characters
      dropped (the result `TokenizedString.of` is built from). */
  function Tokenize(s: string): (r: seq<CharToken>)
    ensures |r| <= |s|
  {
    if s == [] then [] else TokenOf(s[0]) + Tokenize(s[1..])
  }

  /** Tokenizing preserves order: the tokens of a concatenation are the
      concatenation of the tokens. */
  lemma {:induction false} TokenizeAppend(a: string, b: string)
    ensures Tokenize(a + b) == Tokenize(a) + Tokenize(b)
  {
    if a == [] {
      assert a + b == b;
    } else {
      assert (a + b)[0] == a[0];
      assert (a + b)[1..] == a[1..] + b;
      TokenizeAppend(a[1..], b);
    }
  }

  /** A string of characters of one kind gives one token per character, all
      of that kind. */
  lemma {:induction false} TokenizeUniform(s: string, t: CharToken)
    requires forall k :: 0 <= k < |s| ==> Matching(s[k]) == Some(t)
    ensures |Tokenize(s)| == |s|
    ensures forall j :: 0 <= j < |Tokenize(s)| ==> Tokenize(s)[j] == t
  {
    if s != [] {
      assert forall k :: 0 <= k < |s[1..]| ==> s[1..][k] == s[k + 1];
      TokenizeUniform(s[1..], t);
    }
  }

  /** One step of `Tokenize`: the first character's token, then the rest. */
  lemma TokenizeCons(s: string)
    requires s != []
    ensures Tokenize(s) == TokenOf(s[0]) + Tokenize(s[1..])
  {
  }

  /** Tokenizing one more character of `s` appends that character's token. */
  lemma TokenizePrefix(s: string, i: int)
    requires 0 <= i < |s|
    ensures Tokenize(s[..i + 1]) == Tokenize(s[..i]) + TokenOf(s[i])
  {
    assert s[..i + 1] == s[..i] + [s[i]];
    TokenizeAppend(s[..i], [s[i]]);
    assert Tokenize([s[i]]) == TokenOf(s[i]) + Tokenize([]);
  }

  /** A token occurs in the tokenization exactly when some character of `s`
      is classified as it. */
  lemma {:induction false} TokenizeMembership(s: string, t: CharToken)
    ensures t in Tokenize(s) <==> exists k :: 0 <= k < |s| && Matching(s[k]) == Some(t)
  {
    if s != [] {
      TokenizeMembership(s[1..], t);
      if t in Tokenize(s[1..]) {
        var k :| 0 <= k < |s[1..]| && Matching(s[1..][k]) == Some(t);
        assert Matching(s[k + 1]) == Some(t);
      }
      if exists k :: 0 <= k < |s| && Matching(s[k]) == Some(t) {
        var k :| 0 <= k < |s| && Matching(s[k]) == Some(t);
        if k > 0 {
          assert Matching(s[1..][k - 1]) == Some(t);
        }
      }
    }
  }

  /** When every character is classified nothing is dropped: the tokenization
      lists the tokens of the characters position by position. */
  lemma {:induction false} TokenizeAllClassified(s: string)
    requires forall k :: 0 <= k < |s| ==> Matching(s[k]).Some?
    ensures |Tokenize(s)| == |s|
    ensures forall k :: 0 <= k < |s| ==> Tokenize(s)[k] == Matching(s[k]).value
  {
    if s != [] {
      var rest := s[1..];
      assert forall k :: 0 <= k < |rest| ==> rest[k] == s[k + 1];
      TokenizeAllClassified(rest);
      var ts := Tokenize(s);
      assert ts == [Matching(s[0]).value] + Tokenize(rest);
      forall k | 0 <= k < |s| ensures ts[k] == Matching(s[k]).value {
        if k > 0 {
          assert ts[k] == Tokenize(rest)[k - 1];
        }
      }
    }
  }

  /** Length of the run of `t` that ends the sequence. */
  function TrailingRun(ts: seq<CharToken>, t: CharToken): (r: nat)
    ensures r <= |ts|
  {
    if ts == [] then 0
    else if ts[|ts| - 1] == t then TrailingRun(ts[..|ts| - 1], t) + 1
    else 0
  }

  /** The trailing run is a run of `t` that cannot be extended to the left. */
  lemma {:induction false} TrailingRunIsMaximal(ts: seq<CharToken>, t: CharToken)
    ensures IsRun(ts, t, |ts| - TrailingRun(ts, t), TrailingRun(ts, t))
    ensures TrailingRun(ts, t) < |ts| ==> ts[|ts| - 1 - TrailingRun(ts, t)] != t
  {
    if ts != [] && ts[|ts| - 1] == t {
      var p := ts[..|ts| - 1];
      TrailingRunIsMaximal(p, t);
      assert forall k :: 0 <= k < |p| ==> p[k] == ts[k];
    }
  }

  function Max(a: int, b: int): int { if a < b then b else a }

  /** Reference definition of the longest run of `t`: the longest run of the
      sequence without its last token, or the run that ends the sequence. */
  function LongestRun(ts: seq<CharToken>, t: CharToken): (r: nat)
    ensures r <= |ts|
  {
    if ts == [] then 0 else Max(LongestRun(ts[..|ts| - 1], t), TrailingRun(ts, t))
  }

  /** `ts[i..i+n]` is a run of `t`. */
  ghost predicate IsRun(ts: seq<CharToken>, t: CharToken, i: int, n: int)
  {
    0 <= i && 0 <= n && i + n <= |ts| && forall k :: i <= k < i + n ==> ts[k] == t
  }

  /** `LongestRun` is the length of a run of `t`. */
  lemma {:induction false} LongestRunIsRun(ts: seq<CharToken>, t: CharToken)
    ensures exists i :: IsRun(ts, t, i, LongestRun(ts, t))
  {
    if ts == [] {
      assert LongestRun(ts, t) == 0;
      assert IsRun(ts, t, 0, 0);
    } else {
      var p := ts[..|ts| - 1];
      var tr := TrailingRun(ts, t);
      if LongestRun(p, t) >= tr {
        assert LongestRun(ts, t) == LongestRun(p, t);
        LongestRunIsRun(p, t);
        var i :| IsRun(p, t, i, LongestRun(p, t));
        assert forall k :: 0 <= k < |p| ==> p[k] == ts[k];
        assert IsRun(ts, t, i, LongestRun(p, t));
      } else {
        assert LongestRun(ts, t) == tr;
        TrailingRunIsMaximal(ts, t);
      }
    }
  }

  /** No run of `t` is longer than `LongestRun`, including a run that ends the
      sequence. */
  lemma {:induction false} LongestRunBound(ts: seq<CharToken>, t: CharToken, i: int, n: int)
    requires IsRun(ts, t, i, n)
    ensures n <= LongestRun(ts, t)
  {
    var tr := TrailingRun(ts, t);
    TrailingRunIsMaximal(ts, t);
    if i + n < |ts| {
      var p := ts[..|ts| - 1];
      assert IsRun(p, t, i, n);
      LongestRunBound(p, t, i, n);
    }
  }

  /** The longest run is at most one exactly when no two adjacent tokens are
      both `t`. */
  lemma LongestRunAtMostOne(ts: seq<CharToken>, t: CharToken)
    ensures LongestRun(ts, t) <= 1 <==>
      forall k :: 0 <= k < |ts| - 1 ==> !(ts[k] == t && ts[k + 1] == t)
  {
    forall k | 0 <= k < |ts| - 1 && ts[k] == t && ts[k + 1] == t
      ensures LongestRun(ts, t) >= 2
    {
      LongestRunBound(ts, t, k, 2);
    }
    LongestRunIsRun(ts, t);
    var i :| IsRun(ts, t, i, LongestRun(ts, t));
    if LongestRun(ts, t) >= 2 {
      assert ts[i] == t && ts[i + 1] == t;
    }
  }

  /** Two adjacent characters of the same kind make a run of two tokens. */
  lemma RunOfPair(s: string, u: int, t: CharToken)
    requires 0 <= u && u + 1 < |s| && Matching(s[u]) == Some(t) && Matching(s[u + 1]) == Some(t)
    ensures LongestRun(Tokenize(s), t) >= 2
  {
    TokenOfKnown(s[u], t);
    TokenOfKnown(s[u + 1], t);
    TokenizeAroundPair(s, u, t);
    PairIsRun(Tokenize(s[..u]), Tokenize(s[u + 2..]), t);
  }

  /** Two adjacent tokens `t` anywhere make a run of two. */
  lemma PairIsRun(a: seq<CharToken>, b: seq<CharToken>, t: CharToken)
    ensures LongestRun(a + ([t, t] + b), t) >= 2
  {
    var ts := a + ([t, t] + b);
    assert ts[|a|] == t && ts[|a| + 1] == t;
    LongestRunBound(ts, t, |a|, 2);
  }

  /** A character the classification maps to `t` contributes exactly `t`. */
  lemma TokenOfKnown(c: char, t: CharToken)
    requires Matching(c) == Some(t)
    ensures TokenOf(c) == [t]
  {
  }

  /** Two characters of token `t` give the tokens `t, t`. */
  lemma TokenizeTwo(a: char, b: char, t: CharToken)
    requires TokenOf(a) == [t] && TokenOf(b) == [t]
    ensures Tokenize([a, b]) == [t, t]
  {
    assert [a, b][1..] == [b];
    assert [b][1..] == [];
  }

  /** Two leading characters of token `t` contribute `t, t`. */
  lemma TokenizeLeadingPair(s: string, t: CharToken)
    requires |s| >= 2 && TokenOf(s[0]) == [t] && TokenOf(s[1]) == [t]
    ensures Tokenize(s) == [t, t] + Tokenize(s[2..])
  {
    assert s == [s[0], s[1]] + s[2..];
    TokenizeAppend([s[0], s[1]], s[2..]);
    TokenizeTwo(s[0], s[1], t);
  }

  /** Two adjacent characters of token `t` at `u` put `t, t` after the
      tokens of the prefix. */
  lemma TokenizeAroundPair(s: string, u: int, t: CharToken)
    requires 0 <= u && u + 1 < |s| && TokenOf(s[u]) == [t] && TokenOf(s[u + 1]) == [t]
    ensures Tokenize(s) == Tokenize(s[..u]) + ([t, t] + Tokenize(s[u + 2..]))
  {
    var a, rest := s[..u], s[u..];
    assert s == a + rest;
    TokenizeAppend(a, rest);
    assert rest[0] == s[u] && rest[1] == s[u + 1] && rest[2..] == s[u + 2..];
    TokenizeLeadingPair(rest, t);
  }

  /** The longest run is 0 exactly when the token does not occur. */
  lemma LongestRunZeroIffAbsent(ts: seq<CharToken>, t: CharToken)
    ensures LongestRun(ts, t) == 0 <==> t !in ts
  {
    if t in ts {
      var k :| 0 <= k < |ts| && ts[k] == t;
      LongestRunBound(ts, t, k, 1);
    }
    if LongestRun(ts, t) > 0 {
      LongestRunIsRun(ts, t);
      var i :| IsRun(ts, t, i, LongestRun(ts, t));
      assert ts[i] == t;
    }
  }

  /** The first token that is not in `ignored`, or `None` when the sequence is
      empty or made only of ignored tokens. */
  function FirstUnignored(ts: seq<CharToken>, ignored: set<CharToken>): (r: Option<CharToken>)
    ensures r.None? <==> forall k :: 0 <= k < |ts| ==> ts[k] in ignored
    ensures r.Some? ==> (r.value !in ignored &&
      exists k :: 0 <= k < |ts| && ts[k] == r.value && forall j :: 0 <= j < k ==> ts[j] in ignored)
  {
    if ts == [] then None
    else if ts[0] in ignored then FirstUnignored(ts[1..], ignored)
    else Some(ts[0])
  }

  /** The first-unignored token is the one at the first position outside
      `ignored`, whichever position that is. */
  lemma FirstUnignoredAt(ts: seq<CharToken>, ignored: set<CharToken>, k: int)
    requires 0 <= k < |ts| && ts[k] !in ignored
    requires forall j :: 0 <= j < k ==> ts[j] in ignored
    ensures FirstUnignored(ts, ignored) == Some(ts[k])
  {
    var r := FirstUnignored(ts, ignored);
    var k' :| 0 <= k' < |ts| && ts[k'] == r.value && forall j :: 0 <= j < k' ==> ts[j] in ignored;
    assert k' == k;
  }

  /** An immutable token sequence, Kotlin's `TokenizedString`. */
  datatype TokenizedString = TokenizedString(charTokens: seq<CharToken>)
  {
    /** `uniqueTokens`: the distinct tokens of the sequence. */
    function UniqueTokens(): (r: set<CharToken>)
      ensures forall t :: t in r <==> t in charTokens
      ensures |r| <= |charTokens|
    {
      var r := set t | t in charTokens;
      assert r == set k | 0 <= k < |charTokens| :: charTokens[k];
      SetOfIndicesBound(charTokens);
      r
    }

    /** `startsWith(prefixed, ignoredPrefixes)`: skips the ignored tokens and
        compares the first other token with `prefixed`; false when there is
        none. */
    method StartsWith(prefixed: CharToken, ignoredPrefixes: set<CharToken>) returns (b: bool)
      ensures b <==> FirstUnignored(charTokens, ignoredPrefixes) == Some(prefixed)
    {
      var i := 0;
      while i < |charTokens|
        invariant 0 <= i <= |charTokens|
        invariant FirstUnignored(charTokens[i..], ignoredPrefixes) == FirstUnignored(charTokens, ignoredPrefixes)
      {
        var characteristic := charTokens[i];
        if characteristic in ignoredPrefixes {
          assert charTokens[i..][1..] == charTokens[i + 1..];
          i := i + 1;
        } else {
          return characteristic == prefixed;
        }
      }
      return false;
    }

    /** `maxSequentialCount(charToken)`: counts the current run and records the
        largest when a run ends; the last check after the loop records a run
        that ends the sequence. */
    method MaxSequentialCount(charToken: CharToken) returns (maxSeen: int)
      ensures maxSeen == LongestRun(charTokens, charToken)
    {
      var ts := charTokens;
      maxSeen := 0;
      var counter := 0;
      for i := 0 to |ts|
        invariant 0 <= maxSeen
        invariant counter == TrailingRun(ts[..i], charToken)
        invariant Max(maxSeen, counter) == LongestRun(ts[..i], charToken)
      {
        RunStep(ts, charToken, i);
        var thisCharacteristic := ts[i];
        if thisCharacteristic == charToken {
          counter := counter + 1;
        } else if maxSeen < counter {
          maxSeen := counter;
          counter := 0;
        } else {
          counter := 0;
        }
      }
      assert ts[..|ts|] == ts;
      if counter > 0 && maxSeen < counter {
        maxSeen := counter;
      }
    }
  }

  /** How one more token extends the trailing and the longest run: a
      matching token lengthens the trailing run, any other token ends it and
      leaves the longest run as it was. */
  lemma RunStep(ts: seq<CharToken>, t: CharToken, i: int)
    requires 0 <= i < |ts|
    ensures ts[i] == t ==> TrailingRun(ts[..i + 1], t) == TrailingRun(ts[..i], t) + 1
    ensures ts[i] == t ==>
      LongestRun(ts[..i + 1], t) == Max(LongestRun(ts[..i], t), TrailingRun(ts[..i], t) + 1)
    ensures ts[i] != t ==> TrailingRun(ts[..i + 1], t) == 0
    ensures ts[i] != t ==> LongestRun(ts[..i + 1], t) == LongestRun(ts[..i], t)
  {
    assert ts[..i + 1][..i] == ts[..i];
  }

  lemma {:induction false} SetOfIndicesBound(ts: seq<CharToken>)
    ensures |set k | 0 <= k < |ts| :: ts[k]| <= |ts|
  {
    if ts != [] {
      var p := ts[..|ts| - 1];
      SetOfIndicesBound(p);
      assert (set k | 0 <= k < |ts| :: ts[k]) == (set k | 0 <= k < |p| :: p[k]) + {ts[|ts| - 1]};
    }
  }

  /** `TokenizedString.of(string)`: appends the token of every classified
      character, in order. */
  method Of(s: string) returns (r: TokenizedString)
    ensures r.charTokens == Tokenize(s)
  {
    var characteristics: seq<CharToken> := [];
    for i := 0 to |s|
      invariant characteristics == Tokenize(s[..i])
    {
      var characteristic := Matching(s[i]);
      TokenizePrefix(s, i);
      if characteristic.Some? {
        characteristics := characteristics + [characteristic.value];
      }
    }
    assert s[..|s|] == s;
    r := TokenizedString(characteristics);
  }

  /** The distinct tokens of a string are the tokens of its classified
      characters. */
  lemma UniqueTokensOfString(s: string, t: CharToken)
    ensures t in TokenizedString(Tokenize(s)).UniqueTokens() <==>
      exists k :: 0 <= k < |s| && Matching(s[k]) == Some(t)
  {
    TokenizeMembership(s, t);
  }
}
