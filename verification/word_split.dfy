/** Word splitting and conversion of `KaseFormat.kt` (`splitWords`, `convert`):
    a string is split into words by its source format's boundary, each word is
    normalised by the destination format, and the words are joined with the
    destination's delimiter. */
module Conversion {
  import opened AsciiCase
  import opened KaseFormats

  /** The concatenation of `ws`. */
  function Flatten(ws: seq<string>): string
  {
    if ws == [] then [] else ws[0] + Flatten(ws[1..])
  }

  /** The number of occurrences of `d` in `s`. */
  function Occurrences(s: string, d: char): nat
  {
    if s == [] then 0 else (if s[0] == d then 1 else 0) + Occurrences(s[1..], d)
  }

  /** `input.split(Regex(d))` for a one-character literal pattern: the pieces
      between the occurrences of `d`, empty pieces kept (a leading, trailing or
      doubled delimiter gives an empty piece); no occurrence gives `[s]`. */
  function SplitOn(s: string, d: char): (r: seq<string>)
    ensures |r| == Occurrences(s, d) + 1
    ensures forall k :: 0 <= k < |r| ==> d !in r[k]
    ensures forall k, c :: 0 <= k < |r| && c in r[k] ==> c in s
  {
    if s == [] then [[]]
    else
      var rest := SplitOn(s[1..], d);
      assert forall c :: c in s[1..] ==> c in s;
      if s[0] == d then [[]] + rest else [[s[0]] + rest[0]] + rest[1..]
  }

  /** The words `ws` with `d` between consecutive words and no trailing `d`
      (what `convert` builds in its `StringBuilder`). */
  function JoinWith(ws: seq<string>, d: string): (r: string)
    ensures |ws| >= 1 ==> ws[0] <= r
    ensures d == [] ==> r == Flatten(ws)
  {
    if |ws| == 0 then []
    else if |ws| == 1 then ws[0]
    else ws[0] + d + JoinWith(ws[1..], d)
  }

  /** One step of `JoinWith` on a suffix of the words: the word, then the
      delimiter unless it is the last word. */
  lemma JoinFrom(built: string, ws: seq<string>, d: string, i: int)
    requires 0 <= i < |ws|
    requires built + JoinWith(ws[i..], d) == JoinWith(ws, d)
    ensures built + ws[i] + (if i < |ws| - 1 then d else []) + JoinWith(ws[i + 1..], d)
      == JoinWith(ws, d)
  {
    assert ws[i..][1..] == ws[i + 1..];
  }

  /** Joining the pieces of a literal split with the delimiter gives back the
      input. */
  lemma {:induction false} JoinSplitOn(s: string, d: char)
    ensures JoinWith(SplitOn(s, d), [d]) == s
  {
    if s != [] {
      var rest := SplitOn(s[1..], d);
      JoinSplitOn(s[1..], d);
      if s[0] == d {
        assert SplitOn(s, d) == [[]] + rest;
        assert ([[]] + rest)[1..] == rest;
      } else {
        var r := SplitOn(s, d);
        assert r == [[s[0]] + rest[0]] + rest[1..];
        if |rest| == 1 {
          assert JoinWith(rest, [d]) == rest[0];
        } else {
          assert r[1..] == rest[1..];
          assert JoinWith(rest, [d]) == rest[0] + [d] + JoinWith(rest[1..], [d]);
        }
      }
    }
  }

  /** A piece followed by the delimiter splits off as the first piece. */
  lemma {:induction false} SplitOnPrefix(w: string, d: char, t: string)
    requires d !in w
    ensures SplitOn(w + [d] + t, d) == [w] + SplitOn(t, d)
  {
    if w == [] {
      assert w + [d] + t == [d] + t;
      assert ([d] + t)[1..] == t;
    } else {
      assert (w + [d] + t)[1..] == w[1..] + [d] + t;
      SplitOnPrefix(w[1..], d, t);
      assert [w[0]] + w[1..] == w;
    }
  }

  /** A string without the delimiter is a single piece. */
  lemma {:induction false} SplitOnWithout(w: string, d: char)
    requires d !in w
    ensures SplitOn(w, d) == [w]
  {
    if w != [] {
      SplitOnWithout(w[1..], d);
      assert [w[0]] + w[1..] == w;
    }
  }

  /** Splitting words joined with a delimiter none of them contains gives
      back the words. */
  lemma {:induction false} SplitOnJoin(ws: seq<string>, d: char)
    requires |ws| >= 1
    requires forall k :: 0 <= k < |ws| ==> d !in ws[k]
    ensures SplitOn(JoinWith(ws, [d]), d) == ws
  {
    if |ws| == 1 {
      SplitOnWithout(ws[0], d);
    } else {
      SplitOnJoin(ws[1..], d);
      SplitOnPrefix(ws[0], d, JoinWith(ws[1..], [d]));
    }
  }

  /** `nextToken.matches(boundary)` for the camel boundary `[A-Z]`: the whole
      fragment is one uppercase letter. */
  predicate IsSingleUpper(f: string)
  {
    |f| == 1 && IsUpper(f[0])
  }

  /** The whole-string match of the class `[A-Z]`: exactly the one-character
      strings of an uppercase letter. */
  lemma SingleUpperIsOneCapital(f: string)
    ensures IsSingleUpper(f) <==> exists c :: IsUpper(c) && f == [c]
  {
    if IsSingleUpper(f) {
      assert f == [f[0]];
    }
  }

  /** `input.split(Regex("(?=[A-Z])"))`: the input cut before every uppercase
      letter. A cut before the first character leaves an empty first fragment,
      as the JVM regex split does; the rejoin drops it. */
  function LookaheadSplit(s: string): (r: seq<string>)
    ensures |r| >= 1
    ensures Flatten(r) == s
    ensures NoUpper(r[0])
    ensures forall k :: 1 <= k < |r| ==> |r[k]| >= 1 && IsUpper(r[k][0]) && NoUpper(r[k][1..])
  {
    if s == [] then [[]]
    else
      var p := LookaheadSplit(s[1..]);
      if IsUpper(s[0]) then
        var r := [[], [s[0]] + p[0]] + p[1..];
        assert ([s[0]] + p[0])[1..] == p[0];
        assert r[2..] == p[1..];
        assert Flatten(r) == [] + ([s[0]] + p[0]) + Flatten(p[1..]);
        r
      else
        var r := [[s[0]] + p[0]] + p[1..];
        assert r[1..] == p[1..];
        r
  }

  /** The rejoin loop of the camel branch of `splitWords`, from fragment `i`
      with `cache` collected so far (Kotlin's `wordCache`). A fragment followed
      by a fragment that is not a single uppercase letter is emitted together
      with the cache; a one-character fragment followed by a single uppercase
      letter goes into the cache; any other non-empty fragment is emitted on
      its own; the last fragment is emitted with the cache. Empty words are
      never emitted. */
  function Rejoin(frags: seq<string>, i: nat, cache: string): (r: seq<string>)
    requires i <= |frags|
    ensures forall k :: 0 <= k < |r| ==> r[k] != []
    decreases |frags| - i
  {
    if i == |frags| then []
    else if i < |frags| - 1 then
      var nextToken := frags[i + 1];
      if !IsSingleUpper(nextToken) then
        var c := cache + frags[i];
        if c != [] then [c] + Rejoin(frags, i + 1, []) else Rejoin(frags, i + 1, c)
      else if |frags[i]| == 1 then Rejoin(frags, i + 1, cache + frags[i])
      else if frags[i] != [] then [frags[i]] + Rejoin(frags, i + 1, cache)
      else Rejoin(frags, i + 1, cache)
    else
      var c := cache + frags[i];
      if c != [] then [c] else []
  }

  /** The words of a camel-cased string: they concatenate back to exactly
      the input, none is empty, and every word but the first starts with an
      uppercase letter, since the split cuts only before those. */
  function CamelWords(s: string): (r: seq<string>)
    ensures Flatten(r) == s
    ensures forall k :: 0 <= k < |r| ==> r[k] != []
    ensures forall k :: 1 <= k < |r| ==> IsUpper(r[k][0])
  {
    var frags := LookaheadSplit(s);
    RejoinFlatten(frags, 0, []);
    RejoinWordsStartUppercase(frags);
    assert frags[0..] == frags;
    Rejoin(frags, 0, [])
  }

  /** The words of `input` for source format `f`: a literal split for the
      hyphen and underscore formats, the camel split for the camel formats.
      Joined again with the source's own delimiter they give back the input. */
  function Words(f: KaseFormat, input: string): (r: seq<string>)
    ensures JoinWith(r, f.Delimiter()) == input
    ensures f.Boundary().Literal? ==> forall k :: 0 <= k < |r| ==> f.Boundary().delimiter !in r[k]
    ensures f.Boundary() == BeforeUppercase ==> forall k :: 0 <= k < |r| ==> r[k] != []
  {
    DelimiterOfBoundary(f);
    match f.Boundary()
    case Literal(d) => JoinSplitOn(input, d); SplitOn(input, d)
    case BeforeUppercase => CamelWords(input)
  }

  /** The words normalised by format `f`, each with its index. */
  function NormalizeAll(f: KaseFormat, ws: seq<string>): (r: seq<string>)
    ensures |r| == |ws|
    ensures forall i :: 0 <= i < |ws| ==> r[i] == f.NormalizeWord(ws[i], i)
    ensures forall i :: 0 <= i < |ws| ==> SameLetters(r[i], ws[i])
  {
    seq(|ws|, i requires 0 <= i < |ws| => f.NormalizeWord(ws[i], i))
  }

  /** `source.convert(destination, input)`: split by the source, normalise by
      the destination, join with the destination's delimiter. */
  function Converted(source: KaseFormat, destination: KaseFormat, input: string): (r: string)
    ensures SameLetters(r, JoinWith(Words(source, input), destination.Delimiter()))
    ensures source.Delimiter() == destination.Delimiter() ==> SameLetters(r, input)
  {
    var ws := Words(source, input);
    var n := NormalizeAll(destination, ws);
    JoinSameLetters(n, ws, destination.Delimiter());
    JoinWith(n, destination.Delimiter())
  }

  /** Joining words that agree up to letter case, position by position, gives
      strings that agree up to letter case. */
  lemma {:induction false} JoinSameLetters(a: seq<string>, b: seq<string>, d: string)
    requires |a| == |b| && forall k :: 0 <= k < |a| ==> SameLetters(a[k], b[k])
    ensures SameLetters(JoinWith(a, d), JoinWith(b, d))
  {
    if |a| >= 2 {
      JoinSameLetters(a[1..], b[1..], d);
      SameLettersReflexive(d);
      SameLettersAppend(a[0], b[0], d, d);
      SameLettersAppend(a[0] + d, b[0] + d, JoinWith(a[1..], d), JoinWith(b[1..], d));
    } else if |a| == 0 {
      SameLettersReflexive([]);
    }
  }

  /** `splitWords(input, sourceFormat)`: the camel branch splits before every
      uppercase letter and rejoins the fragments in a loop; the other formats
      split on their literal delimiter. */
  method SplitWords(input: string, sourceFormat: KaseFormat) returns (words: seq<string>)
    ensures words == Words(sourceFormat, input)
  {
    if sourceFormat.Delimiter() == [] && (sourceFormat == CapitalCamel || sourceFormat == LowerCamel) {
      var firstSplit := LookaheadSplit(input);
      var rejoinedWords: seq<string> := [];
      var wordCache: string := [];
      for wordIndex := 0 to |firstSplit|
        invariant rejoinedWords + Rejoin(firstSplit, wordIndex, wordCache) == Rejoin(firstSplit, 0, [])
      {
        var fragment := firstSplit[wordIndex];
        ghost var done, rest := rejoinedWords, Rejoin(firstSplit, wordIndex, wordCache);
        if wordIndex < |firstSplit| - 1 {
          var nextToken := firstSplit[wordIndex + 1];
          if !IsSingleUpper(nextToken) {
            wordCache := wordCache + fragment;
            if wordCache != [] {
              assert rest == [wordCache] + Rejoin(firstSplit, wordIndex + 1, []);
              rejoinedWords := rejoinedWords + [wordCache];
              assert done + rest == rejoinedWords + Rejoin(firstSplit, wordIndex + 1, []);
              wordCache := [];
            }
          } else if |fragment| == 1 {
            wordCache := wordCache + fragment;
          } else if fragment != [] {
            assert rest == [fragment] + Rejoin(firstSplit, wordIndex + 1, wordCache);
            rejoinedWords := rejoinedWords + [fragment];
            assert done + rest == rejoinedWords + Rejoin(firstSplit, wordIndex + 1, wordCache);
          }
        } else {
          wordCache := wordCache + fragment;
          if wordCache != [] {
            rejoinedWords := rejoinedWords + [wordCache];
          }
        }
      }
      words := rejoinedWords;
    } else {
      words := SplitOn(input, sourceFormat.Boundary().delimiter);
    }
  }

  /** `convert(format, input)` of the source format: appends each normalised
      word and, after every word but the last, the destination's delimiter. */
  method Convert(sourceFormat: KaseFormat, format: KaseFormat, input: string) returns (out: string)
    ensures out == Converted(sourceFormat, format, input)
  {
    var split := SplitWords(input, sourceFormat);
    ghost var normalized := NormalizeAll(format, split);
    var builder: string := [];
    assert normalized[0..] == normalized;
    for wordIndex := 0 to |split|
      invariant builder + JoinWith(normalized[wordIndex..], format.Delimiter())
        == JoinWith(normalized, format.Delimiter())
    {
      JoinFrom(builder, normalized, format.Delimiter(), wordIndex);
      ghost var before := builder;
      var word := format.NormalizeWord(split[wordIndex], wordIndex);
      assert word == normalized[wordIndex];
      builder := builder + word;
      if wordIndex < |split| - 1 {
        builder := builder + format.Delimiter();
      }
      assert builder == before + normalized[wordIndex]
        + (if wordIndex < |split| - 1 then format.Delimiter() else []);
    }
    out := builder;
  }

  /** The rejoin keeps every character in order: the words concatenate to the
      cache followed by the remaining fragments. The cache is non-empty only
      while the current fragment is a single uppercase letter, which is what
      the lookahead split guarantees. */
  lemma {:induction false} RejoinFlatten(frags: seq<string>, i: nat, cache: string)
    requires i <= |frags|
    requires cache == [] || (i < |frags| && IsSingleUpper(frags[i]))
    ensures Flatten(Rejoin(frags, i, cache)) == cache + Flatten(frags[i..])
    decreases |frags| - i
  {
    if i == |frags| {
      assert frags[i..] == [];
    } else {
      assert frags[i..][1..] == frags[i + 1..];
      var r := Rejoin(frags, i, cache);
      if i < |frags| - 1 {
        if !IsSingleUpper(frags[i + 1]) {
          var c := cache + frags[i];
          RejoinFlatten(frags, i + 1, []);
          if c != [] {
            assert r[1..] == Rejoin(frags, i + 1, []);
          }
        } else if |frags[i]| == 1 {
          RejoinFlatten(frags, i + 1, cache + frags[i]);
        } else if frags[i] != [] {
          RejoinFlatten(frags, i + 1, cache);
          assert r[1..] == Rejoin(frags, i + 1, cache);
        } else {
          RejoinFlatten(frags, i + 1, cache);
        }
      } else {
        assert frags[i + 1..] == [];
      }
    }
  }

  /** From fragment 1 on, every word starts with an uppercase letter, except
      that the first word starts with the cache when there is one. */
  lemma {:induction false} RejoinStarts(frags: seq<string>, i: nat, cache: string)
    requires 1 <= i <= |frags|
    requires cache == [] || (i < |frags| && IsSingleUpper(frags[i]))
    requires forall k :: 1 <= k < |frags| ==> |frags[k]| >= 1 && IsUpper(frags[k][0])
    ensures var r := Rejoin(frags, i, cache);
      && (forall k :: 1 <= k < |r| ==> IsUpper(r[k][0]))
      && (|r| > 0 && cache != [] ==> r[0][0] == cache[0])
      && (|r| > 0 && cache == [] ==> IsUpper(r[0][0]))
    decreases |frags| - i
  {
    if i == |frags| {
    } else if i < |frags| - 1 {
      var c := cache + frags[i];
      assert c[0] == if cache != [] then cache[0] else frags[i][0];
      if !IsSingleUpper(frags[i + 1]) {
        RejoinStarts(frags, i + 1, []);
      } else if |frags[i]| == 1 {
        RejoinStarts(frags, i + 1, c);
      } else {
        RejoinStarts(frags, i + 1, cache);
      }
    } else {
      var c := cache + frags[i];
      assert c[0] == if cache != [] then cache[0] else frags[i][0];
    }
  }

  /** The first step of the rejoin, from an empty cache. */
  lemma RejoinFirst(frags: seq<string>)
    requires |frags| > 1
    ensures Rejoin(frags, 0, []) ==
      if IsSingleUpper(frags[1]) && |frags[0]| == 1 then Rejoin(frags, 1, frags[0])
      else if frags[0] != [] then [frags[0]] + Rejoin(frags, 1, [])
      else Rejoin(frags, 1, [])
  {
    assert [] + frags[0] == frags[0];
  }

  /** The rejoin from the first fragment keeps every word but the first
      starting with an uppercase letter. */
  lemma RejoinWordsStartUppercase(frags: seq<string>)
    requires |frags| >= 1
    requires forall k :: 1 <= k < |frags| ==> |frags[k]| >= 1 && IsUpper(frags[k][0])
    ensures var ws := Rejoin(frags, 0, []);
      forall k :: 1 <= k < |ws| ==> IsUpper(ws[k][0])
  {
    var ws := Rejoin(frags, 0, []);
    if |frags| > 1 {
      RejoinFirst(frags);
      if IsSingleUpper(frags[1]) && |frags[0]| == 1 {
        RejoinStarts(frags, 1, frags[0]);
      } else if frags[0] != [] {
        var r := Rejoin(frags, 1, []);
        RejoinStarts(frags, 1, []);
        assert ws == [frags[0]] + r;
        forall k | 1 <= k < |ws|
          ensures IsUpper(ws[k][0])
        {
          assert ws[k] == r[k - 1];
        }
      } else {
        RejoinStarts(frags, 1, []);
      }
    }
  }

  /** Without uppercase letters there is nothing to cut before. */
  lemma {:induction false} LookaheadSplitNoUpper(s: string)
    requires NoUpper(s)
    ensures LookaheadSplit(s) == [s]
  {
    if s != [] {
      LookaheadSplitNoUpper(s[1..]);
      assert [s[0]] + s[1..] == s;
    }
  }

  /** A non-empty string without uppercase letters is one camel word. */
  lemma CamelWordsNoUpper(s: string)
    requires s != [] && NoUpper(s)
    ensures CamelWords(s) == [s]
  {
    LookaheadSplitNoUpper(s);
    assert [] + s == s;
  }

  /** A prefix without uppercase letters joins the first fragment. */
  lemma {:induction false} LookaheadSplitPrefix(a: string, b: string)
    requires NoUpper(a)
    ensures LookaheadSplit(a + b) == [a + LookaheadSplit(b)[0]] + LookaheadSplit(b)[1..]
  {
    if a != [] {
      assert (a + b)[1..] == a[1..] + b;
      LookaheadSplitPrefix(a[1..], b);
      assert [a[0]] + (a[1..] + LookaheadSplit(b)[0]) == a + LookaheadSplit(b)[0];
    } else {
      var p := LookaheadSplit(b);
      assert a + b == b && a + p[0] == p[0];
      assert [p[0]] + p[1..] == p;
    }
  }

  /** A capitalised word is cut only before its first letter. */
  lemma LookaheadSplitOfCapitalized(s: string)
    requires |s| >= 1 && IsUpper(s[0]) && NoUpper(s[1..])
    ensures LookaheadSplit(s) == [[], s]
  {
    LookaheadSplitNoUpper(s[1..]);
    assert [s[0]] + s[1..] == s;
  }

  /** A capitalised word (an uppercase letter, then no uppercase) is one
      camel word. */
  lemma CamelWordsOfCapitalized(s: string)
    requires |s| >= 1 && IsUpper(s[0]) && NoUpper(s[1..])
    ensures CamelWords(s) == [s]
  {
    LookaheadSplitOfCapitalized(s);
    var frags: seq<string> := [[], s];
    assert [] + s == s && frags[0] + frags[0] == [];
    assert Rejoin(frags, 1, []) == [s];
  }

  /** The fragments of a run of uppercase letters: an empty one, then one
      per letter. */
  lemma {:induction false} LookaheadSplitOfUpper(s: string)
    requires forall k :: 0 <= k < |s| ==> IsUpper(s[k])
    ensures |LookaheadSplit(s)| == |s| + 1
    ensures LookaheadSplit(s)[0] == []
    ensures forall k :: 0 <= k < |s| ==> LookaheadSplit(s)[k + 1] == [s[k]]
  {
    if s != [] {
      LookaheadSplitOfUpper(s[1..]);
    }
  }

  /** A run of single uppercase letters is gathered into one acronym word. */
  lemma {:induction false} RejoinUpperRun(s: string, frags: seq<string>, i: nat)
    requires 1 <= i <= |s|
    requires |frags| == |s| + 1
    requires forall k :: 0 <= k < |s| ==> frags[k + 1] == [s[k]] && IsUpper(s[k])
    ensures Rejoin(frags, i, s[..i - 1]) == [s]
    decreases |s| - i
  {
    assert frags[i] == [s[i - 1]];
    assert s[..i - 1] + frags[i] == s[..i];
    if i < |s| {
      assert IsSingleUpper(frags[i + 1]) by { assert frags[i + 1] == [s[i]]; }
      RejoinUpperRun(s, frags, i + 1);
    } else {
      assert s[..i] == s;
    }
  }

  /** A run of single uppercase letters from fragment `i` to fragment `j`,
      not followed by another single uppercase letter, is gathered with the
      cache into one acronym word; the rejoin then goes on from fragment
      `j + 1` with an empty cache. */
  lemma {:induction false} RejoinAcronym(frags: seq<string>, i: nat, j: nat, c: string)
    requires i <= j < |frags|
    requires forall k :: i <= k <= j ==> IsSingleUpper(frags[k])
    requires j + 1 < |frags| ==> !IsSingleUpper(frags[j + 1])
    ensures Rejoin(frags, i, c) == [c + Flatten(frags[i..j + 1])] + Rejoin(frags, j + 1, [])
    decreases j - i
  {
    var run := frags[i..j + 1];
    assert run[0] == frags[i] && run[1..] == frags[i + 1..j + 1];
    assert Flatten(run) == frags[i] + Flatten(frags[i + 1..j + 1]);
    if i < j {
      assert IsSingleUpper(frags[i + 1]) && |frags[i]| == 1;
      assert Rejoin(frags, i, c) == Rejoin(frags, i + 1, c + frags[i]);
      RejoinAcronym(frags, i + 1, j, c + frags[i]);
      assert c + frags[i] + Flatten(frags[i + 1..j + 1]) == c + Flatten(run);
    } else {
      assert frags[i + 1..j + 1] == [];
      assert c + Flatten(run) == c + frags[i] && c + frags[i] != [];
      if j + 1 == |frags| {
        assert Rejoin(frags, j + 1, []) == [];
      }
    }
  }

  /** A non-empty string of uppercase letters is a single acronym word. */
  lemma CamelWordsAllUpper(s: string)
    requires s != [] && forall k :: 0 <= k < |s| ==> IsUpper(s[k])
    ensures CamelWords(s) == [s]
  {
    var frags := LookaheadSplit(s);
    LookaheadSplitOfUpper(s);
    RejoinUpperRun(s, frags, 1);
    assert s[..0] == [];
  }

  /** The total length of the words. */
  function TotalLength(ws: seq<string>): nat
  {
    if ws == [] then 0 else |ws[0]| + TotalLength(ws[1..])
  }

  lemma {:induction false} FlattenLength(ws: seq<string>)
    ensures |Flatten(ws)| == TotalLength(ws)
  {
    if ws != [] {
      FlattenLength(ws[1..]);
    }
  }

  /** Joining `n` words puts exactly `n - 1` delimiters between them. */
  lemma {:induction false} JoinLength(ws: seq<string>, d: string)
    requires |ws| >= 1
    ensures |JoinWith(ws, d)| == TotalLength(ws) + (|ws| - 1) * |d|
  {
    if |ws| > 1 {
      JoinLength(ws[1..], d);
    } else {
      assert ws[1..] == [];
    }
  }

  /** The join ends with the last word: no trailing delimiter. */
  lemma {:induction false} JoinSnoc(ws: seq<string>, w: string, d: string)
    requires |ws| >= 1
    ensures JoinWith(ws + [w], d) == JoinWith(ws, d) + d + w
  {
    if |ws| == 1 {
      assert (ws + [w])[1..] == [w];
    } else {
      assert (ws + [w])[1..] == ws[1..] + [w];
      JoinSnoc(ws[1..], w, d);
    }
  }

  /** The pieces of a literal split have the input's length minus one per
      delimiter. */
  lemma {:induction false} SplitOnLength(s: string, d: char)
    ensures TotalLength(SplitOn(s, d)) + Occurrences(s, d) == |s|
  {
    if s != [] {
      SplitOnLength(s[1..], d);
      var rest := SplitOn(s[1..], d);
      if s[0] == d {
        assert ([[]] + rest)[1..] == rest;
      } else {
        var r := [[s[0]] + rest[0]] + rest[1..];
        assert r[1..] == rest[1..];
        assert TotalLength(rest) == |rest[0]| + TotalLength(rest[1..]);
      }
    }
  }

  /** Normalisation preserves word lengths. */
  lemma {:induction false} NormalizeAllLength(f: KaseFormat, ws: seq<string>)
    ensures TotalLength(NormalizeAll(f, ws)) == TotalLength(ws)
  {
    if ws != [] {
      var n := NormalizeAll(f, ws);
      NormalizeAllLength(f, ws[1..]);
      TotalLengthPointwise(n[1..], NormalizeAll(f, ws[1..]));
    }
  }

  lemma {:induction false} TotalLengthPointwise(a: seq<string>, b: seq<string>)
    requires |a| == |b| && forall k :: 0 <= k < |a| ==> |a[k]| == |b[k]|
    ensures TotalLength(a) == TotalLength(b)
  {
    if a != [] {
      TotalLengthPointwise(a[1..], b[1..]);
    }
  }

  /** `w` is already in the letter case that literal-boundary format `f`
      gives its words. */
  predicate InCaseOf(f: KaseFormat, w: string)
  {
    match f
    case LowerHyphen | LowerUnderscore => NoUpper(w)
    case UpperHyphen | UpperUnderscore => NoLower(w)
    case CapitalHyphen | CapitalUnderscore => |w| == 0 || !IsLower(w[0])
    case LowerCamel | CapitalCamel => false
  }

  /** A word already in a literal format's case is normalised to itself. */
  lemma NormalizeWordKeeps(f: KaseFormat, w: string, i: int)
    requires InCaseOf(f, w)
    ensures f.NormalizeWord(w, i) == w
  {
    match f
    case LowerHyphen | LowerUnderscore => LowerStringIdentity(w);
    case UpperHyphen | UpperUnderscore => UpperStringIdentity(w);
    case CapitalHyphen | CapitalUnderscore => CapitalizeIdentity(w);
  }

  lemma NormalizeAllKeeps(f: KaseFormat, ws: seq<string>)
    requires forall k :: 0 <= k < |ws| ==> InCaseOf(f, ws[k])
    ensures NormalizeAll(f, ws) == ws
  {
    forall k | 0 <= k < |ws|
      ensures NormalizeAll(f, ws)[k] == ws[k]
    {
      NormalizeWordKeeps(f, ws[k], k);
    }
  }

  /** Converting between two literal-boundary formats whose case the words
      already have only swaps the delimiter, and converting back restores the
      input, provided the destination's delimiter does not occur in it. With
      `f == g` this is idempotence. */
  lemma LiteralRoundTrip(f: KaseFormat, g: KaseFormat, s: string)
    requires f.Boundary().Literal? && g.Boundary().Literal?
    requires f == g || g.Boundary().delimiter !in s
    requires forall w :: w in SplitOn(s, f.Boundary().delimiter) ==> InCaseOf(f, w) && InCaseOf(g, w)
    ensures Converted(f, g, s) == JoinWith(SplitOn(s, f.Boundary().delimiter), g.Delimiter())
    ensures Converted(g, f, Converted(f, g, s)) == s
  {
    var d, e := f.Boundary().delimiter, g.Boundary().delimiter;
    var pieces := SplitOn(s, d);
    assert f.Delimiter() == [d] && g.Delimiter() == [e];
    NormalizeAllKeeps(g, pieces);
    var t := JoinWith(pieces, [e]);
    assert forall k :: 0 <= k < |pieces| ==> e !in pieces[k];
    SplitOnJoin(pieces, e);
    NormalizeAllKeeps(f, pieces);
    JoinSplitOn(s, d);
  }

  /** The everyday case: between the two lowercase literal formats, or the
      two uppercase ones, a string already in that case round-trips. */
  lemma SameCaseRoundTrip(f: KaseFormat, g: KaseFormat, s: string)
    requires
      || ((f == LowerHyphen || f == LowerUnderscore) && (g == LowerHyphen || g == LowerUnderscore) && NoUpper(s))
      || ((f == UpperHyphen || f == UpperUnderscore) && (g == UpperHyphen || g == UpperUnderscore) && NoLower(s))
    requires f == g || g.Boundary().delimiter !in s
    ensures Converted(g, f, Converted(f, g, s)) == s
  {
    var pieces := SplitOn(s, f.Boundary().delimiter);
    forall w | w in pieces
      ensures InCaseOf(f, w) && InCaseOf(g, w)
    {
      var k :| 0 <= k < |pieces| && pieces[k] == w;
      forall j | 0 <= j < |w|
        ensures !IsUpper(w[j]) || !NoUpper(s)
        ensures !IsLower(w[j]) || !NoLower(s)
      {
        assert w[j] in s;
        var i :| 0 <= i < |s| && s[i] == w[j];
      }
    }
    LiteralRoundTrip(f, g, s);
  }

  /** Converting from a literal-boundary format keeps the length when the
      destination has a one-character delimiter, and drops one character per
      delimiter occurrence when the destination is a camel format. */
  lemma LiteralConvertedLength(f: KaseFormat, g: KaseFormat, s: string)
    requires f.Boundary().Literal?
    ensures |g.Delimiter()| == 1 ==> |Converted(f, g, s)| == |s|
    ensures g.Delimiter() == [] ==>
      |Converted(f, g, s)| + Occurrences(s, f.Boundary().delimiter) == |s|
  {
    var d := f.Boundary().delimiter;
    var pieces := SplitOn(s, d);
    var n := NormalizeAll(g, pieces);
    ConvertedFromLiteral(f, g, s);
    NormalizeAllLength(g, pieces);
    JoinedPiecesLength(s, d, n, g.Delimiter());
  }

  /** Conversion from a literal-boundary format splits on its delimiter. */
  lemma ConvertedFromLiteral(f: KaseFormat, g: KaseFormat, s: string)
    requires f.Boundary().Literal?
    ensures Converted(f, g, s) == JoinWith(NormalizeAll(g, SplitOn(s, f.Boundary().delimiter)), g.Delimiter())
  {
  }

  /** Joining words as long in total as the pieces of a literal split: a
      one-character delimiter gives back the length of the input, an empty one
      loses one character per occurrence. */
  lemma JoinedPiecesLength(s: string, d: char, n: seq<string>, gd: string)
    requires |n| == |SplitOn(s, d)| && TotalLength(n) == TotalLength(SplitOn(s, d))
    ensures |gd| == 1 ==> |JoinWith(n, gd)| == |s|
    ensures gd == [] ==> |JoinWith(n, gd)| + Occurrences(s, d) == |s|
  {
    JoinLength(n, gd);
    SplitOnLength(s, d);
    assert |n| - 1 == Occurrences(s, d);
    ShiftLength(|JoinWith(n, gd)|, TotalLength(n), |n| - 1, |gd|, |s|);
  }

  /** A join of the pieces adds `dl` characters between pieces, `o` of them,
      where the input had one delimiter character. */
  lemma ShiftLength(len: int, total: int, o: int, dl: int, n: int)
    requires len == total + o * dl && total + o == n
    ensures dl == 1 ==> len == n
    ensures dl == 0 ==> len + o == n
  {
  }

  /** Converting from a camel format inserts the destination's delimiter
      between the words and changes nothing else about the length. */
  lemma CamelConvertedLength(f: KaseFormat, g: KaseFormat, s: string)
    requires f.Boundary() == BeforeUppercase && s != []
    ensures |CamelWords(s)| >= 1
    ensures |Converted(f, g, s)| == |s| + (|CamelWords(s)| - 1) * |g.Delimiter()|
  {
    var ws := CamelWords(s);
    var n := NormalizeAll(g, ws);
    assert Converted(f, g, s) == JoinWith(n, g.Delimiter());
    JoinLength(n, g.Delimiter());
    NormalizeAllLength(g, ws);
    FlattenLength(ws);
  }
}
