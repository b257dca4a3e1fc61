/**
  The text-only heuristics that fill in the fields a Whisper transcript lacks:
  average log-probability, compression ratio, no-speech probability, and the
  placeholder token ids. Every estimator trims its input first, so all of them
  are functions of the trimmed text.
 */
module Estimators {
  import opened JsText

  function Max(a: real, b: real): real {
    if a >= b then a else b
  }

  function Min(a: real, b: real): real {
    if a <= b then a else b
  }

  /** `Math.max(lo, Math.min(hi, x))`. */
  function Clamp(x: real, lo: real, hi: real): (r: real)
    requires lo <= hi
    ensures lo <= r <= hi
    ensures lo <= x <= hi ==> r == x
    ensures x >= hi ==> r == hi
    ensures x <= lo ==> r == lo
  {
    Max(lo, Min(hi, x))
  }

  // Character classes of the regular expressions the estimators use.

  predicate IsAsciiLetter(c: char) {
    'a' <= c <= 'z' || 'A' <= c <= 'Z'
  }

  /** The punctuation the heuristics treat as ordinary: `.`, `,`, `!`, `?` and `-`. */
  predicate IsPlainPunct(c: char) {
    c == '.' || c == ',' || c == '!' || c == '?' || c == '-'
  }

  /** `/\d/.test(s)` */
  predicate HasDigit(s: string)
    ensures HasDigit(s) ==> !OnlyPunctuation(s)
  {
    exists k :: 0 <= k < |s| && IsDigit(s[k])
  }

  /** `/[^a-zA-Z0-9\s.,!?-]/.test(s)`: any whitespace character is allowed,
      not only the space. */
  predicate HasSpecialChar(s: string)
    ensures HasSpecialChar(s) ==> !OnlyPunctuation(s) && Trim(s) != []
  {
    TrimEmptyIffWs(s);
    exists k :: 0 <= k < |s| && !IsAsciiLetter(s[k]) && !IsDigit(s[k])
                             && !IsWs(s[k]) && !IsPlainPunct(s[k])
  }

  /** `s === s.toUpperCase() && s.length > 3`: true for a text without
      lower-case letters, digits-only text included. */
  predicate IsAllCaps(s: string)
    ensures IsAllCaps(s) ==> forall k :: 0 <= k < |s| ==> !('a' <= s[k] <= 'z')
  {
    s == ToUpper(s) && |s| > 3
  }

  /** `/^[.,!?\-\s]*$/.test(s)` */
  predicate OnlyPunctuation(s: string)
    ensures Trim(s) == [] ==> OnlyPunctuation(s)
  {
    TrimEmptyIffWs(s);
    forall k :: 0 <= k < |s| ==> IsPlainPunct(s[k]) || IsWs(s[k])
  }

  /** `/(.)\1{3,}/.test(s)`: one character four times in a row; `.` does not
      match a line terminator. */
  predicate HasRepeatedRun(s: string)
    ensures HasRepeatedRun(s) ==> |s| >= 4
  {
    exists k :: 0 <= k && k + 3 < |s| && !IsLineTerminator(s[k])
                && s[k] == s[k + 1] && s[k] == s[k + 2] && s[k] == s[k + 3]
  }

  /** A single word of fewer than four characters earns the only bonus. */
  predicate IsShortSingleWord(t: string) {
    |SplitWs(t)| == 1 && |t| < 4
  }

  /** `estimateLogProb`: the text is trimmed, then scored. */
  function EstimateLogProb(text: string): (r: real)
    ensures -4.0 <= r <= -0.1
    ensures r == -3.0 <==> Trim(text) == []
  {
    LogProbOfTrimmed(Trim(text))
  }

  /** The score `estimateLogProb` gives its trimmed text `t`: -3.0 for the
      empty text, otherwise the base -0.5 with its adjustments, clamped. */
  function LogProbOfTrimmed(t: string): (r: real)
    ensures -4.0 <= r <= -0.1
    ensures t == [] ==> r == -3.0
    ensures t != [] ==> -1.7 <= r <= -0.3
  {
    if |t| == 0 then -3.0
    else
      var wordCount := |SplitWs(t)|;
      var avgWordLength := |t| as real / wordCount as real;
      var base := -0.5;
      var afterLength := if avgWordLength > 8.0 then base - 0.3 else base;
      var afterNumbers := if HasDigit(t) then afterLength - 0.2 else afterLength;
      var afterSpecial := if HasSpecialChar(t) then afterNumbers - 0.3 else afterNumbers;
      var afterCaps := if IsAllCaps(t) then afterSpecial - 0.4 else afterSpecial;
      var logProb := if wordCount == 1 && |t| < 4 then afterCaps + 0.2 else afterCaps;
      Clamp(logProb, -4.0, -0.1)
  }

  /** The empty-text value -3.0 is reached by empty or whitespace-only text and nothing else. */
  lemma LogProbEmpty(text: string)
    ensures EstimateLogProb(text) == -3.0 <==> AllWs(text)
  {
    TrimEmptyIffWs(text);
  }

  /** The highest estimate, -0.3, is given exactly to a short single word with
      neither digits nor special characters: the bonus is the only way above
      the base value, and any penalty cancels it. */
  lemma LogProbBest(t: string)
    ensures LogProbOfTrimmed(t) == -0.3
            <==> t != [] && IsShortSingleWord(t) && !HasDigit(t) && !HasSpecialChar(t)
  {
  }

  /** Any other non-empty text scores at most the base value -0.5. */
  lemma LogProbAtMostBase(t: string)
    requires t != [] && !IsShortSingleWord(t)
    ensures LogProbOfTrimmed(t) <= -0.5
  {
  }

  /** Leading and trailing whitespace do not change the estimate. */
  lemma LogProbIgnoresPadding(w1: string, t: string, w2: string)
    requires AllWs(w1) && AllWs(w2)
    ensures EstimateLogProb(w1 + t + w2) == EstimateLogProb(t)
  {
    TrimIgnoresPadding(w1, t, w2);
  }

  /** `new Set(words)` */
  function Elements(xs: seq<string>): (r: set<string>)
    ensures forall x :: x in r <==> x in xs
    ensures |r| <= |xs|
    ensures |r| == |xs| <==> Distinct(xs)
    ensures xs != [] ==> |r| >= 1
  {
    if xs == [] then {}
    else
      var rest := Elements(xs[1..]);
      assert Distinct(xs) ==> Distinct(xs[1..]) by {
        if Distinct(xs) {
          forall i, j | 0 <= i < j < |xs| - 1 ensures xs[1..][i] != xs[1..][j] {
            assert xs[1..][i] == xs[i + 1] && xs[1..][j] == xs[j + 1];
          }
        }
      }
      assert xs[0] in rest ==> !Distinct(xs) by {
        if xs[0] in rest {
          var j :| 0 <= j < |xs[1..]| && xs[1..][j] == xs[0];
          assert xs[j + 1] == xs[0];
        }
      }
      assert xs[0] !in rest && Distinct(xs[1..]) ==> Distinct(xs) by {
        if xs[0] !in rest && Distinct(xs[1..]) {
          forall i, j | 0 <= i < j < |xs| ensures xs[i] != xs[j] {
            if i > 0 {
              assert xs[i] == xs[1..][i - 1] && xs[j] == xs[1..][j - 1];
            } else {
              assert xs[j] == xs[1..][j - 1];
            }
          }
        }
      }
      {xs[0]} + rest
  }

  predicate Distinct(xs: seq<string>) {
    forall i, j :: 0 <= i < j < |xs| ==> xs[i] != xs[j]
  }

  /** The words the compression estimate counts: the lower-cased trimmed text
      split on whitespace. */
  function Words(t: string): (r: seq<string>)
    ensures |r| >= 1
    ensures forall k :: 0 <= k < |r| ==> NoWs(r[k])
  {
    SplitWs(ToLower(t))
  }

  /** `estimateCompressionRatio`: the text is trimmed, then scored. */
  function EstimateCompressionRatio(text: string): (r: real)
    ensures 1.0 <= r <= 4.0
    ensures r == 1.0 <==> Trim(text) == []
  {
    RatioOfTrimmed(Trim(text))
  }

  /** The ratio `estimateCompressionRatio` gives its trimmed text `t`: 1.0 for
      the empty text, otherwise 2.0 raised by half the excess of words over
      distinct lower-cased words, clamped. */
  function RatioOfTrimmed(t: string): (r: real)
    ensures 1.0 <= r <= 4.0
    ensures t == [] ==> r == 1.0
    ensures t != [] ==> 2.0 <= r
  {
    if |t| == 0 then 1.0
    else
      var words := Words(t);
      var unique := Elements(words);
      RatioAtLeastOne(|words|, |unique|);
      var repetitionRatio := |words| as real / |unique| as real;
      var adjustedRatio := 2.0 + (repetitionRatio - 1.0) * 0.5;
      Clamp(adjustedRatio, 1.0, 4.0)
  }

  lemma RatioAtLeastOne(n: nat, u: nat)
    requires 0 < u <= n
    ensures n as real / u as real >= 1.0
    ensures n as real / u as real == 1.0 <==> n == u
  {
    var q := n as real / u as real;
    assert q * u as real == n as real;
  }

  /** A text whose (lower-cased) words are all different gets exactly 2.0, and
      only such a text does. */
  lemma CompressionDistinct(t: string)
    requires t != []
    ensures RatioOfTrimmed(t) == 2.0 <==> Distinct(Words(t))
  {
    var words := Words(t);
    RatioAtLeastOne(|words|, |Elements(words)|);
  }

  /** The estimate does not depend on letter case. */
  lemma CompressionCaseInsensitive(a: string, b: string)
    requires ToLower(a) == ToLower(b)
    ensures EstimateCompressionRatio(a) == EstimateCompressionRatio(b)
  {
    TrimLower(a);
    TrimLower(b);
    assert ToLower(Trim(a)) == ToLower(Trim(b));
    assert |Trim(a)| == |ToLower(Trim(a))|;
  }

  lemma CompressionIgnoresPadding(w1: string, t: string, w2: string)
    requires AllWs(w1) && AllWs(w2)
    ensures EstimateCompressionRatio(w1 + t + w2) == EstimateCompressionRatio(t)
  {
    TrimIgnoresPadding(w1, t, w2);
  }


  /** `estimateNoSpeechProb`: the text is trimmed, then scored. */
  function EstimateNoSpeechProb(text: string): (r: real)
    ensures 0.0 <= r <= 0.8
    ensures r == 0.8 <==> Trim(text) == []
  {
    NoSpeechOfTrimmed(Trim(text))
  }

  /** The probability `estimateNoSpeechProb` gives its trimmed text `t`: the
      first rule that matches decides. */
  function NoSpeechOfTrimmed(t: string): (r: real)
    ensures 0.0 <= r <= 0.8
    ensures r == 0.8 <==> t == []
  {
    if |t| == 0 then 0.8
    else if |t| < 3 then 0.3
    else if OnlyPunctuation(t) then 0.7
    else if HasRepeatedRun(t) then 0.4
    else if |t| < 5 then 0.2
    else Max(0.0, Min(0.1, 0.05 - |t| as real * 0.001))
  }

  /** A text the rules flag (too short, only punctuation, or a repeated
      character) gets a probability above 0.05, and ordinary text never does. */
  lemma NoSpeechFlagged(t: string)
    ensures NoSpeechOfTrimmed(t) > 0.05 <==> |t| < 5 || OnlyPunctuation(t) || HasRepeatedRun(t)
  {
  }

  /** Ordinary text of 50 characters or more gets exactly 0. */
  lemma NoSpeechLongText(t: string)
    requires |t| >= 50 && !OnlyPunctuation(t) && !HasRepeatedRun(t)
    ensures NoSpeechOfTrimmed(t) == 0.0
  {
  }

  /** Among ordinary texts below 50 characters, the longer one gets the lower probability. */
  lemma NoSpeechShrinksWithLength(a: string, b: string)
    requires |a| >= 5 && !OnlyPunctuation(a) && !HasRepeatedRun(a)
    requires !OnlyPunctuation(b) && !HasRepeatedRun(b)
    requires |a| < |b| <= 50
    ensures NoSpeechOfTrimmed(b) < NoSpeechOfTrimmed(a)
  {
  }

  /** Trimming the text beforehand changes no estimate. */
  lemma EstimatesOfTrimmed(text: string)
    ensures EstimateLogProb(Trim(text)) == EstimateLogProb(text)
    ensures EstimateCompressionRatio(Trim(text)) == EstimateCompressionRatio(text)
    ensures EstimateNoSpeechProb(Trim(text)) == EstimateNoSpeechProb(text)
  {
    TrimOfTrimmed(Trim(text));
  }

  lemma NoSpeechIgnoresPadding(w1: string, t: string, w2: string)
    requires AllWs(w1) && AllWs(w2)
    ensures EstimateNoSpeechProb(w1 + t + w2) == EstimateNoSpeechProb(t)
  {
    TrimIgnoresPadding(w1, t, w2);
  }

  /** `text.split('').reduce((sum, char) => sum + char.charCodeAt(0), 0)` */
  function CharSum(s: string): (r: nat)
    ensures r <= |s| * 0x10FFFF
    ensures |s| == 1 ==> r == s[0] as int
  {
    if s == [] then 0 else CharSum(s[..|s| - 1]) + s[|s| - 1] as int
  }

  /** `generatePlaceholderTokens`: `max(1, ceil(length / 4))` ids, the i-th
      being `(charSum * 7 + i * 13) % 50000`. */
  function GeneratePlaceholderTokens(text: string): (r: seq<nat>)
    ensures |r| >= 1 && 4 * (|r| - 1) < |text| + (if text == [] then 1 else 0) <= 4 * |r|
    ensures forall i :: 0 <= i < |r| ==> r[i] < 50000
    ensures r[0] == CharSum(text) * 7 % 50000
    ensures forall i :: 0 <= i < |r| - 1 ==> r[i + 1] == (r[i] + 13) % 50000
  {
    var estimatedTokenCount := if text == [] then 1 else (|text| + 3) / 4;
    var charSum := CharSum(text);
    var tokens := seq(estimatedTokenCount, i => (charSum * 7 + i * 13) % 50000);
    assert forall i :: 0 <= i < |tokens| - 1 ==> tokens[i + 1] == (tokens[i] + 13) % 50000 by {
      forall i | 0 <= i < |tokens| - 1 ensures tokens[i + 1] == (tokens[i] + 13) % 50000 {
        ModStep(charSum * 7 + i * 13);
      }
    }
    tokens
  }

  lemma ModStep(a: nat)
    ensures (a + 13) % 50000 == (a % 50000 + 13) % 50000
  {
  }

  lemma {:induction false} CharSumAppend(a: string, b: string)
    ensures CharSum(a + b) == CharSum(a) + CharSum(b)
    decreases |b|
  {
    if b == [] {
      assert a + b == a;
    } else {
      CharSumAppend(a, b[..|b| - 1]);
      assert (a + b)[..|a + b| - 1] == a + b[..|b| - 1];
    }
  }

  /** The character sum does not depend on the order of the characters. */
  lemma {:induction false} CharSumPermutation(a: string, b: string)
    requires multiset(a) == multiset(b)
    ensures CharSum(a) == CharSum(b)
    decreases |a|
  {
    if a != [] {
      var x := a[|a| - 1];
      assert x in multiset(b);
      var j :| 0 <= j < |b| && b[j] == x;
      var rest := b[..j] + b[j + 1..];
      assert b == b[..j] + [x] + b[j + 1..];
      assert a == a[..|a| - 1] + [x];
      assert multiset(a) == multiset(a[..|a| - 1]) + multiset{x};
      assert multiset(b) == multiset(b[..j]) + multiset{x} + multiset(b[j + 1..]);
      assert multiset(rest) == multiset(b[..j]) + multiset(b[j + 1..]);
      assert multiset(b) == multiset(rest) + multiset{x};
      assert multiset(a[..|a| - 1]) == multiset(a) - multiset{x};
      assert multiset(rest) == multiset(b) - multiset{x};
      CharSumPermutation(a[..|a| - 1], rest);
      CharSumAppend(b[..j] + [x], b[j + 1..]);
      CharSumAppend(b[..j], [x]);
      CharSumAppend(b[..j], b[j + 1..]);
      CharSumAppend(a[..|a| - 1], [x]);
      assert CharSum([x]) == x as int by {
        assert [x][..0] == [];
      }
    }
  }

  /** The placeholder ids depend only on which characters occur, and how often. */
  lemma TokensIgnoreOrder(a: string, b: string)
    requires multiset(a) == multiset(b)
    ensures GeneratePlaceholderTokens(a) == GeneratePlaceholderTokens(b)
  {
    CharSumPermutation(a, b);
    assert |a| == |multiset(a)| == |multiset(b)| == |b|;
  }

  // Worked examples. Each text is a parameter fixed by the precondition, so
  // that the solver reasons from the lemmas above instead of evaluating the
  // estimators on a literal by unfolding.

  /** Digits-only text longer than three characters counts as all caps. */
  lemma LogProbDigitsCountAsCaps(text: string)
    requires text == "2024"
    ensures EstimateLogProb(text) == -1.1
  {
    TrimOfTrimmed(text);
    DigitsScore(text);
  }

  lemma DigitsScore(t: string)
    requires t == "2024"
    ensures LogProbOfTrimmed(t) == -1.1
  {
    SplitSingleWord(t);
    DigitsOnly(t);
    assert ToUpper(t) == t;
  }

  /** Text made of digits only has a digit and no special character. */
  lemma DigitsOnly(s: string)
    requires s != [] && forall k :: 0 <= k < |s| ==> IsDigit(s[k])
    ensures HasDigit(s) && !HasSpecialChar(s)
  {
    assert IsDigit(s[0]);
  }

  /** The average word length counts the spaces: two 8-letter words average 8.5. */
  lemma LogProbLengthCountsSpaces(ws: seq<string>, text: string)
    requires ws == ["abcdefgh", "abcdefgh"] && text == "abcdefgh abcdefgh"
    ensures EstimateLogProb(text) == -0.8
  {
    assert IsWord(ws[0]);
    assert text == JoinSpace(ws);
    SplitJoinWords(ws);
    TrimOfTrimmed(text);
    PlainWords(text);
    assert ToUpper(text)[0] != text[0];
  }

  /** Text made of letters and spaces has no digit and no special character. */
  lemma PlainWords(s: string)
    requires forall k :: 0 <= k < |s| ==> IsAsciiLetter(s[k]) || s[k] == ' '
    ensures !HasDigit(s) && !HasSpecialChar(s)
  {
  }

  predicate NoCapitals(s: string) {
    forall k :: 0 <= k < |s| ==> !('A' <= s[k] <= 'Z')
  }

  /** Text without capital letters is its own lower case. */
  lemma LowerOfLower(s: string)
    requires NoCapitals(s)
    ensures ToLower(s) == s
  {
  }

  lemma {:induction false} NoCapitalsJoin(ws: seq<string>)
    requires forall k :: 0 <= k < |ws| ==> NoCapitals(ws[k])
    ensures NoCapitals(JoinSpace(ws))
  {
    if |ws| > 1 {
      NoCapitalsJoin(ws[1..]);
      var a := ws[0] + " ";
      var b := JoinSpace(ws[1..]);
      assert NoCapitals(ws[0]);
      assert forall k :: 0 <= k < |a + b| ==> (a + b)[k] == if k < |a| then a[k] else b[k - |a|];
    }
  }

  /** Repetition raises the ratio: four equal words get 3.5, four different words 2.0. */
  lemma CompressionRepetition(ws: seq<string>, vs: seq<string>)
    requires ws == ["the", "the", "the", "the"]
    requires vs == ["the", "quick", "brown", "fox"]
    ensures EstimateCompressionRatio(JoinSpace(ws)) == 3.5
    ensures EstimateCompressionRatio(JoinSpace(vs)) == 2.0
  {
    assert IsWord(ws[0]) && NoCapitals(ws[0]);
    CompressionRepeated(ws[0], ws);
    CompressionVaried(vs);
  }

  /** The lower-cased words of words joined by spaces are those words. */
  lemma WordsOfJoin(ws: seq<string>)
    requires |ws| >= 1
    requires forall k :: 0 <= k < |ws| ==> IsWord(ws[k]) && NoCapitals(ws[k])
    ensures JoinSpace(ws) != [] && Trim(JoinSpace(ws)) == JoinSpace(ws)
    ensures Words(JoinSpace(ws)) == ws
  {
    var text := JoinSpace(ws);
    SplitJoinWords(ws);
    TrimOfTrimmed(text);
    NoCapitalsJoin(ws);
    LowerOfLower(text);
  }

  /** The ratio of words joined by spaces, from their number and the number of distinct ones. */
  lemma CompressionOfWords(ws: seq<string>, n: nat, u: nat)
    requires |ws| >= 1
    requires forall k :: 0 <= k < |ws| ==> IsWord(ws[k]) && NoCapitals(ws[k])
    requires |ws| == n && |Elements(ws)| == u
    ensures u >= 1
    ensures EstimateCompressionRatio(JoinSpace(ws)) == Clamp(2.0 + (n as real / u as real - 1.0) * 0.5, 1.0, 4.0)
  {
    var text := JoinSpace(ws);
    WordsOfJoin(ws);
    assert EstimateCompressionRatio(text) == RatioOfTrimmed(text);
    RatioOfWords(text);
  }

  lemma RatioOfWords(t: string)
    requires t != []
    ensures |Elements(Words(t))| >= 1
    ensures RatioOfTrimmed(t)
            == Clamp(2.0 + (|Words(t)| as real / |Elements(Words(t))| as real - 1.0) * 0.5, 1.0, 4.0)
  {
    var words := Words(t);
    var repetitionRatio := |words| as real / |Elements(words)| as real;
    assert RatioOfTrimmed(t) == Clamp(2.0 + (repetitionRatio - 1.0) * 0.5, 1.0, 4.0);
  }

  lemma AdjustedRatio(n: nat, u: nat)
    requires (n, u) == (4, 1) || (n, u) == (4, 4)
    ensures (n, u) == (4, 1) ==> Clamp(2.0 + (n as real / u as real - 1.0) * 0.5, 1.0, 4.0) == 3.5
    ensures (n, u) == (4, 4) ==> Clamp(2.0 + (n as real / u as real - 1.0) * 0.5, 1.0, 4.0) == 2.0
  {
  }

  lemma ElementsOfRepeat(xs: seq<string>, w: string)
    requires |xs| >= 1 && forall k :: 0 <= k < |xs| ==> xs[k] == w
    ensures |Elements(xs)| == 1
  {
    assert Elements(xs) == {w} by {
      assert xs[0] == w;
    }
  }

  /** Any lower-case word said four times gets 3.5. */
  lemma CompressionRepeated(w: string, ws: seq<string>)
    requires IsWord(w) && NoCapitals(w) && ws == [w, w, w, w]
    ensures EstimateCompressionRatio(JoinSpace(ws)) == 3.5
  {
    ElementsOfRepeat(ws, w);
    CompressionOfWords(ws, 4, 1);
    AdjustedRatio(4, 1);
  }

  /** A lower-case word said five times or more drives the ratio to 5 or
      beyond, where the estimate saturates at 4.0. */
  lemma CompressionSaturated(w: string, ws: seq<string>)
    requires IsWord(w) && NoCapitals(w)
    requires |ws| >= 5 && forall k :: 0 <= k < |ws| ==> ws[k] == w
    ensures EstimateCompressionRatio(JoinSpace(ws)) == 4.0
  {
    ElementsOfRepeat(ws, w);
    CompressionOfWords(ws, |ws|, 1);
    RatioSaturates(|ws|);
  }

  lemma RatioSaturates(n: nat)
    requires n >= 5
    ensures Clamp(2.0 + (n as real / 1 as real - 1.0) * 0.5, 1.0, 4.0) == 4.0
  {
    assert n as real / 1 as real == n as real;
  }

  lemma CompressionVaried(ws: seq<string>)
    requires ws == ["the", "quick", "brown", "fox"]
    ensures EstimateCompressionRatio(JoinSpace(ws)) == 2.0
  {
    assert IsWord(ws[0]) && IsWord(ws[1]) && IsWord(ws[2]) && IsWord(ws[3]);
    assert NoCapitals(ws[0]) && NoCapitals(ws[1]) && NoCapitals(ws[2]) && NoCapitals(ws[3]);
    assert ws[0][0] == 't' && ws[1][0] == 'q' && ws[2][0] == 'b' && ws[3][0] == 'f';
    assert Distinct(ws);
    CompressionOfWords(ws, 4, 4);
    AdjustedRatio(4, 4);
  }

  /** First match wins: four dots are punctuation (0.7) before they are a
      repeated character (0.4); four equal letters are a repetition (0.4)
      before they are short text (0.2). */
  lemma NoSpeechFirstMatch(dots: string, letters: string)
    requires dots == "...." && letters == "aaaa"
    ensures EstimateNoSpeechProb(dots) == 0.7
    ensures EstimateNoSpeechProb(letters) == 0.4
  {
    DotsScore(dots);
    LettersScore(letters);
  }

  lemma DotsScore(t: string)
    requires t == "...."
    ensures EstimateNoSpeechProb(t) == 0.7
  {
    TrimOfTrimmed(t);
    assert OnlyPunctuation(t);
  }

  lemma LettersScore(t: string)
    requires t == "aaaa"
    ensures EstimateNoSpeechProb(t) == 0.4
  {
    TrimOfTrimmed(t);
    assert !IsPlainPunct(t[0]) && !IsWs(t[0]);
    assert t[0] == t[1] == t[2] == t[3];
  }
}
