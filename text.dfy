/**
  The ECMAScript string operations the transcript transformer relies on:
  `trim`, `replace(/\s+/g, ' ')`, `split(/\s+/)`, `join(' ')` and case mapping.
  Strings are sequences of Unicode scalar values.
 */
module JsText {

  /** The characters matched by `\s` in an ECMAScript regular expression; the
      same set (WhiteSpace and LineTerminator) is what `String.prototype.trim`
      removes. */
  predicate IsWs(c: char) {
    || c == '\t' || c == '\n' || c == '\U{B}' || c == '\U{C}' || c == '\r' || c == ' '
    || c == '\U{A0}' || c == '\U{1680}' || ('\U{2000}' <= c <= '\U{200A}')
    || c == '\U{2028}' || c == '\U{2029}' || c == '\U{202F}' || c == '\U{205F}'
    || c == '\U{3000}' || c == '\U{FEFF}'
  }

  /** `\d`: an ASCII decimal digit. */
  predicate IsDigit(c: char) {
    '0' <= c <= '9'
  }

  /** The line terminators, which the regular-expression atom `.` does not match. */
  predicate IsLineTerminator(c: char) {
    c == '\n' || c == '\r' || c == '\U{2028}' || c == '\U{2029}'
  }

  predicate AllWs(s: string) {
    forall k :: 0 <= k < |s| ==> IsWs(s[k])
  }

  predicate NoWs(s: string) {
    forall k :: 0 <= k < |s| ==> !IsWs(s[k])
  }

  /** What `trim` guarantees: no whitespace at either end. */
  predicate NoEdgeWs(s: string) {
    s == [] || (!IsWs(s[0]) && !IsWs(s[|s| - 1]))
  }

  /** Whitespace at position `k` and at the next one. */
  predicate DoubleWsAt(s: string, k: nat)
    requires k + 1 < |s|
  {
    IsWs(s[k]) && IsWs(s[k + 1])
  }

  predicate NoDoubleWs(s: string) {
    forall k: nat :: k + 1 < |s| ==> !DoubleWsAt(s, k)
  }

  predicate SpacesOnly(s: string) {
    forall k :: 0 <= k < |s| && IsWs(s[k]) ==> s[k] == ' '
  }

  /** What `replace(/\s+/g, ' ')` guarantees: every whitespace run is one space. */
  predicate Collapsed(s: string) {
    SpacesOnly(s) && NoDoubleWs(s)
  }

  /** The non-whitespace characters of `s`, in order: the content that the
      whitespace operations must keep. */
  function NonWs(s: string): (r: string)
    ensures NoWs(r) && |r| <= |s|
  {
    if s == [] then []
    else if IsWs(s[0]) then NonWs(s[1..])
    else [s[0]] + NonWs(s[1..])
  }

  lemma {:induction false} NonWsAppend(a: string, b: string)
    ensures NonWs(a + b) == NonWs(a) + NonWs(b)
  {
    if a != [] {
      assert (a + b)[1..] == a[1..] + b;
      NonWsAppend(a[1..], b);
    } else {
      assert a + b == b;
    }
  }

  lemma {:induction false} NonWsOfWs(a: string)
    requires AllWs(a)
    ensures NonWs(a) == []
  {
    if a != [] {
      NonWsOfWs(a[1..]);
    }
  }

  /** `String.prototype.trimStart`: drops the leading whitespace, and only that. */
  function TrimStart(s: string): (r: string)
    ensures |r| <= |s|
    ensures r == [] || !IsWs(r[0])
    ensures r != [] ==> r[|r| - 1] == s[|s| - 1]
    ensures r == [] && s != [] ==> IsWs(s[|s| - 1])
  {
    if s != [] && IsWs(s[0]) then TrimStart(s[1..]) else s
  }

  lemma TrimStartShorter(s: string)
    requires s != [] && IsWs(s[0])
    ensures |TrimStart(s)| < |s|
  {
    assert TrimStart(s) == TrimStart(s[1..]);
  }

  /** What `trimStart` removes is a whitespace prefix. */
  lemma {:induction false} TrimStartSplit(s: string) returns (p: string)
    ensures s == p + TrimStart(s) && AllWs(p)
  {
    if s != [] && IsWs(s[0]) {
      var rest := TrimStartSplit(s[1..]);
      p := [s[0]] + rest;
      assert TrimStart(s) == TrimStart(s[1..]);
      Assoc([s[0]], rest, TrimStart(s));
      assert [s[0]] + s[1..] == s;
    } else {
      p := [];
      PrependEmpty(p, s);
    }
  }

  /** `String.prototype.trimEnd`: drops the trailing whitespace, and only that. */
  function TrimEnd(s: string): (r: string)
    ensures |r| <= |s| && r == s[..|r|]
    ensures WsFrom(s, |r|)
    ensures r == [] || !IsWs(r[|r| - 1])
  {
    if s != [] && IsWs(s[|s| - 1]) then
      TrimEnd(s[..|s| - 1])
    else s
  }

  /** Every character from position `i` on is whitespace. */
  predicate WsFrom(s: string, i: nat) {
    forall k :: i <= k < |s| ==> IsWs(s[k])
  }

  lemma WsFromSlice(s: string, i: nat)
    requires i <= |s| && WsFrom(s, i)
    ensures AllWs(s[i..])
  {
  }

  /** `String.prototype.trim`. */
  function Trim(s: string): (r: string)
    ensures NoEdgeWs(r)
    ensures |r| <= |s|
  {
    TrimEnd(TrimStart(s))
  }

  /** `trim` returns the empty string exactly for whitespace-only text. */
  lemma TrimEmptyIffWs(s: string)
    ensures Trim(s) == [] <==> AllWs(s)
  {
    if AllWs(s) {
      TrimStartOfWs(s);
    } else if Trim(s) == [] {
      var p := TrimStartSplit(s);
      var a := TrimStart(s);
      assert AllWs(a) by {
        assert a[0..] == a;
      }
      AllWsAppend(p, a);
      assert false;
    }
  }

  lemma AllWsAppend(a: string, b: string)
    requires AllWs(a) && AllWs(b)
    ensures AllWs(a + b)
  {
    assert forall k :: 0 <= k < |a + b| ==> (a + b)[k] == if k < |a| then a[k] else b[k - |a|];
  }

  /** The trimmed text with the whitespace `trim` removed on either side. */
  lemma TrimParts(s: string) returns (p: string, q: string)
    ensures s == p + Trim(s) + q
    ensures AllWs(p) && AllWs(q)
  {
    var a := TrimStart(s);
    var r := TrimEnd(a);
    p := TrimStartSplit(s);
    TrimEndSplit(a);
    q := a[|r|..];
    Assoc(p, r, q);
  }

  /** The trimmed text is a slice of the original with only whitespace around it. */
  lemma TrimIsSlice(s: string) returns (i: nat)
    ensures i + |Trim(s)| <= |s|
    ensures Trim(s) == s[i..i + |Trim(s)|]
    ensures AllWs(s[..i]) && AllWs(s[i + |Trim(s)|..])
  {
    var p, q := TrimParts(s);
    SliceOfParts(s, p, Trim(s), q);
    i := |p|;
  }

  /** What `trimEnd` removes is a whitespace suffix. */
  lemma TrimEndSplit(s: string)
    ensures s == TrimEnd(s) + s[|TrimEnd(s)|..]
    ensures AllWs(s[|TrimEnd(s)|..])
  {
    var r := TrimEnd(s);
    WsFromSlice(s, |r|);
  }

  lemma SliceOfParts<T>(s: seq<T>, p: seq<T>, r: seq<T>, q: seq<T>)
    requires s == p + r + q
    ensures |p| + |r| <= |s|
    ensures s[..|p|] == p && s[|p|..|p| + |r|] == r && s[|p| + |r|..] == q
  {
  }

  /** Leading and trailing whitespace never change what `trim` returns. */
  lemma TrimIgnoresPadding(w1: string, t: string, w2: string)
    requires AllWs(w1) && AllWs(w2)
    ensures Trim(w1 + t + w2) == Trim(t)
  {
    Assoc(w1, t, w2);
    TrimStartPadding(w1, t + w2);
    if TrimStart(t) == [] {
      TrimStartBlankPadded(t, w2);
    } else {
      TrimStartAppend(t, w2);
      TrimEndPadding(TrimStart(t), w2);
    }
  }

  lemma TrimStartBlankPadded(t: string, w: string)
    requires TrimStart(t) == [] && AllWs(w)
    ensures TrimStart(t + w) == []
  {
    var p := TrimStartSplit(t);
    assert t == p + [];
    AllWsAppend(t, w);
    TrimStartOfWs(t + w);
  }

  lemma {:induction false} TrimStartPadding(w: string, t: string)
    requires AllWs(w)
    ensures TrimStart(w + t) == TrimStart(t)
  {
    if w != [] {
      assert (w + t)[0] == w[0];
      assert (w + t)[1..] == w[1..] + t;
      TrimStartPadding(w[1..], t);
    } else {
      assert w + t == t;
    }
  }

  lemma {:induction false} TrimStartAppend(t: string, u: string)
    requires TrimStart(t) != []
    ensures TrimStart(t + u) == TrimStart(t) + u
  {
    assert (t + u)[0] == t[0];
    if IsWs(t[0]) {
      assert (t + u)[1..] == t[1..] + u;
      TrimStartAppend(t[1..], u);
    }
  }

  lemma {:induction false} TrimStartOfWs(w: string)
    requires AllWs(w)
    ensures TrimStart(w) == []
  {
    if w != [] {
      TrimStartOfWs(w[1..]);
    }
  }

  lemma {:induction false} TrimEndPadding(t: string, w: string)
    requires AllWs(w)
    ensures TrimEnd(t + w) == TrimEnd(t)
  {
    if w != [] {
      assert (t + w)[|t + w| - 1] == w[|w| - 1];
      assert (t + w)[..|t + w| - 1] == t + w[..|w| - 1];
      TrimEndPadding(t, w[..|w| - 1]);
    } else {
      assert t + w == t;
    }
  }

  /** `trim` is idempotent: a text without edge whitespace is its own trim. */
  lemma TrimOfTrimmed(s: string)
    requires NoEdgeWs(s)
    ensures Trim(s) == s
  {
  }

  /** `replace(/\s+/g, ' ')`: each maximal run of whitespace becomes one space. */
  function Collapse(s: string): (r: string)
    ensures Collapsed(r)
    ensures r == [] <==> s == []
    ensures r != [] ==> (IsWs(r[0]) <==> IsWs(s[0]))
    ensures r != [] ==> (IsWs(r[|r| - 1]) <==> IsWs(s[|s| - 1]))
    decreases |s|
  {
    if s == [] then []
    else if IsWs(s[0]) then
      var r := Collapse(TrimStart(s));
      NoDoubleWsCons(' ', r);
      [' '] + r
    else
      var r := Collapse(s[1..]);
      NoDoubleWsCons(s[0], r);
      [s[0]] + r
  }

  lemma NoDoubleWsCons(c: char, u: string)
    requires NoDoubleWs(u) && (u == [] || !IsWs(c) || !IsWs(u[0]))
    ensures NoDoubleWs([c] + u)
  {
    var r := [c] + u;
    forall k: nat | k + 1 < |r| ensures !DoubleWsAt(r, k) {
      if k > 0 {
        assert !DoubleWsAt(u, k - 1);
      }
    }
  }

  /** The collapse keeps every non-whitespace character, in order. */
  lemma {:induction false} CollapseKeepsContent(s: string)
    ensures NonWs(Collapse(s)) == NonWs(s)
    decreases |s|
  {
    if s == [] {
    } else if IsWs(s[0]) {
      var t := TrimStart(s);
      var p := TrimStartSplit(s);
      CollapseKeepsContent(t);
      NonWsAppend(p, t);
      NonWsOfWs(p);
      assert NonWs(Collapse(s)) == NonWs(Collapse(t));
    } else {
      CollapseKeepsContent(s[1..]);
      assert NonWs(Collapse(s)) == [s[0]] + NonWs(Collapse(s[1..]));
    }
  }

  /** A string is left unchanged by the collapse exactly when it is already collapsed. */
  lemma {:induction false} CollapseFixpoint(s: string)
    ensures Collapse(s) == s <==> Collapsed(s)
    decreases |s|
  {
    if s != [] && Collapsed(s) {
      CollapsedRest(s);
      CollapseFixpoint(s[1..]);
      if IsWs(s[0]) {
        if |s| > 1 {
          assert !DoubleWsAt(s, 0);
        }
        assert s[1..] == [] || !IsWs(s[1..][0]);
        assert TrimStart(s[1..]) == s[1..];
        assert TrimStart(s) == TrimStart(s[1..]);
      }
      HeadRest(s);
    }
  }

  lemma CollapsedRest(s: string)
    requires s != [] && Collapsed(s)
    ensures Collapsed(s[1..])
  {
    CollapsedSlice(s, 1, |s|);
    assert s[1..|s|] == s[1..];
  }

  lemma CollapseIdempotent(s: string)
    ensures Collapse(Collapse(s)) == Collapse(s)
  {
    CollapseFixpoint(Collapse(s));
  }

  /** A slice of a collapsed string is collapsed. */
  lemma CollapsedSlice(s: string, i: nat, j: nat)
    requires i <= j <= |s| && Collapsed(s)
    ensures Collapsed(s[i..j])
  {
    var t := s[i..j];
    assert forall k :: 0 <= k < j - i ==> t[k] == s[i + k];
    forall k: nat | k + 1 < |t| ensures !DoubleWsAt(t, k) {
      assert !DoubleWsAt(s, i + k);
    }
  }

  /** Whitespace runs never cross the end of a text that ends in a
      non-whitespace character, so the two parts collapse independently. */
  lemma {:induction false} CollapseAppend(a: string, x: string)
    requires a == [] || !IsWs(a[|a| - 1])
    ensures Collapse(a + x) == Collapse(a) + Collapse(x)
    decreases |a|
  {
    if a == [] {
      assert a + x == x;
    } else if IsWs(a[0]) {
      var t := TrimStart(a);
      TrimStartShorter(a);
      TrimStartAppend(a, x);
      CollapseAppend(t, x);
      CollapseAtSpace(a + x);
      CollapseAtSpace(a);
      Assoc([' '], Collapse(t), Collapse(x));
    } else {
      assert (a + x)[1..] == a[1..] + x;
      CollapseAppend(a[1..], x);
      CollapseConsWord(a + x);
      CollapseConsWord(a);
      Assoc([a[0]], Collapse(a[1..]), Collapse(x));
    }
  }

  lemma CollapseConsWord(s: string)
    requires s != [] && !IsWs(s[0])
    ensures Collapse(s) == [s[0]] + Collapse(s[1..])
  {
  }

  /** A whitespace run between two non-whitespace characters becomes exactly
      one space: it neither disappears nor merges what is on either side. */
  lemma CollapseAtRun(a: string, w: string, b: string)
    requires a != [] && !IsWs(a[|a| - 1])
    requires w != [] && AllWs(w)
    requires b != [] && !IsWs(b[0])
    ensures Collapse(a + w + b) == Collapse(a) + " " + Collapse(b)
  {
    Assoc(a, w, b);
    HeadTail(w, b);
    CollapseAppend(a, w + b);
    CollapseRunBeforeWord(w, b);
    Assoc(Collapse(a), " ", Collapse(b));
  }

  lemma CollapseRunBeforeWord(w: string, b: string)
    requires w != [] && AllWs(w)
    requires b != [] && !IsWs(b[0])
    ensures Collapse(w + b) == " " + Collapse(b)
  {
    HeadTail(w, b);
    TrimStartPadding(w, b);
    assert TrimStart(b) == b;
    CollapseAtSpace(w + b);
  }

  /** `Array.prototype.join(' ')`. */
  function JoinSpace(parts: seq<string>): (r: string)
    ensures |r| >= |parts| - 1
  {
    if |parts| == 0 then []
    else if |parts| == 1 then parts[0]
    else parts[0] + " " + JoinSpace(parts[1..])
  }

  /** `join(' ')` adds exactly one character between neighbouring parts. */
  lemma {:induction false} JoinSpaceLength(parts: seq<string>)
    requires parts != []
    ensures |JoinSpace(parts)| == TotalLength(parts) + |parts| - 1
  {
    if |parts| > 1 {
      JoinSpaceLength(parts[1..]);
    } else {
      assert parts[1..] == [];
    }
  }

  /** The number of characters in all the parts together. */
  function TotalLength(parts: seq<string>): nat {
    if parts == [] then 0 else |parts[0]| + TotalLength(parts[1..])
  }

  /** `split(/\s+/)`: the pieces between maximal whitespace runs. As in
      ECMAScript, a leading or trailing run yields an empty first or last piece,
      and the empty string yields one empty piece. */
  function SplitWs(s: string): (r: seq<string>)
    ensures |r| >= 1
    ensures forall k :: 0 <= k < |r| ==> NoWs(r[k])
    ensures r[0] == [] <==> s == [] || IsWs(s[0])
    ensures r[|r| - 1] == [] <==> s == [] || IsWs(s[|s| - 1])
    ensures s != [] && IsWs(s[0]) ==> |r| >= 2
    ensures forall k :: 0 < k < |r| - 1 ==> r[k] != []
    decreases |s|
  {
    if s == [] then [[]]
    else if IsWs(s[0]) then
      var t := TrimStart(s);
      [[]] + SplitWs(t)
    else
      var rest := SplitWs(s[1..]);
      [[s[0]] + rest[0]] + rest[1..]
  }

  /** Splitting on whitespace and joining with single spaces is the collapse. */
  lemma {:induction false} JoinSplitIsCollapse(s: string)
    ensures JoinSpace(SplitWs(s)) == Collapse(s)
    decreases |s|
  {
    if s == [] {
    } else if IsWs(s[0]) {
      JoinSplitIsCollapse(TrimStart(s));
      JoinAfterSpace(s);
    } else {
      JoinSplitIsCollapse(s[1..]);
      JoinAfterWord(s);
    }
  }

  lemma JoinAfterSpace(s: string)
    requires s != [] && IsWs(s[0])
    requires JoinSpace(SplitWs(TrimStart(s))) == Collapse(TrimStart(s))
    ensures JoinSpace(SplitWs(s)) == Collapse(s)
  {
    var tail := SplitWs(TrimStart(s));
    SplitAtSpace(s);
    JoinCons([], tail);
    CollapseAtSpace(s);
    assert [] + " " == " ";
    assert " " == [' '];
  }

  lemma SplitAtSpace(s: string)
    requires s != [] && IsWs(s[0])
    ensures SplitWs(s) == [[]] + SplitWs(TrimStart(s))
  {
  }

  lemma CollapseAtSpace(s: string)
    requires s != [] && IsWs(s[0])
    ensures Collapse(s) == [' '] + Collapse(TrimStart(s))
  {
  }

  lemma JoinCons(x: string, tail: seq<string>)
    requires |tail| >= 1
    ensures JoinSpace([x] + tail) == x + " " + JoinSpace(tail)
  {
    assert ([x] + tail)[1..] == tail;
  }

  lemma JoinAfterWord(s: string)
    requires s != [] && !IsWs(s[0])
    requires JoinSpace(SplitWs(s[1..])) == Collapse(s[1..])
    ensures JoinSpace(SplitWs(s)) == Collapse(s)
  {
    var rest := SplitWs(s[1..]);
    var first := [s[0]] + rest[0];
    var parts := [first] + rest[1..];
    assert SplitWs(s) == parts;
    assert Collapse(s) == [s[0]] + JoinSpace(rest);
    if |rest| == 1 {
      assert parts == [first];
    } else {
      assert parts[0] == first && parts[1..] == rest[1..];
      var x, y := rest[0], JoinSpace(rest[1..]);
      assert JoinSpace(parts) == first + " " + y;
      assert JoinSpace(rest) == x + " " + y;
      Assoc([s[0]], x, " ");
      Assoc([s[0]], x + " ", y);
    }
  }

  /** On a trimmed, non-empty text every piece of the split is a word. */
  lemma SplitTrimmedWords(s: string)
    requires s != [] && NoEdgeWs(s)
    ensures forall k :: 0 <= k < |SplitWs(s)| ==> SplitWs(s)[k] != []
  {
  }

  /** A text without whitespace is one piece. */
  lemma {:induction false} SplitSingleWord(s: string)
    requires NoWs(s)
    ensures SplitWs(s) == [s]
    decreases |s|
  {
    if s != [] {
      SplitSingleWord(s[1..]);
      assert s == [s[0]] + s[1..];
    }
  }

  /** A word followed by one space: the word is the first piece. */
  lemma SplitFirstWord(a: string, b: string)
    requires a != [] && NoWs(a)
    requires b != [] && !IsWs(b[0])
    ensures SplitWs(a + " " + b) == [a] + SplitWs(b)
  {
    var x := " " + b;
    SplitAfterSpace(b);
    SplitWordPrefix(a, x);
    Assoc(a, " ", b);
    AfterEmptyPiece(a, SplitWs(b));
  }

  lemma HeadAssoc(a: string, b: string)
    requires a != []
    ensures [a[0]] + (a[1..] + b) == a + b
  {
    assert [a[0]] + a[1..] == a;
  }

  lemma Assoc<T>(a: seq<T>, b: seq<T>, c: seq<T>)
    ensures a + b + c == a + (b + c)
  {
  }

  lemma SingleElement<T>(a: seq<T>)
    requires |a| == 1
    ensures a == [a[0]]
  {
  }

  lemma HeadRest<T>(a: seq<T>)
    requires a != []
    ensures a == [a[0]] + a[1..]
  {
  }

  lemma PrependEmpty<T>(p: seq<T>, x: seq<T>)
    requires p == []
    ensures p + x == x
  {
  }

  lemma AfterEmptyPiece(a: string, rest: seq<string>)
    ensures [a + ([[]] + rest)[0]] + ([[]] + rest)[1..] == [a] + rest
  {
    assert ([[]] + rest)[0] == [] && ([[]] + rest)[1..] == rest;
    assert a + [] == a;
  }

  /** Words without whitespace, joined with single spaces, split back into
      the same words: `split(/\s+/)` inverts `join(' ')` on them. */
  predicate IsWord(w: string) {
    w != [] && NoWs(w)
  }

  lemma {:induction false} SplitJoinWords(ws: seq<string>)
    requires |ws| >= 1
    requires forall k :: 0 <= k < |ws| ==> IsWord(ws[k])
    ensures SplitWs(JoinSpace(ws)) == ws
    ensures JoinSpace(ws) != [] && NoEdgeWs(JoinSpace(ws))
  {
    if |ws| == 1 {
      SplitSingleWord(ws[0]);
      SingleElement(ws);
    } else {
      WordsRest(ws);
      SplitJoinWords(ws[1..]);
      SplitJoinStep(ws[0], ws[1..]);
      HeadRest(ws);
    }
  }

  lemma WordsRest(ws: seq<string>)
    requires ws != [] && forall k :: 0 <= k < |ws| ==> IsWord(ws[k])
    ensures forall k :: 0 <= k < |ws[1..]| ==> IsWord(ws[1..][k])
  {
  }

  lemma SplitJoinStep(w: string, rest: seq<string>)
    requires IsWord(w) && |rest| >= 1
    requires SplitWs(JoinSpace(rest)) == rest
    requires JoinSpace(rest) != [] && NoEdgeWs(JoinSpace(rest))
    ensures SplitWs(JoinSpace([w] + rest)) == [w] + rest
    ensures JoinSpace([w] + rest) != [] && NoEdgeWs(JoinSpace([w] + rest))
  {
    var b := JoinSpace(rest);
    JoinCons(w, rest);
    SplitFirstWord(w, b);
    SpacedEdges(w, b);
  }

  lemma SpacedEdges(a: string, b: string)
    requires a != [] && !IsWs(a[0]) && b != [] && !IsWs(b[|b| - 1])
    ensures NoEdgeWs(a + " " + b)
  {
    var j := a + " " + b;
    assert j[0] == a[0] && j[|j| - 1] == b[|b| - 1];
  }

  /** Splitting at a whitespace run that follows a non-whitespace character:
      the pieces of the text before it, then the pieces after the run. */
  lemma {:induction false} SplitAppendAtWs(a: string, y: string)
    requires a != [] && !IsWs(a[|a| - 1])
    requires y != [] && IsWs(y[0])
    ensures SplitWs(a + y) == SplitWs(a) + SplitWs(y)[1..]
    decreases |a|
  {
    if IsWs(a[0]) {
      var t := TrimStart(a);
      TrimStartShorter(a);
      SplitAppendAtWs(t, y);
      SplitAppendSpace(a, t, y);
    } else if |a| == 1 {
      SplitAppendLastWord(a[0], y);
      SingleElement(a);
    } else {
      SplitAppendAtWs(a[1..], y);
      SplitAppendWord(a[0], a[1..], y);
      HeadRest(a);
    }
  }

  lemma SplitAppendSpace(a: string, t: string, y: string)
    requires a != [] && IsWs(a[0]) && t == TrimStart(a) && t != []
    requires SplitWs(t + y) == SplitWs(t) + SplitWs(y)[1..]
    ensures SplitWs(a + y) == SplitWs(a) + SplitWs(y)[1..]
  {
    TrimStartAppend(a, y);
    SplitAtSpace(a + y);
    SplitAtSpace(a);
    Assoc([[]], SplitWs(t), SplitWs(y)[1..]);
  }

  lemma SplitAppendLastWord(c: char, y: string)
    requires !IsWs(c) && y != [] && IsWs(y[0])
    ensures SplitWs([c] + y) == SplitWs([c]) + SplitWs(y)[1..]
  {
    var r := SplitWs(y);
    SplitPrepend(c, y, r);
    SplitSingleChar(c);
    assert [c] + r[0] == [c];
  }

  lemma SplitSingleChar(c: char)
    requires !IsWs(c)
    ensures SplitWs([c]) == [[c]]
  {
    assert [c][1..] == [];
    assert SplitWs([c][1..]) == [[]];
    assert [c] + [] == [c];
  }

  lemma SplitAppendWord(c: char, b: string, y: string)
    requires !IsWs(c) && b != []
    requires SplitWs(b + y) == SplitWs(b) + SplitWs(y)[1..]
    ensures SplitWs([c] + b + y) == SplitWs([c] + b) + SplitWs(y)[1..]
  {
    var u := SplitWs(b);
    var ys := SplitWs(y)[1..];
    SplitPrepend(c, b + y, u + ys);
    SplitPrepend(c, b, u);
    Assoc([c], b, y);
    HeadTail(u, ys);
    Assoc([[c] + u[0]], u[1..], ys);
  }

  lemma HeadTail<T>(u: seq<T>, v: seq<T>)
    requires u != []
    ensures (u + v)[0] == u[0] && (u + v)[1..] == u[1..] + v
  {
  }

  /** A whitespace run between two non-whitespace characters is a boundary
      between pieces: the split of the whole is the split of each side. */
  lemma SplitAtRun(a: string, w: string, b: string)
    requires a != [] && !IsWs(a[|a| - 1])
    requires w != [] && AllWs(w)
    requires b != [] && !IsWs(b[0])
    ensures SplitWs(a + w + b) == SplitWs(a) + SplitWs(b)
  {
    Assoc(a, w, b);
    HeadTail(w, b);
    SplitAppendAtWs(a, w + b);
    TrimStartPadding(w, b);
    assert TrimStart(b) == b;
    assert SplitWs(w + b) == [[]] + SplitWs(b);
  }

  /** The words of a text, `s.trim().split(/\s+/)`; a blank text has none. */
  function WordsOf(s: string): (r: seq<string>)
    ensures forall k :: 0 <= k < |r| ==> IsWord(r[k])
    ensures r == [] <==> Trim(s) == []
  {
    var t := Trim(s);
    if t == [] then [] else SplitTrimmedWords(t); SplitWs(t)
  }

  /** The words of two texts with whitespace between them are the words of
      the first, then those of the second. */
  lemma WordsOfAtRun(x: string, w: string, y: string)
    requires w != [] && AllWs(w)
    ensures WordsOf(x + w + y) == WordsOf(x) + WordsOf(y)
  {
    if Trim(x) == [] {
      TrimBlankLeft(x, w, y);
    } else if Trim(y) == [] {
      TrimBlankRight(x, w, y);
    } else {
      var gap := TrimAtRun(x, w, y);
      SplitAtRun(Trim(x), gap, Trim(y));
    }
  }

  /** Blank text and whitespace in front of a text do not change its trim. */
  lemma TrimBlankLeft(x: string, w: string, y: string)
    requires Trim(x) == [] && AllWs(w)
    ensures Trim(x + w + y) == Trim(y)
  {
    TrimEmptyIffWs(x);
    AllWsAppend(x, w);
    assert x + w + y == (x + w) + y + [];
    TrimIgnoresPadding(x + w, y, []);
  }

  /** Whitespace and blank text after a text do not change its trim. */
  lemma TrimBlankRight(x: string, w: string, y: string)
    requires Trim(y) == [] && AllWs(w)
    ensures Trim(x + w + y) == Trim(x)
  {
    TrimEmptyIffWs(y);
    AllWsAppend(w, y);
    assert x + w + y == [] + x + (w + y);
    TrimIgnoresPadding([], x, w + y);
  }

  /** Trimming two texts with content and whitespace between them keeps
      that whitespace, together with the trailing whitespace of the first
      and the leading whitespace of the second. */
  lemma TrimAtRun(x: string, w: string, y: string) returns (gap: string)
    requires Trim(x) != [] && Trim(y) != [] && w != [] && AllWs(w)
    ensures gap != [] && AllWs(gap)
    ensures Trim(x + w + y) == Trim(x) + gap + Trim(y)
  {
    var tx, ty := Trim(x), Trim(y);
    var px, qx := TrimParts(x);
    var py, qy := TrimParts(y);
    gap := qx + w + py;
    AllWsAppend(qx, w);
    AllWsAppend(qx + w, py);
    var m := tx + gap + ty;
    Regroup(px, tx, qx, w, py, ty, qy);
    TrimIgnoresPadding(px, m, qy);
    assert m[0] == tx[0] && m[|m| - 1] == ty[|ty| - 1];
    TrimOfTrimmed(m);
  }

  lemma Regroup<T>(a: seq<T>, b: seq<T>, c: seq<T>, d: seq<T>, e: seq<T>, f: seq<T>, g: seq<T>)
    ensures (a + b + c) + d + (e + f + g) == a + (b + (c + d + e) + f) + g
  {
  }

  /** Collapsing whitespace and then trimming gives the words of the text
      joined by single spaces. */
  lemma TrimCollapseIsWords(s: string)
    ensures Trim(Collapse(s)) == JoinSpace(WordsOf(s))
  {
    if Trim(s) == [] {
      TrimEmptyIffWs(s);
      WsCollapse(s);
      TrimEmptyIffWs(Collapse(s));
    } else {
      var t := Trim(s);
      var lead, trail := CollapseAroundTrim(s);
      JoinSplitIsCollapse(t);
      TrimIgnoresPadding(lead, Collapse(t), trail);
      TrimOfTrimmed(Collapse(t));
    }
  }

  /** The collapse of a text with content is the collapse of its trimmed
      part, with at most whitespace around it. */
  lemma CollapseAroundTrim(s: string) returns (lead: string, trail: string)
    requires Trim(s) != []
    ensures AllWs(lead) && AllWs(trail)
    ensures Collapse(s) == lead + Collapse(Trim(s)) + trail
  {
    var t := Trim(s);
    var p, q := TrimParts(s);
    lead, trail := CollapseParts(p, t, q);
  }

  lemma CollapseParts(p: string, t: string, q: string) returns (lead: string, trail: string)
    requires AllWs(p) && AllWs(q) && t != [] && NoEdgeWs(t)
    ensures AllWs(lead) && AllWs(trail)
    ensures Collapse(p + t + q) == lead + Collapse(t) + trail
  {
    WsCollapse(q);
    trail := Collapse(q);
    if p == [] {
      lead := [];
      CollapseNoLead(p, t, q);
    } else {
      lead := " ";
      CollapseLead(p, t, q);
    }
  }

  lemma CollapseNoLead(p: string, t: string, q: string)
    requires p == [] && t != [] && !IsWs(t[|t| - 1])
    ensures Collapse(p + t + q) == [] + Collapse(t) + Collapse(q)
  {
    CollapseAppend(t, q);
    PrependEmpty(p, t);
    PrependEmpty([], Collapse(t));
  }

  lemma CollapseLead(p: string, t: string, q: string)
    requires p != [] && AllWs(p) && t != [] && NoEdgeWs(t)
    ensures Collapse(p + t + q) == " " + Collapse(t) + Collapse(q)
  {
    CollapseAppend(t, q);
    CollapseAfterPadding(p, t, q);
    Assoc(" ", Collapse(t), Collapse(q));
  }

  lemma CollapseAfterPadding(p: string, t: string, q: string)
    requires p != [] && AllWs(p) && t != [] && !IsWs(t[0])
    ensures Collapse(p + t + q) == " " + Collapse(t + q)
  {
    assert p + t + q == p + (t + q);
    TrimStartPadding(p, t + q);
    TrimStartAppend(t, q);
    assert TrimStart(t) == t;
    CollapseAtSpace(p + (t + q));
  }

  /** Whitespace alone collapses to at most one space. */
  lemma WsCollapse(w: string)
    requires AllWs(w)
    ensures AllWs(Collapse(w)) && |Collapse(w)| <= 1
  {
    if w != [] {
      TrimStartOfWs(w);
    }
  }

  /** A whitespace-free prefix is glued to the first piece. */
  lemma {:induction false} SplitWordPrefix(a: string, x: string)
    requires NoWs(a)
    ensures SplitWs(a + x) == [a + SplitWs(x)[0]] + SplitWs(x)[1..]
    decreases |a|
  {
    var t := SplitWs(x);
    if a == [] {
      assert a + x == x;
      assert a + t[0] == t[0];
      assert [t[0]] + t[1..] == t;
    } else {
      var y := a[1..] + x;
      assert a + x == [a[0]] + y;
      SplitWordPrefix(a[1..], x);
      var u := [a[1..] + t[0]] + t[1..];
      SplitPrepend(a[0], y, u);
      HeadAssoc(a, t[0]);
      assert u[0] == a[1..] + t[0] && u[1..] == t[1..];
    }
  }

  lemma SplitAfterSpace(b: string)
    requires b != [] && !IsWs(b[0])
    ensures SplitWs(" " + b) == [[]] + SplitWs(b)
  {
    assert (" " + b)[1..] == b;
    SplitAtSpace(" " + b);
  }

  /** A non-whitespace character joins the first piece. */
  lemma SplitPrepend(c: char, x: string, tail: seq<string>)
    requires !IsWs(c) && SplitWs(x) == tail
    ensures SplitWs([c] + x) == [[c] + tail[0]] + tail[1..]
  {
    assert ([c] + x)[1..] == x;
  }

  /** ASCII case mapping (`toLowerCase` / `toUpperCase` restricted to A-Z, a-z). */
  function LowerChar(c: char): char {
    if 'A' <= c <= 'Z' then (c as int + 32) as char else c
  }

  function UpperChar(c: char): char {
    if 'a' <= c <= 'z' then (c as int - 32) as char else c
  }

  function ToLower(s: string): (r: string)
    ensures |r| == |s|
    ensures forall k :: 0 <= k < |r| ==> !('A' <= r[k] <= 'Z')
    ensures forall k :: 0 <= k < |s| && !('A' <= s[k] <= 'Z') ==> r[k] == s[k]
    ensures ToUpper(r) == ToUpper(s)
  {
    seq(|s|, k requires 0 <= k < |s| => LowerChar(s[k]))
  }

  function ToUpper(s: string): (r: string)
    ensures |r| == |s|
    ensures forall k :: 0 <= k < |r| ==> !('a' <= r[k] <= 'z')
    ensures forall k :: 0 <= k < |s| && !('a' <= s[k] <= 'z') ==> r[k] == s[k]
  {
    seq(|s|, k requires 0 <= k < |s| => UpperChar(s[k]))
  }

  lemma LowerDrop(s: string)
    requires s != []
    ensures ToLower(s)[0] == LowerChar(s[0])
    ensures ToLower(s)[1..] == ToLower(s[1..])
  {
  }

  lemma LowerTake(s: string)
    requires s != []
    ensures ToLower(s)[|s| - 1] == LowerChar(s[|s| - 1])
    ensures ToLower(s)[..|s| - 1] == ToLower(s[..|s| - 1])
  {
  }

  lemma LowerKeepsWs(c: char)
    ensures IsWs(LowerChar(c)) == IsWs(c)
  {
    if 'A' <= c <= 'Z' {
      assert 'a' <= LowerChar(c) <= 'z';
    }
  }

  /** Case mapping leaves whitespace where it was, so it commutes with `trim`. */
  lemma {:induction false} TrimStartLower(s: string)
    ensures TrimStart(ToLower(s)) == ToLower(TrimStart(s))
    decreases |s|
  {
    if s != [] {
      LowerDrop(s);
      LowerKeepsWs(s[0]);
      if IsWs(s[0]) {
        TrimStartLower(s[1..]);
      }
    }
  }

  lemma {:induction false} TrimEndLower(s: string)
    ensures TrimEnd(ToLower(s)) == ToLower(TrimEnd(s))
    decreases |s|
  {
    if s != [] {
      LowerTake(s);
      LowerKeepsWs(s[|s| - 1]);
      if IsWs(s[|s| - 1]) {
        TrimEndLower(s[..|s| - 1]);
      }
    }
  }

  lemma TrimLower(s: string)
    ensures Trim(ToLower(s)) == ToLower(Trim(s))
  {
    TrimStartLower(s);
    TrimEndLower(TrimStart(s));
  }
}
