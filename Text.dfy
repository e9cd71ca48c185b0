/** The JavaScript string operations the search code is built from, over
    `seq<char>`: the `\s` whitespace class, `trim`, `toLowerCase` (ASCII),
    `split(/\s+/)`, `includes`, `startsWith`, a global literal match count,
    `join(' ')` and the decimal rendering of an index. */
module Text {

  /** JavaScript's `\s` class; `trim` strips exactly these characters too. */
  const Whitespace: set<char> := {
    ' ', '\t', '\n', '\r', '\U{000B}', '\U{000C}', '\U{00A0}', '\U{1680}',
    '\U{2000}', '\U{2001}', '\U{2002}', '\U{2003}', '\U{2004}', '\U{2005}',
    '\U{2006}', '\U{2007}', '\U{2008}', '\U{2009}', '\U{200A}',
    '\U{2028}', '\U{2029}', '\U{202F}', '\U{205F}', '\U{3000}', '\U{FEFF}'
  }

  predicate IsSpace(c: char) {
    c in Whitespace
  }

  predicate NoSpace(s: string) {
    forall i :: 0 <= i < |s| ==> !IsSpace(s[i])
  }

  predicate AllSpace(s: string) {
    forall i :: 0 <= i < |s| ==> IsSpace(s[i])
  }

  function LowerChar(c: char): char {
    if 'A' <= c <= 'Z' then (c as int + 32) as char else c
  }

  /** `toLowerCase`, restricted to the ASCII letters. */
  function Lower(s: string): (r: string)
    ensures |r| == |s|
  {
    seq(|s|, i requires 0 <= i < |s| => LowerChar(s[i]))
  }

  lemma LowerKeepsSpace(s: string)
    ensures AllSpace(Lower(s)) <==> AllSpace(s)
    ensures NoSpace(Lower(s)) <==> NoSpace(s)
  {
    assert forall i :: 0 <= i < |s| ==> (IsSpace(Lower(s)[i]) <==> IsSpace(s[i]));
  }

  function TrimStart(s: string): (r: string)
    ensures |r| <= |s|
  {
    if s != [] && IsSpace(s[0]) then TrimStart(s[1..]) else s
  }

  function TrimEnd(s: string): (r: string)
    ensures |r| <= |s|
  {
    if s != [] && IsSpace(s[|s| - 1]) then TrimEnd(s[..|s| - 1]) else s
  }

  /** `trim`: drop leading and trailing whitespace. */
  function Trim(s: string): (r: string)
    ensures |r| <= |s|
  {
    TrimEnd(TrimStart(s))
  }

  /** `TrimStart` drops a whitespace prefix and keeps the rest. */
  lemma {:induction false} TrimStartFacts(s: string)
    ensures var r := TrimStart(s);
            && r == s[|s| - |r|..]
            && AllSpace(s[..|s| - |r|])
            && (r == [] || !IsSpace(r[0]))
  {
    if s != [] && IsSpace(s[0]) {
      TrimStartFacts(s[1..]);
      var r := TrimStart(s);
      assert s[1..][|s| - 1 - |r|..] == s[|s| - |r|..];
      var pre, rest := s[..|s| - |r|], s[1..][..|s| - 1 - |r|];
      forall i | 0 <= i < |pre| ensures IsSpace(pre[i]) {
        if i > 0 {
          assert pre[i] == rest[i - 1];
        }
      }
    }
  }

  /** `TrimEnd` drops a whitespace suffix and keeps the rest. */
  lemma {:induction false} TrimEndFacts(s: string)
    ensures var r := TrimEnd(s);
            && r == s[..|r|]
            && AllSpace(s[|r|..])
            && (r == [] || !IsSpace(r[|r| - 1]))
  {
    if s != [] && IsSpace(s[|s| - 1]) {
      TrimEndFacts(s[..|s| - 1]);
      var r := TrimEnd(s);
      assert s[..|s| - 1][..|r|] == s[..|r|];
      assert forall i :: |r| <= i < |s| - 1 ==> s[i] == s[..|s| - 1][|r|..][i - |r|];
    }
  }

  /** The trimmed string is a slice of the original that neither starts nor
      ends with whitespace, and only whitespace was cut on either side. */
  lemma TrimFacts(s: string)
    ensures var r := Trim(s);
            var a := |s| - |TrimStart(s)|;
            && (r == [] || (!IsSpace(r[0]) && !IsSpace(r[|r| - 1])))
            && a + |r| <= |s|
            && r == s[a..a + |r|]
            && AllSpace(s[..a])
            && AllSpace(s[a + |r|..])
  {
    var t := TrimStart(s);
    var a := |s| - |t|;
    TrimStartFacts(s);
    TrimEndFacts(t);
    var r := TrimEnd(t);
    assert t == s[a..];
    assert r == s[a..a + |r|] by {
      assert r == t[..|r|];
    }
    var tail := s[a + |r|..];
    assert AllSpace(tail) by {
      forall i | 0 <= i < |tail| ensures IsSpace(tail[i]) {
        assert tail[i] == t[|r|..][i];
      }
    }
  }

  /** Only a string of whitespace trims to nothing. */
  lemma TrimEmptyIff(s: string)
    ensures Trim(s) == [] <==> AllSpace(s)
  {
    var a := TrimStart(s);
    var k := |s| - |a|;
    TrimStartFacts(s);
    TrimEndFacts(a);
    if !AllSpace(s) {
      var i :| 0 <= i < |s| && !IsSpace(s[i]);
      assert a[i - k] == s[i];
    }
  }

  /** `s.startsWith(p)`. */
  predicate StartsWith(s: string, p: string) {
    |p| <= |s| && s[..|p|] == p
  }

  /** `p` occurs in `s` starting at position `i`. */
  predicate OccursAt(s: string, p: string, i: int) {
    0 <= i && i + |p| <= |s| && s[i..i + |p|] == p
  }

  /** `s.includes(p)`: `p` occurs at some position of `s`. */
  predicate Contains(s: string, p: string) {
    exists i | 0 <= i <= |s| :: OccursAt(s, p, i)
  }

  /** The number of matches of the escaped pattern `p` with the global flag:
      leftmost matches, each search resuming where the last match ended. */
  function CountOccurrences(s: string, p: string): nat
    requires p != []
    decreases |s|
  {
    if |s| < |p| then 0
    else if StartsWith(s, p) then 1 + CountOccurrences(s[|p|..], p)
    else CountOccurrences(s[1..], p)
  }

  lemma ContainsFromTail(s: string, p: string, k: nat)
    requires k <= |s| && Contains(s[k..], p)
    ensures Contains(s, p)
  {
    var i :| 0 <= i <= |s[k..]| && OccursAt(s[k..], p, i);
    assert s[k + i..k + i + |p|] == s[k..][i..i + |p|];
    assert OccursAt(s, p, k + i);
  }

  /** The occurrence count is positive exactly when the pattern occurs. */
  lemma {:induction false} CountPositiveIff(s: string, p: string)
    requires p != []
    ensures CountOccurrences(s, p) > 0 <==> Contains(s, p)
    decreases |s|
  {
    if |s| < |p| {
    } else if StartsWith(s, p) {
      assert OccursAt(s, p, 0);
    } else {
      CountPositiveIff(s[1..], p);
      if Contains(s, p) {
        var i :| 0 <= i <= |s| && OccursAt(s, p, i);
        assert i != 0;
        assert s[1..][i - 1..i - 1 + |p|] == s[i..i + |p|];
        assert OccursAt(s[1..], p, i - 1);
      }
      if Contains(s[1..], p) {
        ContainsFromTail(s, p, 1);
      }
    }
  }

  /** A pattern found in a piece of `s` is found in `s`. */
  lemma ContainsTransitive(s: string, t: string, p: string)
    requires Contains(s, t) && Contains(t, p)
    ensures Contains(s, p)
  {
    var i :| 0 <= i <= |s| && OccursAt(s, t, i);
    var j :| 0 <= j <= |t| && OccursAt(t, p, j);
    forall m | 0 <= m < |p| ensures s[i + j + m] == p[m] {
      assert s[i..i + |t|][j + m] == t[j + m];
      assert t[j..j + |p|][m] == t[j + m];
    }
    assert s[i + j..i + j + |p|] == p;
    assert OccursAt(s, p, i + j);
  }

  lemma ContainsSelf(s: string)
    ensures Contains(s, s)
  {
    assert OccursAt(s, s, 0);
  }

  lemma StartsWithContains(s: string, p: string)
    requires StartsWith(s, p)
    ensures Contains(s, p)
  {
    assert OccursAt(s, p, 0);
  }

  /** Length of the leading run of non-whitespace characters. */
  function RunLength(s: string): (n: nat)
    ensures n <= |s| && NoSpace(s[..n])
    ensures n < |s| ==> IsSpace(s[n])
    ensures s != [] && !IsSpace(s[0]) ==> n > 0
  {
    if s == [] || IsSpace(s[0]) then 0 else 1 + RunLength(s[1..])
  }

  /** The maximal runs of non-whitespace characters, left to right. */
  function Tokens(s: string): seq<string>
    decreases |s|
  {
    if s == [] then []
    else if IsSpace(s[0]) then Tokens(s[1..])
    else
      var n := RunLength(s);
      [s[..n]] + Tokens(s[n..])
  }

  /** `s.split(/\s+/)`: the tokens, with an empty first piece when `s` opens
      with whitespace and an empty last piece when it closes with it; the
      empty string splits into one empty piece. */
  function SplitWords(s: string): seq<string> {
    if s == [] then [""]
    else
      (if IsSpace(s[0]) then [""] else [])
      + Tokens(s)
      + (if IsSpace(s[|s| - 1]) then [""] else [])
  }

  /** `.filter(t => t.length > 0)`. */
  function NonEmpty(ws: seq<string>): (r: seq<string>)
    ensures forall k :: 0 <= k < |r| ==> r[k] != []
  {
    if ws == [] then []
    else (if ws[0] == [] then [] else [ws[0]]) + NonEmpty(ws[1..])
  }

  /** Tokens are non-empty and hold no whitespace. */
  lemma {:induction false} TokensShape(s: string)
    ensures forall k :: 0 <= k < |Tokens(s)| ==> Tokens(s)[k] != [] && NoSpace(Tokens(s)[k])
    decreases |s|
  {
    if s != [] {
      if IsSpace(s[0]) {
        TokensShape(s[1..]);
      } else {
        var n := RunLength(s);
        TokensShape(s[n..]);
        assert forall k :: 1 <= k < |Tokens(s)| ==> Tokens(s)[k] == Tokens(s[n..])[k - 1];
      }
    }
  }

  lemma {:induction false} TokensInside(s: string)
    ensures forall k :: 0 <= k < |Tokens(s)| ==> Contains(s, Tokens(s)[k])
    decreases |s|
  {
    if s == [] {
    } else if IsSpace(s[0]) {
      TokensInside(s[1..]);
      assert Tokens(s) == Tokens(s[1..]);
      forall k | 0 <= k < |Tokens(s)| ensures Contains(s, Tokens(s)[k]) {
        ContainsFromTail(s, Tokens(s)[k], 1);
      }
    } else {
      var n := RunLength(s);
      TokensInside(s[n..]);
      forall k | 0 <= k < |Tokens(s)| ensures Contains(s, Tokens(s)[k]) {
        if k == 0 {
          assert OccursAt(s, Tokens(s)[0], 0);
        } else {
          assert Tokens(s)[k] == Tokens(s[n..])[k - 1];
          ContainsFromTail(s, Tokens(s)[k], n);
        }
      }
    }
  }

  /** Every piece of `split(/\s+/)` is a substring of the split string. */
  lemma SplitWordsInside(s: string)
    ensures forall k :: 0 <= k < |SplitWords(s)| ==> Contains(s, SplitWords(s)[k])
  {
    assert Contains(s, "") by {
      assert OccursAt(s, "", 0);
    }
    if s != [] {
      var front := if IsSpace(s[0]) then [""] else [];
      var back := if IsSpace(s[|s| - 1]) then [""] else [];
      TokensInside(s);
      AllInsideAppend(s, front, Tokens(s));
      AllInsideAppend(s, front + Tokens(s), back);
    }
  }

  /** Every string of `ws` is a substring of `s`. */
  predicate AllInside(s: string, ws: seq<string>) {
    forall k :: 0 <= k < |ws| ==> Contains(s, ws[k])
  }

  lemma AllInsideAppend(s: string, a: seq<string>, b: seq<string>)
    requires AllInside(s, a) && AllInside(s, b)
    ensures AllInside(s, a + b)
  {
    forall k | 0 <= k < |a + b| ensures Contains(s, (a + b)[k]) {
      if k >= |a| {
        assert (a + b)[k] == b[k - |a|];
      }
    }
  }

  lemma {:induction false} TokensOfAllSpace(s: string)
    ensures Tokens(s) == [] <==> AllSpace(s)
    decreases |s|
  {
    if s != [] {
      TokensOfAllSpace(s[1..]);
      assert AllSpace(s) <==> IsSpace(s[0]) && AllSpace(s[1..]) by {
        assert forall i :: 1 <= i < |s| ==> s[i] == s[1..][i - 1];
      }
    }
  }

  lemma {:induction false} NonEmptyAppend(a: seq<string>, b: seq<string>)
    ensures NonEmpty(a + b) == NonEmpty(a) + NonEmpty(b)
  {
    if a == [] {
      assert a + b == b;
    } else {
      assert (a + b)[0] == a[0] && (a + b)[1..] == a[1..] + b;
      NonEmptyAppend(a[1..], b);
      var head := if a[0] == [] then [] else [a[0]];
      assert NonEmpty(a + b) == head + (NonEmpty(a[1..]) + NonEmpty(b));
    }
  }

  lemma {:induction false} NonEmptyKeeps(ws: seq<string>)
    requires forall k :: 0 <= k < |ws| ==> ws[k] != []
    ensures NonEmpty(ws) == ws
  {
    if ws != [] {
      NonEmptyKeeps(ws[1..]);
    }
  }

  /** Filtering out the empty pieces of `split(/\s+/)` leaves the tokens. */
  lemma NonEmptySplit(s: string)
    ensures NonEmpty(SplitWords(s)) == Tokens(s)
  {
    if s == [] {
      assert NonEmpty([""]) == NonEmpty([]);
    } else {
      TokensShape(s);
      NonEmptyPadded(if IsSpace(s[0]) then [""] else [], Tokens(s), if IsSpace(s[|s| - 1]) then [""] else []);
    }
  }

  /** Empty pieces around non-empty ones are dropped. */
  lemma NonEmptyPadded(front: seq<string>, ws: seq<string>, back: seq<string>)
    requires front == [] || front == [""]
    requires back == [] || back == [""]
    requires forall k :: 0 <= k < |ws| ==> ws[k] != []
    ensures NonEmpty(front + ws + back) == ws
  {
    assert NonEmpty(front) == [] && NonEmpty(back) == [] by {
      assert NonEmpty([""]) == NonEmpty([]);
    }
    NonEmptyKeeps(ws);
    NonEmptyAppend(front, ws);
    NonEmptyAppend(front + ws, back);
  }

  /** A single word without whitespace splits into itself. */
  lemma SplitWordsOfWord(s: string)
    requires s != [] && NoSpace(s)
    ensures SplitWords(s) == [s]
  {
    var n := RunLength(s);
    assert n == |s|;
    assert s[..n] == s;
    assert Tokens(s) == [s] + Tokens(s[n..]);
  }

  /** `words.join(sep)`. */
  function JoinWith(ws: seq<string>, sep: string): string {
    if ws == [] then ""
    else if |ws| == 1 then ws[0]
    else ws[0] + sep + JoinWith(ws[1..], sep)
  }

  /** `words.join(' ')`. */
  function JoinWords(ws: seq<string>): string {
    JoinWith(ws, " ")
  }

  lemma JoinWithCons(w: string, ws: seq<string>, sep: string)
    requires ws != []
    ensures JoinWith([w] + ws, sep) == w + sep + JoinWith(ws, sep)
  {
    assert ([w] + ws)[1..] == ws;
  }

  /** A trailing empty piece adds one separator. */
  lemma {:induction false} JoinWithSnocEmpty(ws: seq<string>, sep: string)
    requires ws != []
    ensures JoinWith(ws + [""], sep) == JoinWith(ws, sep) + sep
    decreases |ws|
  {
    if |ws| == 1 {
      assert ws + [""] == [ws[0]] + [""];
      JoinWithCons(ws[0], [""], sep);
    } else {
      JoinWithSnocEmpty(ws[1..], sep);
      assert ws + [""] == [ws[0]] + (ws[1..] + [""]);
      JoinWithCons(ws[0], ws[1..] + [""], sep);
      JoinWithCons(ws[0], ws[1..], sep);
      assert ws == [ws[0]] + ws[1..];
    }
  }

  /** Leading whitespace produces no token. */
  lemma {:induction false} TokensTrimStart(s: string)
    ensures Tokens(TrimStart(s)) == Tokens(s)
    decreases |s|
  {
    if s != [] && IsSpace(s[0]) {
      TokensTrimStart(s[1..]);
    }
  }

  function Digit(d: nat): char
    requires d < 10
  {
    "0123456789"[d]
  }

  /** The decimal rendering of a non-negative integer, as in a template
      literal `${n}`. */
  function Decimal(n: nat): (r: string)
    ensures r != []
  {
    if n < 10 then [Digit(n)] else Decimal(n / 10) + [Digit(n % 10)]
  }

  /** The rendering holds decimal digits only. */
  lemma {:induction false} DecimalDigits(n: nat)
    ensures forall i :: 0 <= i < |Decimal(n)| ==> '0' <= Decimal(n)[i] <= '9'
  {
    if n >= 10 {
      DecimalDigits(n / 10);
    }
  }
}
