/** The DOM pass that turns the rendered page into searchable documents.

    The page is given as the node lists the pass selects, each node already
    reduced to the text the source extracts from it (scripts, styles and
    hidden descendants removed): navigation links, headings with the
    elements that follow them, content blocks, sidebar lines and buttons. */
module PageExtraction {
  import opened Wrappers
  import opened Text
  import opened Seqs
  import opened Documents

  /** A heading level, from the tag name `h1` … `h6`. */
  type Level = l: int | 1 <= l <= 6 witness 1

  /** A navigation link: its text and its `href` and `data-href` attributes
      (absent, or present and possibly empty). */
  datatype Link = Link(text: string, href: Option<string>, dataHref: Option<string>)

  /** An element after a heading; `level` is present when the element is
      itself a heading. */
  datatype Sibling = Sibling(text: string, level: Option<Level>)

  /** A heading element: its level, text, `id` attribute (possibly empty) and
      the element siblings that follow it, in document order. */
  datatype HeadingNode = HeadingNode(level: Level, text: string, id: string, following: seq<Sibling>)

  /** A paragraph, article, section or marked block: tag name, text, `id`. */
  datatype Block = Block(tag: string, text: string, id: string)

  /** A button: its `aria-label` attribute and its text. */
  datatype ButtonNode = ButtonNode(ariaLabel: Option<string>, text: string)

  datatype Page = Page(
    links: seq<Link>,
    headings: seq<HeadingNode>,
    blocks: seq<Block>,
    sidebar: seq<string>,
    buttons: seq<ButtonNode>)

  /** How much text a heading gathers from the elements after it. */
  const ContentLimit := 200
  /** Blocks with less trimmed text than this are noise. */
  const NoiseFloor := 20
  /** How much of a block's text is looked for in earlier documents. */
  const OverlapProbe := 50
  /** Longest content title before it is cut and marked with `...`. */
  const TitleCap := 60
  /** Longest sidebar title before it is cut and marked with `...`. */
  const SidebarCap := 50
  /** Button labels must be shorter than this. */
  const LabelBound := 50
  /** How much of the hyphenated heading text goes into a generated id. */
  const SlugCap := 20

  /** An attribute that is present and not empty; `||` skips the others. */
  predicate Truthy(a: Option<string>) {
    a.Some? && a.value != []
  }

  // ---------------------------------------------------------------- links

  /** `href`, else `data-href`, else `#`. */
  function LinkTarget(l: Link): (r: string)
    ensures r != []
    ensures Truthy(l.href) ==> r == l.href.value
    ensures !Truthy(l.href) && Truthy(l.dataHref) ==> r == l.dataHref.value
    ensures !Truthy(l.href) && !Truthy(l.dataHref) ==> r == "#"
  {
    if Truthy(l.href) then l.href.value
    else if Truthy(l.dataHref) then l.dataHref.value
    else "#"
  }

  /** The document a link adds, if its trimmed text is not empty. */
  function NavItem(l: Link, index: nat): seq<Doc> {
    var text := Trim(l.text);
    if text == [] then []
    else [Doc("nav-item-" + Decimal(index), text, Navigation, "Page",
              "Navigate to " + text, Some(LinkTarget(l)), SplitWords(Lower(text)))]
  }

  /** The documents the first `n` links add. */
  function NavItems(links: seq<Link>, n: nat): seq<Doc>
    requires n <= |links|
  {
    if n == 0 then [] else NavItems(links, n - 1) + NavItem(links[n - 1], n - 1)
  }

  // ------------------------------------------------------------- headings

  /** A sibling that ends a heading's section: a heading of the same or a
      shallower level. */
  predicate EndsSection(s: Sibling, level: Level) {
    s.level.Some? && s.level.value <= level
  }

  /** What the gathering loop holds when it resumes at sibling `i` with `acc`
      gathered: while there is a sibling and less than `ContentLimit`
      characters, append the sibling's trimmed text and a space (unless the
      text is empty), step to the next sibling, and stop if that one ends the
      section. The test for the end of the section comes after the step, so
      the first sibling is always gathered. */
  function GatherFrom(sibs: seq<Sibling>, level: Level, i: nat, acc: string): string
    requires i <= |sibs|
    decreases |sibs| - i
  {
    if i == |sibs| || |acc| >= ContentLimit then acc
    else
      var acc' := Append(acc, sibs[i]);
      if i + 1 < |sibs| && EndsSection(sibs[i + 1], level) then acc'
      else GatherFrom(sibs, level, i + 1, acc')
  }

  /** One step of gathering: the sibling's trimmed text and a space, unless
      that text is empty. */
  function Append(acc: string, s: Sibling): (r: string)
    ensures |acc| <= |r| <= |acc| + |Trim(s.text)| + 1
  {
    var t := Trim(s.text);
    if t != [] then acc + t + " " else acc
  }

  function Gathered(sibs: seq<Sibling>, level: Level): string {
    GatherFrom(sibs, level, 0, "")
  }

  /** The heading's gathering loop. */
  method GatherSection(sibs: seq<Sibling>, level: Level) returns (content: string)
    ensures content == Gathered(sibs, level)
  {
    content := "";
    var i := 0;
    while i < |sibs| && |content| < ContentLimit
      invariant 0 <= i <= |sibs|
      invariant GatherFrom(sibs, level, i, content) == Gathered(sibs, level)
      decreases |sibs| - i
    {
      content := Append(content, sibs[i]);
      i := i + 1;
      if i < |sibs| && EndsSection(sibs[i], level) {
        break;
      }
    }
  }

  /** Gathering appends nothing once `ContentLimit` characters are held, so
      the gathered text exceeds the limit by at most one sibling's text and
      its space. */
  lemma {:induction false} GatherBound(sibs: seq<Sibling>, level: Level, i: nat, acc: string, m: nat)
    requires i <= |sibs|
    requires TextsWithin(sibs, m)
    requires |acc| <= ContentLimit + m
    ensures |GatherFrom(sibs, level, i, acc)| <= ContentLimit + m
    decreases |sibs| - i
  {
    if i == |sibs| || |acc| >= ContentLimit {
      assert GatherFrom(sibs, level, i, acc) == acc;
    } else {
      var acc' := Append(acc, sibs[i]);
      AppendWithin(sibs, i, acc, m);
      if i + 1 < |sibs| && EndsSection(sibs[i + 1], level) {
        assert GatherFrom(sibs, level, i, acc) == acc';
      } else {
        GatherBound(sibs, level, i + 1, acc', m);
        assert GatherFrom(sibs, level, i, acc) == GatherFrom(sibs, level, i + 1, acc');
      }
    }
  }

  lemma AppendWithin(sibs: seq<Sibling>, i: nat, acc: string, m: nat)
    requires i < |sibs| && TextsWithin(sibs, m) && |acc| < ContentLimit
    ensures |Append(acc, sibs[i])| <= ContentLimit + m
  {
    assert |Trim(sibs[i].text)| + 1 <= m;
  }

  /** Every sibling's trimmed text, plus its space, fits in `m` characters. */
  predicate TextsWithin(sibs: seq<Sibling>, m: nat) {
    forall k :: 0 <= k < |sibs| ==> |Trim(sibs[k].text)| + 1 <= m
  }

  /** Nothing at or after a sibling that ends the section (other than the
      first sibling) is gathered. */
  lemma {:induction false} GatherStopsAtSection(sibs: seq<Sibling>, level: Level, j: nat, i: nat, acc: string)
    requires i < j < |sibs| && EndsSection(sibs[j], level)
    ensures GatherFrom(sibs, level, i, acc) == GatherFrom(sibs[..j], level, i, acc)
    decreases j - i
  {
    if |acc| < ContentLimit {
      assert sibs[..j][i] == sibs[i];
      var acc' := Append(acc, sibs[i]);
      if i + 1 < j {
        assert sibs[..j][i + 1] == sibs[i + 1];
        if !EndsSection(sibs[i + 1], level) {
          GatherStopsAtSection(sibs, level, j, i + 1, acc');
        }
      }
    }
  }

  /** The sibling right after the heading is gathered even when it is a
      heading of the same or a shallower level. */
  lemma FirstSiblingGathered(sibs: seq<Sibling>, level: Level)
    requires sibs != [] && Trim(sibs[0].text) != []
    ensures var t := Trim(sibs[0].text);
            |t| + 1 <= |Gathered(sibs, level)| && Gathered(sibs, level)[..|t| + 1] == t + " "
  {
    var t := Trim(sibs[0].text);
    assert Append("", sibs[0]) == t + " ";
    GatherKeepsPrefix(sibs, level, 1, t + " ");
  }

  lemma {:induction false} GatherKeepsPrefix(sibs: seq<Sibling>, level: Level, i: nat, acc: string)
    requires i <= |sibs|
    ensures |acc| <= |GatherFrom(sibs, level, i, acc)|
    ensures GatherFrom(sibs, level, i, acc)[..|acc|] == acc
    decreases |sibs| - i
  {
    if i < |sibs| && |acc| < ContentLimit {
      var acc' := Append(acc, sibs[i]);
      if !(i + 1 < |sibs| && EndsSection(sibs[i + 1], level)) {
        GatherKeepsPrefix(sibs, level, i + 1, acc');
        assert acc'[..|acc|] == acc;
        assert GatherFrom(sibs, level, i + 1, acc')[..|acc'|][..|acc|] == acc'[..|acc|];
      }
    }
  }

  /** `replace(/\s+/g, '-')`: every run of whitespace becomes one hyphen. */
  function Hyphenate(s: string): string
    decreases |s|
  {
    if s == [] then []
    else if IsSpace(s[0]) then "-" + Hyphenate(TrimStart(s[1..]))
    else [s[0]] + Hyphenate(s[1..])
  }

  /** Hyphenation leaves no whitespace and changes nothing in a string
      without whitespace. */
  lemma {:induction false} HyphenateShape(s: string)
    ensures NoSpace(Hyphenate(s))
    ensures NoSpace(s) ==> Hyphenate(s) == s
    decreases |s|
  {
    if s != [] {
      if IsSpace(s[0]) {
        var rest := TrimStart(s[1..]);
        HyphenateShape(rest);
        assert Hyphenate(s) == "-" + Hyphenate(rest);
      } else {
        HyphenateShape(s[1..]);
        assert Hyphenate(s) == [s[0]] + Hyphenate(s[1..]);
        assert s == [s[0]] + s[1..];
      }
    }
  }

  /** Hyphenation is the whitespace split joined with hyphens: each run of
      whitespace, including one at either end, becomes exactly one hyphen and
      nothing else changes. */
  lemma HyphenateSplits(s: string)
    ensures Hyphenate(s) == JoinWith(SplitWords(s), "-")
  {
    if s != [] && !IsSpace(s[0]) {
      var tail := if IsSpace(s[|s| - 1]) then "-" else "";
      var back := if IsSpace(s[|s| - 1]) then [""] else [];
      HyphenateWord(s);
      assert Tokens(s) != [] by {
        assert Tokens(s) == [s[..RunLength(s)]] + Tokens(s[RunLength(s)..]);
      }
      assert SplitWords(s) == Tokens(s) + back by {
        assert SplitWords(s) == [] + Tokens(s) + back;
      }
      JoinWithTail(Tokens(s), back, tail);
    } else if s != [] {
      HyphenateSpace(s);
    }
  }

  /** An optional trailing empty piece adds an optional separator. */
  lemma JoinWithTail(ws: seq<string>, back: seq<string>, tail: string)
    requires ws != []
    requires (back == [""] && tail == "-") || (back == [] && tail == "")
    ensures JoinWith(ws + back, "-") == JoinWith(ws, "-") + tail
  {
    if back == [""] {
      JoinWithSnocEmpty(ws, "-");
    } else {
      assert ws + back == ws;
    }
  }

  /** A string opening with whitespace hyphenates to a hyphen followed by the
      rest without that whitespace. */
  lemma HyphenateSpace(s: string)
    requires s != [] && IsSpace(s[0])
    ensures Hyphenate(s) == JoinWith(SplitWords(s), "-")
  {
    LeadingSpace(s);
    if TrimStart(s) == [] {
      HyphenateBlank(s);
    } else {
      HyphenateSpaceWord(s);
    }
  }

  /** What the split and the trim see of a string opening with whitespace. */
  lemma LeadingSpace(s: string)
    requires s != [] && IsSpace(s[0])
    ensures var t := TrimStart(s);
            && Hyphenate(s) == "-" + Hyphenate(t)
            && SplitWords(s) == [""] + (Tokens(t) + (if IsSpace(s[|s| - 1]) then [""] else []))
            && (t == [] ==> IsSpace(s[|s| - 1]))
            && (t != [] ==> !IsSpace(t[0]) && t[|t| - 1] == s[|s| - 1])
  {
    LeadingSpaceSplit(s);
    LeadingSpaceTrim(s);
  }

  lemma LeadingSpaceSplit(s: string)
    requires s != [] && IsSpace(s[0])
    ensures SplitWords(s) == [""] + (Tokens(TrimStart(s)) + (if IsSpace(s[|s| - 1]) then [""] else []))
  {
    var back: seq<string> := if IsSpace(s[|s| - 1]) then [""] else [];
    assert SplitWords(s) == [""] + Tokens(s) + back;
    TokensTrimStart(s);
    Regroup3([""], Tokens(TrimStart(s)), back);
  }

  lemma LeadingSpaceTrim(s: string)
    requires s != [] && IsSpace(s[0])
    ensures var t := TrimStart(s);
            && (t == [] ==> IsSpace(s[|s| - 1]))
            && (t != [] ==> !IsSpace(t[0]) && t[|t| - 1] == s[|s| - 1])
  {
    TrimStartFacts(s);
    if TrimStart(s) == [] {
      assert s[..|s|] == s;
    }
  }

  lemma HyphenateBlank(s: string)
    requires s != [] && IsSpace(s[0]) && TrimStart(s) == []
    ensures Hyphenate(s) == JoinWith(SplitWords(s), "-")
  {
    LeadingSpace(s);
    assert SplitWords(s) == [""] + [""];
    JoinWithCons("", [""], "-");
  }

  lemma HyphenateSpaceWord(s: string)
    requires s != [] && IsSpace(s[0]) && TrimStart(s) != []
    ensures Hyphenate(s) == JoinWith(SplitWords(s), "-")
  {
    var t := TrimStart(s);
    var back := if IsSpace(s[|s| - 1]) then [""] else [];
    var tail := if IsSpace(s[|s| - 1]) then "-" else "";
    LeadingSpace(s);
    HyphenateWord(t);
    assert Tokens(t) != [] by {
      assert Tokens(t) == [t[..RunLength(t)]] + Tokens(t[RunLength(t)..]);
    }
    calc {
      JoinWith(SplitWords(s), "-");
      JoinWith([""] + (Tokens(t) + back), "-");
      { JoinWithCons("", Tokens(t) + back, "-"); }
      "" + "-" + JoinWith(Tokens(t) + back, "-");
      { JoinWithTail(Tokens(t), back, tail); }
      "" + "-" + (JoinWith(Tokens(t), "-") + tail);
      { assert "" + "-" == "-"; }
      "-" + (JoinWith(Tokens(t), "-") + tail);
      "-" + Hyphenate(t);
    }
  }

  /** The leading word is copied as it is. */
  lemma {:induction false} HyphenateRun(s: string)
    ensures Hyphenate(s) == s[..RunLength(s)] + Hyphenate(s[RunLength(s)..])
    decreases |s|
  {
    if s != [] && !IsSpace(s[0]) {
      var m := RunLength(s[1..]);
      assert RunLength(s) == 1 + m;
      calc {
        Hyphenate(s);
        [s[0]] + Hyphenate(s[1..]);
        { HyphenateRun(s[1..]); }
        [s[0]] + (s[1..][..m] + Hyphenate(s[1..][m..]));
        { assert s[1..][m..] == s[1 + m..]; }
        [s[0]] + (s[1..][..m] + Hyphenate(s[1 + m..]));
        ([s[0]] + s[1..][..m]) + Hyphenate(s[1 + m..]);
        { assert [s[0]] + s[1..][..m] == s[..1 + m]; }
        s[..1 + m] + Hyphenate(s[1 + m..]);
      }
    }
  }

  /** A string opening with a word hyphenates to its words joined by hyphens,
      plus one hyphen for trailing whitespace. */
  lemma {:induction false} HyphenateWord(s: string)
    requires s != [] && !IsSpace(s[0])
    ensures Hyphenate(s) == JoinWith(Tokens(s), "-") + (if IsSpace(s[|s| - 1]) then "-" else "")
    decreases |s|
  {
    var n := RunLength(s);
    if n < |s| && TrimStart(s[n..]) != [] {
      var t := TrimStart(s[n..]);
      TrimStartFacts(s[n..]);
      HyphenateWord(t);
      HyphenateWordMore(s);
    } else if n == |s| {
      HyphenateWordOnly(s);
    } else {
      HyphenateWordTrailing(s);
    }
  }

  /** The string is one word. */
  lemma HyphenateWordOnly(s: string)
    requires s != [] && !IsSpace(s[0]) && RunLength(s) == |s|
    ensures Hyphenate(s) == JoinWith(Tokens(s), "-") + (if IsSpace(s[|s| - 1]) then "-" else "")
  {
    var w := s[..|s|];
    HyphenateRun(s);
    assert w == s;
    assert Tokens(s) == [w] + Tokens([]);
    assert !IsSpace(s[|s| - 1]) by {
      assert s[|s| - 1] == w[|s| - 1];
    }
    calc {
      Hyphenate(s);
      w + Hyphenate([]);
      w;
      JoinWith([w], "-");
      JoinWith(Tokens(s), "-") + "";
    }
  }

  lemma BlankEndsInSpace(r: string)
    requires r != [] && TrimStart(r) == []
    ensures IsSpace(r[|r| - 1])
  {
    TrimStartFacts(r);
    assert r[..|r|] == r;
  }

  /** The string is one word followed by whitespace. */
  lemma HyphenateWordTrailing(s: string)
    requires s != [] && !IsSpace(s[0])
    requires RunLength(s) < |s| && TrimStart(s[RunLength(s)..]) == []
    ensures Hyphenate(s) == JoinWith(Tokens(s), "-") + (if IsSpace(s[|s| - 1]) then "-" else "")
  {
    var w := s[..RunLength(s)];
    TrailingHyphen(s);
    TrailingTokens(s);
    TrailingSpace(s);
    assert JoinWith([w], "-") == w;
  }

  lemma TrailingHyphen(s: string)
    requires RunLength(s) < |s| && TrimStart(s[RunLength(s)..]) == []
    ensures Hyphenate(s) == s[..RunLength(s)] + "-"
  {
    var r := s[RunLength(s)..];
    HyphenateRun(s);
    assert Hyphenate(r) == "-" + Hyphenate(TrimStart(r));
  }

  lemma TrailingTokens(s: string)
    requires s != [] && !IsSpace(s[0])
    requires RunLength(s) < |s| && TrimStart(s[RunLength(s)..]) == []
    ensures Tokens(s) == [s[..RunLength(s)]]
  {
    var r := s[RunLength(s)..];
    assert Tokens(s) == [s[..RunLength(s)]] + Tokens(r);
    TokensTrimStart(r);
    assert Tokens(r) == Tokens([]) == [];
  }

  lemma TrailingSpace(s: string)
    requires RunLength(s) < |s| && TrimStart(s[RunLength(s)..]) == []
    ensures IsSpace(s[|s| - 1])
  {
    var r := s[RunLength(s)..];
    BlankEndsInSpace(r);
    assert r[|r| - 1] == s[|s| - 1];
  }

  /** More words follow the first: its hyphen joins it to their hyphenation. */
  lemma HyphenateWordMore(s: string)
    requires s != [] && !IsSpace(s[0])
    requires RunLength(s) < |s| && TrimStart(s[RunLength(s)..]) != []
    requires var t := TrimStart(s[RunLength(s)..]);
             Hyphenate(t) == JoinWith(Tokens(t), "-") + (if IsSpace(t[|t| - 1]) then "-" else "")
    ensures Hyphenate(s) == JoinWith(Tokens(s), "-") + (if IsSpace(s[|s| - 1]) then "-" else "")
  {
    var n := RunLength(s);
    var w := s[..n];
    var r := s[n..];
    var t := TrimStart(r);
    var tail := if IsSpace(s[|s| - 1]) then "-" else "";
    HyphenateRun(s);
    assert Tokens(s) == [w] + Tokens(r);
    assert Hyphenate(r) == "-" + Hyphenate(t);
    TokensTrimStart(r);
    TrimStartFacts(r);
    assert t[|t| - 1] == s[|s| - 1];
    assert Tokens(t) != [] by {
      assert Tokens(t) == [t[..RunLength(t)]] + Tokens(t[RunLength(t)..]);
    }
    calc {
      Hyphenate(s);
      w + ("-" + Hyphenate(t));
      w + ("-" + (JoinWith(Tokens(t), "-") + tail));
      { Regroup(w, "-", JoinWith(Tokens(t), "-"), tail); }
      (w + "-" + JoinWith(Tokens(t), "-")) + tail;
      { JoinWithCons(w, Tokens(t), "-"); }
      JoinWith([w] + Tokens(t), "-") + tail;
      { assert Tokens(s) == [w] + Tokens(t); }
      JoinWith(Tokens(s), "-") + tail;
    }
  }

  lemma Regroup(a: string, b: string, c: string, d: string)
    ensures a + (b + (c + d)) == (a + b + c) + d
  {
  }

  /** The heading's own `id`, or one made from its position and text. */
  function HeadingId(h: HeadingNode, index: nat): string {
    if h.id != [] then h.id
    else "heading-" + Decimal(index) + "-" + Take(Hyphenate(Lower(Trim(h.text))), SlugCap)
  }

  /** A generated id is `heading-<index>-` followed by at most `SlugCap`
      characters of the lower-cased, hyphenated text, without whitespace; a
      short one-word heading keeps its whole lower-cased text. */
  lemma HeadingIdShape(h: HeadingNode, index: nat)
    requires h.id == []
    ensures var prefix := "heading-" + Decimal(index) + "-";
            var id := HeadingId(h, index);
            var slug := id[|prefix|..];
            && |prefix| <= |id| <= |prefix| + SlugCap
            && id[..|prefix|] == prefix
            && NoSpace(slug)
            && |slug| == Min(SlugCap, |Hyphenate(Lower(Trim(h.text)))|)
            && slug == Hyphenate(Lower(Trim(h.text)))[..|slug|]
            && (NoSpace(Trim(h.text)) && |Trim(h.text)| <= SlugCap ==> slug == Lower(Trim(h.text)))
  {
    var text := Lower(Trim(h.text));
    var prefix := "heading-" + Decimal(index) + "-";
    var slug := Take(Hyphenate(text), SlugCap);
    assert HeadingId(h, index) == prefix + slug;
    assert (prefix + slug)[|prefix|..] == slug;
    assert forall k :: 0 <= k < |slug| ==> slug[k] == Hyphenate(text)[k];
    HyphenateShape(text);
    LowerKeepsSpace(Trim(h.text));
  }

  function HeadingDoc(h: HeadingNode, index: nat, content: string): Doc {
    var text := Trim(h.text);
    var id := HeadingId(h, index);
    Doc(id, text, Heading, "H" + [Digit(h.level)],
        if Trim(content) != [] then Trim(content) else text,
        Some("#" + id), SplitWords(Lower(text)))
  }

  /** The document a heading adds, if its trimmed text is not empty. */
  function HeadingItem(h: HeadingNode, index: nat): seq<Doc> {
    if Trim(h.text) == [] then [] else [HeadingDoc(h, index, Gathered(h.following, h.level))]
  }

  /** A heading with text adds one document: titled by the trimmed text, with
      its own `id` when it has one, an `href` of `#` and the id, the
      upper-cased tag as category, and the gathered section as content unless
      that is blank. */
  lemma HeadingItemShape(h: HeadingNode, index: nat)
    ensures HeadingItem(h, index) == [] <==> Trim(h.text) == []
    ensures Trim(h.text) != [] ==>
              var d := HeadingItem(h, index)[0];
              var section := Trim(Gathered(h.following, h.level));
              && |HeadingItem(h, index)| == 1
              && d.kind == Heading && d.title == Trim(h.text)
              && d.id == HeadingId(h, index) && (h.id != [] ==> d.id == h.id)
              && d.href == Some("#" + d.id)
              && d.category == ['H', Digit(h.level)]
              && d.content == (if section != [] then section else d.title)
              && d.keywords == SplitWords(Lower(d.title))
  {
  }

  function HeadingItems(hs: seq<HeadingNode>, n: nat): seq<Doc>
    requires n <= |hs|
  {
    if n == 0 then [] else HeadingItems(hs, n - 1) + HeadingItem(hs[n - 1], n - 1)
  }

  // ------------------------------------------------------- content blocks

  predicate IsTerminator(c: char) {
    c == '.' || c == '!' || c == '?'
  }

  /** `split(/[.!?]/)[0]`: the text before the first sentence terminator. */
  function UntilTerminator(s: string): (r: string)
    ensures |r| <= |s| && r == s[..|r|]
    ensures forall k :: 0 <= k < |r| ==> !IsTerminator(r[k])
    ensures |r| < |s| ==> IsTerminator(s[|r|])
  {
    if s == [] || IsTerminator(s[0]) then [] else [s[0]] + UntilTerminator(s[1..])
  }

  /** The trimmed first sentence, cut to `TitleCap` characters and marked with
      `...` if longer, or `Content <index + 1>` if it is empty. */
  function ContentTitle(text: string, index: nat): string {
    var sentence := Trim(UntilTerminator(text));
    var title := if |sentence| > TitleCap then sentence[..TitleCap] + "..." else sentence;
    if title != [] then title else "Content " + Decimal(index + 1)
  }

  predicate NoTerminator(s: string) {
    forall k :: 0 <= k < |s| ==> !IsTerminator(s[k])
  }

  /** A content title is never empty and no sentence terminator occurs
      before the marker; taken from a sentence it is at most the cap plus the
      marker, otherwise it is the numbered fallback. */
  lemma ContentTitleShape(text: string, index: nat)
    ensures var title := ContentTitle(text, index);
            var sentence := Trim(UntilTerminator(text));
            && title != []
            && NoTerminator(Take(title, TitleCap))
            && (sentence != [] ==> |title| <= TitleCap + 3 && title[..Min(|sentence|, TitleCap)] == sentence[..Min(|sentence|, TitleCap)])
            && (sentence == [] ==> title == "Content " + Decimal(index + 1))
            && (0 < |sentence| <= TitleCap ==> title == sentence)
            && (|sentence| > TitleCap ==> title == sentence[..TitleCap] + "...")
  {
    var sentence := Trim(UntilTerminator(text));
    SentenceNoTerminator(text);
    if sentence == [] {
      FallbackNoTerminator(index);
    } else {
      var title := ContentTitle(text, index);
      var t := Take(title, TitleCap);
      assert forall k :: 0 <= k < |t| ==> t[k] == sentence[k];
    }
  }

  lemma SentenceNoTerminator(text: string)
    ensures NoTerminator(Trim(UntilTerminator(text)))
  {
    var u := UntilTerminator(text);
    var sentence := Trim(u);
    TrimFacts(u);
    var a := |u| - |TrimStart(u)|;
    assert forall k :: 0 <= k < |sentence| ==> sentence[k] == u[a + k];
  }

  lemma FallbackNoTerminator(index: nat)
    ensures NoTerminator("Content " + Decimal(index + 1))
  {
    var d := Decimal(index + 1);
    DecimalDigits(index + 1);
    var title := "Content " + d;
    forall k | 0 <= k < |title| ensures !IsTerminator(title[k]) {
      if k >= 8 {
        assert title[k] == d[k - 8];
      }
    }
  }

  function Min(a: int, b: int): int {
    if a <= b then a else b
  }

  function LongEnough(w: string): bool {
    |w| > 3
  }

  /** `.filter(word => word.length > 3)`. */
  function LongWords(ws: seq<string>): seq<string> {
    Filter(ws, LongEnough)
  }

  /** The kept words are exactly the words of more than three characters,
      each as often as it occurs, in their order. */
  lemma LongWordsKept(ws: seq<string>)
    ensures forall w :: w in LongWords(ws) <==> w in ws && |w| > 3
    ensures IsSubseq(LongWords(ws), ws)
    ensures forall w :: multiset(LongWords(ws))[w] == if |w| > 3 then multiset(ws)[w] else 0
  {
    FilterMembers(ws, LongEnough);
    FilterSubseq(ws, LongEnough);
    FilterCounts(ws, LongEnough);
  }

  /** `text.substring(0, n)`. */
  function Prefix(s: string, n: nat): string {
    Take(s, n)
  }

  /** Some earlier document with non-empty content contains the first
      `OverlapProbe` characters of the text. */
  predicate AlreadyIndexed(items: seq<Doc>, text: string) {
    exists k | 0 <= k < |items| :: items[k].content != [] && Contains(items[k].content, Prefix(text, OverlapProbe))
  }

  /** The document a content block adds given the documents collected so
      far. */
  function ContentItem(items: seq<Doc>, b: Block, index: nat): seq<Doc> {
    var text := Trim(b.text);
    if |text| < NoiseFloor || AlreadyIndexed(items, text) then []
    else
      var anchor := if b.id != [] then b.id else "content-" + Decimal(index);
      [Doc("content-" + Decimal(index), ContentTitle(text, index), Content, b.tag,
           text, Some("#" + anchor), LongWords(SplitWords(Lower(text))))]
  }

  /** The document a block adds carries the block's trimmed text, a content
      title, an anchor on the block's own `id` when it has one, and as
      keywords exactly the lowered words of more than three characters, in
      order. */
  lemma ContentItemShape(items: seq<Doc>, b: Block, index: nat)
    requires ContentItem(items, b, index) != []
    ensures var d := ContentItem(items, b, index)[0];
            var text := Trim(b.text);
            var words := SplitWords(Lower(text));
            && d.kind == Content && d.category == b.tag
            && d.id == "content-" + Decimal(index)
            && d.href == Some("#" + (if b.id != [] then b.id else d.id))
            && d.content == text
            && d.title == ContentTitle(text, index)
            && (forall w :: w in d.keywords <==> w in words && |w| > 3)
            && IsSubseq(d.keywords, words)
            && (forall w :: multiset(d.keywords)[w] == if |w| > 3 then multiset(words)[w] else 0)
            && forall j :: 0 <= j < |d.keywords| ==> NoSpace(d.keywords[j])
  {
    var text := Trim(b.text);
    var d := ContentItem(items, b, index)[0];
    LongWordsKept(SplitWords(Lower(text)));
    SplitWordsNoSpace(Lower(text));
    forall j | 0 <= j < |d.keywords| ensures NoSpace(d.keywords[j]) {
      assert d.keywords[j] in d.keywords;
    }
  }

  lemma SplitWordsNoSpace(s: string)
    ensures forall k :: 0 <= k < |SplitWords(s)| ==> NoSpace(SplitWords(s)[k])
  {
    if s != [] {
      var front := if IsSpace(s[0]) then [""] else [];
      TokensShape(s);
      forall k | |front| <= k < |front| + |Tokens(s)| ensures NoSpace(SplitWords(s)[k]) {
        assert SplitWords(s)[k] == Tokens(s)[k - |front|];
      }
    }
  }

  /** The documents the first `n` blocks add after `prior`. */
  function ContentItems(prior: seq<Doc>, blocks: seq<Block>, n: nat): seq<Doc>
    requires n <= |blocks|
  {
    if n == 0 then []
    else
      var earlier := ContentItems(prior, blocks, n - 1);
      earlier + ContentItem(prior + earlier, blocks[n - 1], n - 1)
  }

  // -------------------------------------------------------- sidebar, buttons

  function SidebarItem(s: string, index: nat): seq<Doc> {
    var text := Trim(s);
    if text == [] then []
    else [Doc("sidebar-" + Decimal(index),
              if |text| > SidebarCap then text[..SidebarCap] + "..." else text,
              Profile, "Sidebar", text, Some("#sidebar"), SplitWords(Lower(text)))]
  }

  /** A sidebar line with text adds one profile document holding the trimmed
      text, titled by it when it has at most `SidebarCap` characters and
      otherwise by its first `SidebarCap` characters and `...`. */
  lemma SidebarItemShape(s: string, index: nat)
    ensures SidebarItem(s, index) == [] <==> Trim(s) == []
    ensures Trim(s) != [] ==>
              var t := Trim(s);
              var d := SidebarItem(s, index)[0];
              var kept := Min(|t|, SidebarCap);
              && |SidebarItem(s, index)| == 1
              && d.kind == Profile && d.href == Some("#sidebar")
              && d.id == "sidebar-" + Decimal(index)
              && d.category == "Sidebar"
              && d.keywords == SplitWords(Lower(t))
              && d.content == t
              && d.title == (if |t| > SidebarCap then t[..SidebarCap] + "..." else t)
              && |d.title| <= SidebarCap + 3
              && d.title[..kept] == t[..kept]
  {
    var t := Trim(s);
    if t != [] && |t| > SidebarCap {
      var d := SidebarItem(s, index)[0];
      assert d.title[..SidebarCap] == t[..SidebarCap];
    }
  }

  function SidebarItems(ss: seq<string>, n: nat): seq<Doc>
    requires n <= |ss|
  {
    if n == 0 then [] else SidebarItems(ss, n - 1) + SidebarItem(ss[n - 1], n - 1)
  }

  /** `aria-label`, else the trimmed text. */
  function ButtonLabel(b: ButtonNode): string {
    if Truthy(b.ariaLabel) then b.ariaLabel.value else Trim(b.text)
  }

  function ButtonItem(b: ButtonNode, index: nat): seq<Doc> {
    var caption := ButtonLabel(b);
    if caption == [] || |caption| >= LabelBound then []
    else [Doc("button-" + Decimal(index), caption, Button, "UI Element",
              "Button: " + caption, None, SplitWords(Lower(caption)))]
  }

  function ButtonItems(bs: seq<ButtonNode>, n: nat): seq<Doc>
    requires n <= |bs|
  {
    if n == 0 then [] else ButtonItems(bs, n - 1) + ButtonItem(bs[n - 1], n - 1)
  }

  // ------------------------------------------------------------- the pass

  /** Links, then headings, then content blocks (checked against everything
      before them), then sidebar lines, then buttons. */
  function IndexPage(page: Page): seq<Doc> {
    var prior := NavItems(page.links, |page.links|) + HeadingItems(page.headings, |page.headings|);
    prior
    + ContentItems(prior, page.blocks, |page.blocks|)
    + SidebarItems(page.sidebar, |page.sidebar|)
    + ButtonItems(page.buttons, |page.buttons|)
  }

  /** The extraction pass: five loops, each appending to the collected
      documents. */
  method IndexPageContent(page: Page) returns (items: seq<Doc>)
    ensures items == IndexPage(page)
  {
    var navDocs := IndexLinks(page.links);
    var headingDocs := IndexHeadings(page.headings);
    items := navDocs + headingDocs;
    var contentDocs := IndexBlocks(items, page.blocks);
    var sidebarDocs := IndexSidebar(page.sidebar);
    var buttonDocs := IndexButtons(page.buttons);
    items := items + contentDocs + sidebarDocs + buttonDocs;
  }

  /** The navigation-link loop. */
  method IndexLinks(links: seq<Link>) returns (docs: seq<Doc>)
    ensures docs == NavItems(links, |links|)
  {
    docs := [];
    for i := 0 to |links|
      invariant docs == NavItems(links, i)
    {
      docs := docs + NavItem(links[i], i);
    }
  }

  /** The sidebar loop. */
  method IndexSidebar(ss: seq<string>) returns (docs: seq<Doc>)
    ensures docs == SidebarItems(ss, |ss|)
  {
    docs := [];
    for i := 0 to |ss|
      invariant docs == SidebarItems(ss, i)
    {
      docs := docs + SidebarItem(ss[i], i);
    }
  }

  /** The button loop. */
  method IndexButtons(bs: seq<ButtonNode>) returns (docs: seq<Doc>)
    ensures docs == ButtonItems(bs, |bs|)
  {
    docs := [];
    for i := 0 to |bs|
      invariant docs == ButtonItems(bs, i)
    {
      docs := docs + ButtonItem(bs[i], i);
    }
  }

  /** The heading loop: each heading with text gathers the section after it. */
  method IndexHeadings(hs: seq<HeadingNode>) returns (docs: seq<Doc>)
    ensures docs == HeadingItems(hs, |hs|)
  {
    docs := [];
    for i := 0 to |hs|
      invariant docs == HeadingItems(hs, i)
    {
      var item := IndexHeading(hs[i], i);
      docs := docs + item;
    }
  }

  /** One heading: skipped when its text is blank, otherwise indexed with the
      section gathered after it. */
  method IndexHeading(h: HeadingNode, index: nat) returns (item: seq<Doc>)
    ensures item == HeadingItem(h, index)
  {
    if Trim(h.text) != [] {
      var content := GatherSection(h.following, h.level);
      item := [HeadingDoc(h, index, content)];
    } else {
      item := [];
    }
  }

  /** The content-block loop: skip noise and text already indexed (by the
      documents before the blocks or by earlier blocks), title the rest. */
  method IndexBlocks(prior: seq<Doc>, blocks: seq<Block>) returns (docs: seq<Doc>)
    ensures docs == ContentItems(prior, blocks, |blocks|)
  {
    docs := [];
    for i := 0 to |blocks|
      invariant docs == ContentItems(prior, blocks, i)
    {
      docs := docs + ContentItem(prior + docs, blocks[i], i);
    }
  }

  // ----------------------------------------------------------- properties

  /** What every extracted document satisfies: a non-empty title; a sidebar
      title within the sidebar cap plus the marker; a button title shorter
      than the label bound and no link target. */
  predicate WellFormed(d: Doc) {
    && d.title != []
    && (d.kind == Profile ==> |d.title| <= SidebarCap + 3)
    && (d.kind == Button ==> |d.title| < LabelBound && d.href.None?)
  }

  predicate AllWellFormed(ds: seq<Doc>) {
    forall k :: 0 <= k < |ds| ==> WellFormed(ds[k])
  }

  lemma AllWellFormedAppend(a: seq<Doc>, b: seq<Doc>)
    requires AllWellFormed(a) && AllWellFormed(b)
    ensures AllWellFormed(a + b)
  {
    forall k | 0 <= k < |a + b| ensures WellFormed((a + b)[k]) {
      if k >= |a| {
        assert (a + b)[k] == b[k - |a|];
      }
    }
  }

  /** Every document the pass extracts is well formed. */
  lemma {:induction false} IndexPageWellFormed(page: Page)
    ensures AllWellFormed(IndexPage(page))
  {
    var nav := NavItems(page.links, |page.links|);
    var heads := HeadingItems(page.headings, |page.headings|);
    var prior := nav + heads;
    var contents := ContentItems(prior, page.blocks, |page.blocks|);
    var side := SidebarItems(page.sidebar, |page.sidebar|);
    var buttons := ButtonItems(page.buttons, |page.buttons|);
    NavWellFormed(page.links, |page.links|);
    HeadingsWellFormed(page.headings, |page.headings|);
    ContentsWellFormed(prior, page.blocks, |page.blocks|);
    SidebarWellFormed(page.sidebar, |page.sidebar|);
    ButtonsWellFormed(page.buttons, |page.buttons|);
    AllWellFormedAppend(nav, heads);
    AllWellFormedAppend(prior, contents);
    AllWellFormedAppend(prior + contents, side);
    AllWellFormedAppend(prior + contents + side, buttons);
  }

  lemma {:induction false} NavWellFormed(links: seq<Link>, n: nat)
    requires n <= |links|
    ensures AllWellFormed(NavItems(links, n))
  {
    if n > 0 {
      var rest := NavItems(links, n - 1);
      var item := NavItem(links[n - 1], n - 1);
      assert NavItems(links, n) == rest + item;
      NavWellFormed(links, n - 1);
      NavItemWellFormed(links[n - 1], n - 1);
      AllWellFormedAppend(rest, item);
    }
  }

  lemma {:induction false} HeadingsWellFormed(hs: seq<HeadingNode>, n: nat)
    requires n <= |hs|
    ensures AllWellFormed(HeadingItems(hs, n))
  {
    if n > 0 {
      var rest := HeadingItems(hs, n - 1);
      var item := HeadingItem(hs[n - 1], n - 1);
      assert HeadingItems(hs, n) == rest + item;
      HeadingsWellFormed(hs, n - 1);
      HeadingItemWellFormed(hs[n - 1], n - 1);
      AllWellFormedAppend(rest, item);
    }
  }

  lemma {:induction false} ContentsWellFormed(prior: seq<Doc>, blocks: seq<Block>, n: nat)
    requires n <= |blocks|
    ensures AllWellFormed(ContentItems(prior, blocks, n))
  {
    if n > 0 {
      ContentsWellFormed(prior, blocks, n - 1);
      ContentsWellFormedStep(prior, blocks, n);
    }
  }

  lemma ContentsWellFormedStep(prior: seq<Doc>, blocks: seq<Block>, n: nat)
    requires 0 < n <= |blocks|
    requires AllWellFormed(ContentItems(prior, blocks, n - 1))
    ensures AllWellFormed(ContentItems(prior, blocks, n))
  {
    var earlier := ContentItems(prior, blocks, n - 1);
    var item := ContentItem(prior + earlier, blocks[n - 1], n - 1);
    assert ContentItems(prior, blocks, n) == earlier + item;
    ContentItemWellFormed(prior + earlier, blocks[n - 1], n - 1);
    AllWellFormedAppend(earlier, item);
  }

  lemma ContentItemWellFormed(items: seq<Doc>, b: Block, index: nat)
    ensures AllWellFormed(ContentItem(items, b, index))
  {
    var item := ContentItem(items, b, index);
    if item != [] {
      assert item[0].title == ContentTitle(Trim(b.text), index) != [];
    }
  }

  lemma {:induction false} SidebarWellFormed(ss: seq<string>, n: nat)
    requires n <= |ss|
    ensures AllWellFormed(SidebarItems(ss, n))
  {
    if n > 0 {
      var rest := SidebarItems(ss, n - 1);
      var item := SidebarItem(ss[n - 1], n - 1);
      assert SidebarItems(ss, n) == rest + item;
      SidebarWellFormed(ss, n - 1);
      SidebarItemWellFormed(ss[n - 1], n - 1);
      AllWellFormedAppend(rest, item);
    }
  }

  lemma {:induction false} ButtonsWellFormed(bs: seq<ButtonNode>, n: nat)
    requires n <= |bs|
    ensures AllWellFormed(ButtonItems(bs, n))
  {
    if n > 0 {
      var rest := ButtonItems(bs, n - 1);
      var item := ButtonItem(bs[n - 1], n - 1);
      assert ButtonItems(bs, n) == rest + item;
      ButtonsWellFormed(bs, n - 1);
      ButtonItemWellFormed(bs[n - 1], n - 1);
      AllWellFormedAppend(rest, item);
    }
  }

  /** A link adds a document exactly when its trimmed text is not blank: a
      `nav-item-<index>` navigation entry of category Page titled by that
      text, with `Navigate to <text>` as content, the link's target and the
      whitespace split of the lowered text as keywords. */
  lemma NavItemShape(l: Link, index: nat)
    ensures NavItem(l, index) == [] <==> Trim(l.text) == []
    ensures Trim(l.text) != [] ==>
              var t := Trim(l.text);
              var d := NavItem(l, index)[0];
              && |NavItem(l, index)| == 1
              && d.id == "nav-item-" + Decimal(index)
              && d.title == t && d.kind == Navigation && d.category == "Page"
              && d.content == "Navigate to " + t
              && d.href == Some(LinkTarget(l)) && d.href.value != []
              && d.keywords == SplitWords(Lower(t))
  {
  }

  lemma NavItemWellFormed(l: Link, index: nat)
    ensures AllWellFormed(NavItem(l, index))
  {
    var item := NavItem(l, index);
    if item != [] {
      assert item[0].title == Trim(l.text);
    }
  }

  lemma HeadingItemWellFormed(h: HeadingNode, index: nat)
    ensures AllWellFormed(HeadingItem(h, index))
  {
    var item := HeadingItem(h, index);
    if item != [] {
      assert item[0].title == Trim(h.text);
    }
  }

  lemma SidebarItemWellFormed(s: string, index: nat)
    ensures AllWellFormed(SidebarItem(s, index))
  {
    var item := SidebarItem(s, index);
    if item != [] {
      assert item[0].kind == Profile;
    }
  }

  /** The label is the truthy `aria-label`, else the trimmed text. A button
      adds a document exactly when that label has between 1 and 49
      characters: a `button-<index>` entry of kind Button and category
      UI Element titled by the label, with `Button: <label>` as content, no
      link target and the whitespace split of the lowered label as keywords. */
  lemma ButtonItemShape(b: ButtonNode, index: nat)
    ensures ButtonLabel(b) == if Truthy(b.ariaLabel) then b.ariaLabel.value else Trim(b.text)
    ensures ButtonItem(b, index) != [] <==> 0 < |ButtonLabel(b)| < LabelBound
    ensures ButtonItem(b, index) != [] ==>
              var caption := ButtonLabel(b);
              var d := ButtonItem(b, index)[0];
              && |ButtonItem(b, index)| == 1
              && d.id == "button-" + Decimal(index)
              && d.title == caption && d.kind == Button && d.category == "UI Element"
              && d.content == "Button: " + caption
              && d.href == None
              && d.keywords == SplitWords(Lower(caption))
  {
  }

  lemma ButtonItemWellFormed(b: ButtonNode, index: nat)
    ensures AllWellFormed(ButtonItem(b, index))
  {
    var item := ButtonItem(b, index);
    if item != [] {
      assert item[0].title == ButtonLabel(b);
    }
  }

  // -------------------------------------------------- the content-block rule

  predicate OfKind(ds: seq<Doc>, k: Kind) {
    forall j :: 0 <= j < |ds| ==> ds[j].kind == k
  }

  lemma OfKindAppend(a: seq<Doc>, b: seq<Doc>, k: Kind)
    requires OfKind(a, k) && OfKind(b, k)
    ensures OfKind(a + b, k)
  {
    forall j | 0 <= j < |a + b| ensures (a + b)[j].kind == k {
      if j >= |a| {
        assert (a + b)[j] == b[j - |a|];
      }
    }
  }

  lemma {:induction false} NavKinds(links: seq<Link>, n: nat)
    requires n <= |links|
    ensures OfKind(NavItems(links, n), Navigation)
  {
    if n > 0 {
      var rest := NavItems(links, n - 1);
      var item := NavItem(links[n - 1], n - 1);
      assert NavItems(links, n) == rest + item;
      NavKinds(links, n - 1);
      OfKindAppend(rest, item, Navigation);
    }
  }

  lemma {:induction false} HeadingKinds(hs: seq<HeadingNode>, n: nat)
    requires n <= |hs|
    ensures OfKind(HeadingItems(hs, n), Heading)
  {
    if n > 0 {
      var rest := HeadingItems(hs, n - 1);
      var item := HeadingItem(hs[n - 1], n - 1);
      assert HeadingItems(hs, n) == rest + item;
      HeadingKinds(hs, n - 1);
      HeadingItemShape(hs[n - 1], n - 1);
      OfKindAppend(rest, item, Heading);
    }
  }

  lemma {:induction false} SidebarKinds(ss: seq<string>, n: nat)
    requires n <= |ss|
    ensures OfKind(SidebarItems(ss, n), Profile)
  {
    if n > 0 {
      var rest := SidebarItems(ss, n - 1);
      var item := SidebarItem(ss[n - 1], n - 1);
      assert SidebarItems(ss, n) == rest + item;
      SidebarKinds(ss, n - 1);
      OfKindAppend(rest, item, Profile);
    }
  }

  lemma {:induction false} ButtonKinds(bs: seq<ButtonNode>, n: nat)
    requires n <= |bs|
    ensures OfKind(ButtonItems(bs, n), Button)
  {
    if n > 0 {
      var rest := ButtonItems(bs, n - 1);
      var item := ButtonItem(bs[n - 1], n - 1);
      assert ButtonItems(bs, n) == rest + item;
      ButtonKinds(bs, n - 1);
      OfKindAppend(rest, item, Button);
    }
  }

  /** The document at `p` is a content document that passed both tests
      against everything before it. */
  predicate AdmittedAt(ds: seq<Doc>, p: nat)
    requires p < |ds|
  {
    ds[p].kind == Content && |ds[p].content| >= NoiseFloor && !AlreadyIndexed(ds[..p], ds[p].content)
  }

  /** Appending documents does not change what was admitted before them. */
  lemma AdmittedKept(before: seq<Doc>, extra: seq<Doc>, p: nat)
    requires p < |before| && AdmittedAt(before, p)
    ensures AdmittedAt(before + extra, p)
  {
    assert (before + extra)[..p] == before[..p];
  }

  /** A block adds a document exactly when its trimmed text reaches the noise
      floor and is not already indexed; the document it adds is admitted
      right after the documents it was tested against. */
  lemma ContentItemAdmitted(items: seq<Doc>, b: Block, index: nat)
    ensures |ContentItem(items, b, index)| <= 1
    ensures ContentItem(items, b, index) != [] <==>
              |Trim(b.text)| >= NoiseFloor && !AlreadyIndexed(items, Trim(b.text))
    ensures ContentItem(items, b, index) != [] ==> AdmittedAt(items + ContentItem(items, b, index), |items|)
  {
    assert (items + ContentItem(items, b, index))[..|items|] == items;
  }

  /** Every document of `ds` after the first `from` passed both tests. */
  predicate AdmittedFrom(ds: seq<Doc>, from: nat) {
    forall p :: from <= p < |ds| ==> AdmittedAt(ds, p)
  }

  /** Every document the content loop adds passed both tests against all
      documents collected before it. */
  lemma {:induction false} ContentItemsAdmitted(prior: seq<Doc>, blocks: seq<Block>, n: nat)
    requires n <= |blocks|
    ensures AdmittedFrom(prior + ContentItems(prior, blocks, n), |prior|)
  {
    if n > 0 {
      ContentItemsAdmitted(prior, blocks, n - 1);
    }
    ContentItemsAdmittedStep(prior, blocks, n);
  }

  /** One turn of the content loop keeps every added document admitted. */
  lemma ContentItemsAdmittedStep(prior: seq<Doc>, blocks: seq<Block>, n: nat)
    requires n <= |blocks|
    requires n > 0 ==> AdmittedFrom(prior + ContentItems(prior, blocks, n - 1), |prior|)
    ensures AdmittedFrom(prior + ContentItems(prior, blocks, n), |prior|)
  {
    if n == 0 {
      assert prior + ContentItems(prior, blocks, n) == prior;
    } else {
      var earlier := ContentItems(prior, blocks, n - 1);
      var before := prior + earlier;
      var item := ContentItem(before, blocks[n - 1], n - 1);
      assert prior + ContentItems(prior, blocks, n) == before + item by {
        Regroup3(prior, earlier, item);
      }
      ContentItemAdmitted(before, blocks[n - 1], n - 1);
      AdmittedFromAppend(before, item, |prior|);
    }
  }

  /** Appending nothing, or one document admitted after `before`, keeps
      every document from `from` on admitted. */
  lemma AdmittedFromAppend(before: seq<Doc>, item: seq<Doc>, from: nat)
    requires from <= |before| && AdmittedFrom(before, from)
    requires |item| <= 1 && (item != [] ==> AdmittedAt(before + item, |before|))
    ensures AdmittedFrom(before + item, from)
  {
    forall p | from <= p < |before + item| ensures AdmittedAt(before + item, p) {
      if p < |before| {
        AdmittedKept(before, item, p);
      }
    }
  }

  /** Every content document of the pass was admitted by the content loop. */
  lemma IndexPageAdmitted(page: Page)
    ensures var ds := IndexPage(page);
            forall p :: 0 <= p < |ds| && ds[p].kind == Content ==> AdmittedAt(ds, p)
  {
    var nav := NavItems(page.links, |page.links|);
    var heads := HeadingItems(page.headings, |page.headings|);
    var prior := nav + heads;
    var contents := ContentItems(prior, page.blocks, |page.blocks|);
    var side := SidebarItems(page.sidebar, |page.sidebar|);
    var buttons := ButtonItems(page.buttons, |page.buttons|);
    var all := prior + contents;
    var ds := IndexPage(page);
    assert ds == all + (side + buttons) by {
      Regroup3(all, side, buttons);
    }
    NavKinds(page.links, |page.links|);
    HeadingKinds(page.headings, |page.headings|);
    SidebarKinds(page.sidebar, |page.sidebar|);
    ButtonKinds(page.buttons, |page.buttons|);
    ContentItemsAdmitted(prior, page.blocks, |page.blocks|);
    forall p | 0 <= p < |ds| && ds[p].kind == Content ensures AdmittedAt(ds, p) {
      ContentAt(nav, heads, contents, side, buttons, p);
      AdmittedKept(all, side + buttons, p);
    }
  }

  /** The noise floor and the overlap rule, over the whole pass: every content
      document has at least `NoiseFloor` characters of content, and no earlier
      document with content contains its first `OverlapProbe` characters. */
  lemma IndexPageContentRules(page: Page)
    ensures var ds := IndexPage(page);
            forall p :: 0 <= p < |ds| && ds[p].kind == Content ==> |ds[p].content| >= NoiseFloor
    ensures var ds := IndexPage(page);
            forall p, q :: 0 <= q < p < |ds| && ds[p].kind == Content && ds[q].content != [] ==>
              !Contains(ds[q].content, Prefix(ds[p].content, OverlapProbe))
  {
    var ds := IndexPage(page);
    IndexPageAdmitted(page);
    forall p, q | 0 <= q < p < |ds| && ds[p].kind == Content && ds[q].content != []
      ensures !Contains(ds[q].content, Prefix(ds[p].content, OverlapProbe))
    {
      assert AdmittedAt(ds, p);
      assert ds[..p][q] == ds[q];
    }
  }

  /** A content document of the pass sits among the content loop's documents. */
  lemma ContentAt(nav: seq<Doc>, heads: seq<Doc>, contents: seq<Doc>, side: seq<Doc>, buttons: seq<Doc>, p: nat)
    requires OfKind(nav, Navigation) && OfKind(heads, Heading)
    requires OfKind(side, Profile) && OfKind(buttons, Button)
    requires p < |nav + heads + contents + (side + buttons)|
    requires (nav + heads + contents + (side + buttons))[p].kind == Content
    ensures |nav + heads| <= p < |nav + heads + contents|
    ensures (nav + heads + contents + (side + buttons))[p] == (nav + heads + contents)[p]
  {
    var prior := nav + heads;
    var all := prior + contents;
    var ds := all + (side + buttons);
    forall j | 0 <= j < |nav| ensures ds[j].kind == Navigation {
      assert ds[j] == nav[j];
    }
    forall j | |nav| <= j < |prior| ensures ds[j].kind == Heading {
      assert ds[j] == heads[j - |nav|];
    }
    forall j | |all| <= j < |all| + |side| ensures ds[j].kind == Profile {
      assert ds[j] == side[j - |all|];
    }
    forall j | |all| + |side| <= j < |ds| ensures ds[j].kind == Button {
      assert ds[j] == buttons[j - |all| - |side|];
    }
  }
}
