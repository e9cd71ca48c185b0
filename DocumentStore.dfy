/** The complete search index: the five fixed navigation entries followed by
    the documents extracted from the page, with later documents dropped when
    their title repeats an earlier title. */
module DocumentStore {
  import opened Wrappers
  import opened Text
  import opened Seqs
  import opened Documents
  import opened PageExtraction
  import opened Unique

  // ------------------------------------------------------- static entries

  function NavEntry(slug: string, title: string, content: string, keywords: seq<string>): Doc {
    Doc("nav-" + slug, title, Navigation, "Page", content, Some("#" + slug), keywords)
  }

  /** The fixed navigation entries, always present, used alone when the page
      cannot be read. */
  function StaticItems(): (r: seq<Doc>)
    ensures |r| == 5
    ensures forall k :: 0 <= k < |r| ==> r[k].kind == Navigation && r[k].category == "Page" && r[k].href.Some?
  {
    [ NavEntry("home", "Home", "Welcome to the home page", ["home", "welcome", "main", "landing"]),
      NavEntry("categories", "Categories", "Browse content by categories", ["categories", "browse", "filter", "topics"]),
      NavEntry("archives", "Archives", "View archived posts and content", ["archives", "old", "past", "history", "posts"]),
      NavEntry("friends", "Friends", "Friends and connections", ["friends", "connections", "network", "community"]),
      NavEntry("about", "About", "About page and information", ["about", "bio", "profile", "information"]) ]
  }

  // ---------------------------------------------------------- de-duplication

  /** The de-duplication key: the title lower-cased, then trimmed. */
  function Key(d: Doc): string {
    Trim(Lower(d.title))
  }

  /** The loop of `getAllSearchableContent` with its `seen` set. */
  method MergeUnique(combined: seq<Doc>) returns (unique: seq<Doc>)
    ensures unique == Dedup(combined, Key)
  {
    unique := [];
    var seen: set<string> := {};
    for i := 0 to |combined|
      invariant unique == Dedup(combined[..i], Key)
      invariant seen == KeySet(unique, Key)
    {
      var item := combined[i];
      var key := Trim(Lower(item.title));
      assert combined[..i + 1][..i] == combined[..i];
      if key !in seen {
        KeySetSnoc(unique, Key, item);
        seen := seen + {key};
        unique := unique + [item];
      }
    }
    assert combined[..|combined|] == combined;
  }

  predicate Letters(s: string) {
    forall i :: 0 <= i < |s| ==> 'a' <= s[i] <= 'z'
  }

  /** A title that lower-cases to a non-empty run of letters has that run as
      its key. */
  lemma KeyOfTitle(d: Doc, w: string)
    requires Lower(d.title) == w && w != [] && Letters(w)
    ensures Key(d) == w
  {
    assert NoSpace(w) by {
      forall i | 0 <= i < |w| ensures !IsSpace(w[i]) {
        assert 'a' <= w[i] <= 'z';
      }
    }
    TrimStartFacts(w);
    assert TrimStart(w) == w;
    TrimEndFacts(w);
    assert TrimEnd(w) == w;
  }

  /** The keys of the fixed entries. */
  function StaticKeyWords(): seq<string> {
    ["home", "categories", "archives", "friends", "about"]
  }

  lemma StaticKeyAt(k: nat)
    requires k < 5
    ensures Key(StaticItems()[k]) == StaticKeyWords()[k]
  {
    StaticLowerAt(k);
    StaticKeyWordsLetters(k);
    KeyOfTitle(StaticItems()[k], StaticKeyWords()[k]);
  }

  lemma StaticLowerAt(k: nat)
    requires k < 5
    ensures Lower(StaticItems()[k].title) == StaticKeyWords()[k]
  {
    var t := StaticItems()[k].title;
    var w := StaticKeyWords()[k];
    assert |t| == |w|;
    forall i | 0 <= i < |w| ensures Lower(t)[i] == w[i] {
    }
  }

  lemma StaticKeyWordsLetters(k: nat)
    requires k < 5
    ensures StaticKeyWords()[k] != [] && Letters(StaticKeyWords()[k])
  {
  }

  /** The fixed entries have five different keys. */
  lemma StaticKeys()
    ensures forall k :: 0 <= k < 5 ==> Key(StaticItems()[k]) == StaticKeyWords()[k]
    ensures DistinctKeys(StaticItems(), Key)
  {
    forall k | 0 <= k < 5 ensures Key(StaticItems()[k]) == StaticKeyWords()[k] {
      StaticKeyAt(k);
    }
    StaticKeyWordsDistinct();
  }

  lemma StaticKeyWordsDistinct()
    ensures forall i, j :: 0 <= i < j < 5 ==> StaticKeyWords()[i] != StaticKeyWords()[j]
  {
    var w := StaticKeyWords();
    forall i, j | 0 <= i < j < 5 ensures w[i] != w[j] {
      if i == 2 && j == 4 {
        assert w[i][1] != w[j][1];
      } else {
        assert w[i][0] != w[j][0];
      }
    }
  }

  // ------------------------------------------------------------ the index

  /** `getAllSearchableContent`: `None` stands for a page whose reading
      failed, which leaves the fixed entries alone. */
  function BuildIndex(page: Option<Page>): seq<Doc> {
    match page
    case None => StaticItems()
    case Some(p) => Dedup(StaticItems() + IndexPage(p), Key)
  }

  method GetAllSearchableContent(page: Option<Page>) returns (index: seq<Doc>)
    ensures index == BuildIndex(page)
  {
    match page {
      case None =>
        index := StaticItems();
      case Some(p) =>
        var pageContent := IndexPageContent(p);
        var staticItems := StaticItems();
        index := MergeUnique(staticItems + pageContent);
    }
  }

  /** The index always starts with the fixed entries. */
  lemma BuildIndexStartsWithStatic(page: Option<Page>)
    ensures 5 <= |BuildIndex(page)| && BuildIndex(page)[..5] == StaticItems()
  {
    StaticKeys();
    DedupOfDistinct(StaticItems(), Key);
    if page.Some? {
      DedupPrefix(StaticItems(), IndexPage(page.value), Key);
    }
  }

  /** No two documents of the index share a key. */
  lemma BuildIndexDistinct(page: Option<Page>)
    ensures DistinctKeys(BuildIndex(page), Key)
  {
    StaticKeys();
    if page.Some? {
      DedupDistinct(StaticItems() + IndexPage(page.value), Key);
    }
  }

  lemma StaticWellFormed()
    ensures AllWellFormed(StaticItems())
  {
  }

  /** Every document of the index is well formed; in particular every title
      is non-empty. */
  lemma BuildIndexWellFormed(page: Option<Page>)
    ensures AllWellFormed(BuildIndex(page))
  {
    StaticWellFormed();
    if page.Some? {
      var all := StaticItems() + IndexPage(page.value);
      IndexPageWellFormed(page.value);
      AllWellFormedAppend(StaticItems(), IndexPage(page.value));
      DedupSubseq(all, Key);
      var r := Dedup(all, Key);
      SubseqMembers(r, all);
      forall k | 0 <= k < |r| ensures WellFormed(r[k]) {
        assert r[k] in all;
      }
    }
  }
}
