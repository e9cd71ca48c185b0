/** The recent-search list kept in browser storage under `searchRecent`:
    at most five entries, newest first, one per query (compared
    case-insensitively), removable by timestamp. */
module RecentSearches {
  import opened Wrappers
  import opened Text
  import opened Seqs
  import opened Documents

  const Capacity: nat := 5

  /** What is remembered of a chosen result. `timestamp` is the clock
      reading at save time. */
  datatype Entry = Entry(query: string, title: string, kind: Kind, href: Option<string>, timestamp: int)

  /** `item.query.toLowerCase() !== query.toLowerCase()`. */
  function OtherQuery(q: string): Entry -> bool {
    (e: Entry) => Lower(e.query) != Lower(q)
  }

  /** `item.timestamp !== timestamp`. */
  function OtherStamp(ts: int): Entry -> bool {
    (e: Entry) => e.timestamp != ts
  }

  function Differ(a: Entry, b: Entry): bool {
    Lower(a.query) != Lower(b.query)
  }

  /** A list the store itself can produce: within capacity, no query twice. */
  predicate ValidList(rs: seq<Entry>) {
    |rs| <= Capacity && Pairwise(rs, Differ)
  }

  /** The list after saving `e`: `e` first, then the previous entries with a
      different query, cut to the capacity. */
  function Saved(recent: seq<Entry>, e: Entry): seq<Entry> {
    Take([e] + Filter(recent, OtherQuery(e.query)), Capacity)
  }

  /** The list after removing the entries stamped `ts`. */
  function Removed(recent: seq<Entry>, ts: int): seq<Entry> {
    Filter(recent, OtherStamp(ts))
  }

  /** The storage slot and whether writing to it succeeds. `stored` is `None`
      when the slot is empty or holds nothing readable. */
  class RecentStore {
    var stored: Option<seq<Entry>>
    var writable: bool

    constructor (stored: Option<seq<Entry>>, writable: bool)
      ensures this.stored == stored && this.writable == writable
    {
      this.stored := stored;
      this.writable := writable;
    }

    /** `getRecentSearches`: an empty or unreadable slot reads as no
        entries. */
    function Recent(): seq<Entry>
      reads this
    {
      match stored
      case None => []
      case Some(rs) => rs
    }

    method GetRecentSearches() returns (r: seq<Entry>)
      ensures r == Recent()
      ensures stored.None? ==> r == []
    {
      match stored {
        case None => r := [];
        case Some(rs) => r := rs;
      }
    }

    /** `saveRecentSearch`; `now` is the clock reading. A failing write
        changes nothing. */
    method Save(query: string, result: Doc, now: int)
      modifies this
      ensures writable == old(writable)
      ensures old(writable) ==> stored == Some(Saved(old(Recent()), Entry(query, result.title, result.kind, result.href, now)))
      ensures !old(writable) ==> stored == old(stored)
      ensures old(ValidList(Recent())) ==> ValidList(Recent())
    {
      var recent := GetRecentSearches();
      var newItem := Entry(query, result.title, result.kind, result.href, now);
      var filtered := Filter(recent, OtherQuery(query));
      var updated := Take([newItem] + filtered, Capacity);
      SavedValid(recent, newItem);
      if writable {
        stored := Some(updated);
      }
    }

    /** `removeRecentSearch`: the remaining entries, or none when the write
        fails. */
    method Remove(timestamp: int) returns (r: seq<Entry>)
      modifies this
      ensures writable == old(writable)
      ensures old(writable) ==> r == Removed(old(Recent()), timestamp) && stored == Some(r)
      ensures !old(writable) ==> r == [] && stored == old(stored)
      ensures old(ValidList(Recent())) ==> ValidList(Recent())
    {
      var recent := GetRecentSearches();
      var filtered := Filter(recent, OtherStamp(timestamp));
      RemovedShape(recent, timestamp);
      if writable {
        stored := Some(filtered);
        r := filtered;
      } else {
        r := [];
      }
    }
  }

  // ------------------------------------------------------------ properties

  lemma {:induction false} SubseqTake(a: seq<Entry>, n: nat, b: seq<Entry>)
    requires IsSubseq(a, b)
    ensures IsSubseq(Take(a, n), b)
    decreases |b|
  {
    if Take(a, n) != [] && b != [] {
      if a[0] == b[0] {
        SubseqTake(a[1..], n - 1, b[1..]);
        assert Take(a, n)[1..] == Take(a[1..], n - 1);
      } else {
        SubseqTake(a, n, b[1..]);
      }
    }
  }

  /** The saved entry comes first; after it come only earlier entries, in
      their order, none with the same query; the list never exceeds five. */
  lemma SavedShape(recent: seq<Entry>, e: Entry)
    ensures var r := Saved(recent, e);
            && 1 <= |r| <= Capacity && r[0] == e
            && (forall i :: 1 <= i < |r| ==> Lower(r[i].query) != Lower(e.query))
            && IsSubseq(r[1..], recent)
  {
    var others := Filter(recent, OtherQuery(e.query));
    var r := Saved(recent, e);
    assert r[1..] == Take(others, Capacity - 1);
    FilterMembers(recent, OtherQuery(e.query));
    forall i | 1 <= i < |r| ensures Lower(r[i].query) != Lower(e.query) {
      assert r[i] == others[i - 1];
      assert others[i - 1] in others;
    }
    FilterSubseq(recent, OtherQuery(e.query));
    SubseqTake(others, Capacity - 1, recent);
  }

  /** Saving keeps queries distinct. */
  lemma SavedValid(recent: seq<Entry>, e: Entry)
    ensures Pairwise(recent, Differ) ==> ValidList(Saved(recent, e))
  {
    if Pairwise(recent, Differ) {
      var others := Filter(recent, OtherQuery(e.query));
      FilterPairwise(recent, OtherQuery(e.query), Differ);
      SavedShape(recent, e);
      var r := Saved(recent, e);
      forall i, j | 0 <= i < j < |r| ensures Differ(r[i], r[j]) {
        if i > 0 {
          assert r[i] == others[i - 1] && r[j] == others[j - 1];
        }
      }
    }
  }

  /** Below capacity nothing is evicted: every earlier entry with another
      query stays. */
  lemma SavedKeeps(recent: seq<Entry>, e: Entry, x: Entry)
    requires |recent| < Capacity && x in recent && Lower(x.query) != Lower(e.query)
    ensures x in Saved(recent, e)
  {
    var others := Filter(recent, OtherQuery(e.query));
    FilterMembers(recent, OtherQuery(e.query));
    assert x in others;
    assert Saved(recent, e) == [e] + others;
  }

  /** Saving the same query twice leaves what the second save alone leaves:
      the earlier entry is replaced, not duplicated. */
  lemma SavedTwice(recent: seq<Entry>, e1: Entry, e2: Entry)
    requires Lower(e1.query) == Lower(e2.query)
    ensures Saved(Saved(recent, e1), e2) == Saved(recent, e2)
  {
    var others := Filter(recent, OtherQuery(e1.query));
    assert OtherQuery(e1.query) == OtherQuery(e2.query);
    var kept := Take(others, Capacity - 1);
    var once := Saved(recent, e1);
    assert once == [e1] + kept;
    FilterMembers(recent, OtherQuery(e1.query));
    assert forall i :: 0 <= i < |kept| ==> OtherQuery(e2.query)(kept[i]) by {
      forall i | 0 <= i < |kept| ensures OtherQuery(e2.query)(kept[i]) {
        assert kept[i] == others[i];
        assert others[i] in others;
      }
    }
    FilterAll(kept, OtherQuery(e2.query));
    assert Filter(once, OtherQuery(e2.query)) == kept by {
      assert once[0] == e1 && once[1..] == kept;
    }
    TakeCons(e2, others, Capacity - 1);
  }

  lemma TakeCons(x: Entry, s: seq<Entry>, n: nat)
    ensures Take([x] + Take(s, n), n + 1) == Take([x] + s, n + 1)
  {
  }

  /** Exactly the entries with another timestamp remain, in their order. */
  lemma RemovedShape(recent: seq<Entry>, ts: int)
    ensures var r := Removed(recent, ts);
            && IsSubseq(r, recent)
            && (forall x :: x in r <==> x in recent && x.timestamp != ts)
            && (Pairwise(recent, Differ) ==> Pairwise(r, Differ))
            && (ValidList(recent) ==> ValidList(r))
  {
    FilterSubseq(recent, OtherStamp(ts));
    FilterMembers(recent, OtherStamp(ts));
    if Pairwise(recent, Differ) {
      FilterPairwise(recent, OtherStamp(ts), Differ);
    }
  }

  /** Removing an entry just saved with a fresh timestamp undoes the save,
      except for what the save evicted or replaced. */
  lemma SaveThenRemove(recent: seq<Entry>, e: Entry)
    requires forall i :: 0 <= i < |recent| ==> recent[i].timestamp != e.timestamp
    ensures Removed(Saved(recent, e), e.timestamp) == Take(Filter(recent, OtherQuery(e.query)), Capacity - 1)
  {
    var others := Filter(recent, OtherQuery(e.query));
    var kept := Take(others, Capacity - 1);
    var saved := Saved(recent, e);
    assert saved == [e] + kept;
    FilterMembers(recent, OtherQuery(e.query));
    forall i | 0 <= i < |kept| ensures OtherStamp(e.timestamp)(kept[i]) {
      assert kept[i] == others[i];
      assert others[i] in others;
    }
    FilterAll(kept, OtherStamp(e.timestamp));
    assert saved[0] == e && saved[1..] == kept;
  }
}
