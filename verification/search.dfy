/** The search dialog: case-insensitive filtering of past chats by title,
    and which of the favorites and recents sections are visible. */
module Search {
  import opened Text
  import opened Sequences

  datatype SearchItem = SearchItem(title: string, timestamp: string)

  /** `toLowerCase` on one character, for ASCII letters. */
  function LowerChar(c: char): char {
    if 'A' <= c <= 'Z' then (c as int + 32) as char else c
  }

  function UpperChar(c: char): char {
    if 'a' <= c <= 'z' then (c as int - 32) as char else c
  }

  function Lower(s: string): (r: string)
    ensures |r| == |s|
  {
    if s == [] then [] else [LowerChar(s[0])] + Lower(s[1..])
  }

  function Upper(s: string): (r: string)
    ensures |r| == |s|
  {
    if s == [] then [] else [UpperChar(s[0])] + Upper(s[1..])
  }

  /** Lower-casing works character by character. */
  lemma {:induction false} LowerAt(s: string, i: nat)
    requires i < |s|
    ensures Lower(s)[i] == LowerChar(s[i])
  {
    if i > 0 {
      LowerAt(s[1..], i - 1);
    }
  }

  /** Two strings equal up to letter case. */
  predicate SameUpToCase(a: string, b: string) {
    |a| == |b| && forall i :: 0 <= i < |a| ==> LowerChar(a[i]) == LowerChar(b[i])
  }

  /** Strings equal up to letter case lower-case to the same string. */
  lemma LowerSameUpToCase(a: string, b: string)
    requires SameUpToCase(a, b)
    ensures Lower(a) == Lower(b)
  {
    forall i | 0 <= i < |a| ensures Lower(a)[i] == Lower(b)[i] {
      LowerAt(a, i);
      LowerAt(b, i);
    }
  }

  /** Upper-casing only changes letter case. */
  lemma {:induction false} UpperSameUpToCase(s: string)
    ensures SameUpToCase(Upper(s), s)
  {
    if s != [] {
      UpperSameUpToCase(s[1..]);
      assert forall i :: 1 <= i < |s| ==> Upper(s)[i] == Upper(s[1..])[i - 1];
    }
  }

  /** The test `item => item.title.toLowerCase().includes(searchQuery.toLowerCase())`. */
  function Matches(query: string): SearchItem -> bool {
    (item: SearchItem) => Includes(Lower(item.title), Lower(query))
  }

  /** `filterItems`. */
  function FilterItems(items: seq<SearchItem>, query: string): seq<SearchItem> {
    Filter(items, Matches(query))
  }

  /** The result keeps items in their order, and keeps an item exactly when
      the lower-cased query occurs in its lower-cased title, each copy of
      it. */
  lemma FilterItemsSpec(items: seq<SearchItem>, query: string, item: SearchItem)
    ensures Subseq(FilterItems(items, query), items)
    ensures item in FilterItems(items, query) <==> item in items && Occurs(Lower(item.title), Lower(query))
    ensures multiset(FilterItems(items, query))[item] ==
      if Occurs(Lower(item.title), Lower(query)) then multiset(items)[item] else 0
  {
    FilterSubseq(items, Matches(query));
    FilterMembership(items, Matches(query), item);
    FilterCount(items, Matches(query), item);
    IncludesSpec(Lower(item.title), Lower(query));
  }

  /** An empty query keeps every item. */
  lemma FilterItemsEmptyQuery(items: seq<SearchItem>)
    ensures FilterItems(items, "") == items
  {
    forall i | 0 <= i < |items| ensures Matches("")(items[i]) {
      assert At(Lower(items[i].title), 0, "");
      IncludesSpec(Lower(items[i].title), "");
    }
    FilterAll(items, Matches(""));
  }

  /** Changing the letter case of the query does not change the result. */
  lemma FilterItemsIgnoresCase(items: seq<SearchItem>, a: string, b: string)
    requires SameUpToCase(a, b)
    ensures FilterItems(items, a) == FilterItems(items, b)
  {
    LowerSameUpToCase(a, b);
    FilterCongruent(items, Matches(a), Matches(b));
  }

  /** In particular an upper-cased query finds the same items. */
  lemma FilterItemsUpperQuery(items: seq<SearchItem>, query: string)
    ensures FilterItems(items, Upper(query)) == FilterItems(items, query)
  {
    UpperSameUpToCase(query);
    FilterItemsIgnoresCase(items, Upper(query), query);
  }

  /** `!searchInFavorites || searchQuery === ''`. */
  function FavoritesVisible(favoritesOnly: bool, query: string): bool {
    !favoritesOnly || query == ""
  }

  /** `!searchInFavorites`. */
  function RecentsVisible(favoritesOnly: bool): bool {
    !favoritesOnly
  }

  /** The star button. */
  function ToggleFavoritesOnly(favoritesOnly: bool): bool {
    !favoritesOnly
  }

  /** Recents are shown only alongside favorites; in favorites-only mode a
      non-empty query hides both sections; pressing the star shows recents
      exactly when they were hidden. */
  lemma VisibilitySpec(favoritesOnly: bool, query: string)
    ensures RecentsVisible(favoritesOnly) ==> FavoritesVisible(favoritesOnly, query)
    ensures FavoritesVisible(favoritesOnly, query) || RecentsVisible(favoritesOnly) <==> !favoritesOnly || query == []
    ensures RecentsVisible(ToggleFavoritesOnly(favoritesOnly)) != RecentsVisible(favoritesOnly)
    ensures FavoritesVisible(ToggleFavoritesOnly(favoritesOnly), query) <==>
      if query == [] then true else !FavoritesVisible(favoritesOnly, query)
  {
  }
}
