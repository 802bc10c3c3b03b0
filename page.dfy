/**
  The handlers of help-center.js as they run: each one walks the element
  lists and flips class flags one element at a time, and each is proved to end
  in the state the matching transition function of HelpCenterModel describes.
 */
module HelpCenter {
  import opened Text
  import opened HelpCenterModel
  import HelpCenterProperties

  class HelpCenterPage {
    /** The elements and their texts, which no handler changes. */
    const layout: Layout
    var active: seq<bool>
    var hidden: seq<bool>
    var items: seq<ItemFlags>
    var cards: seq<bool>
    var notices: nat

    function State(): Page
      reads this
    {
      Page(active, hidden, items, cards, notices)
    }

    ghost predicate Valid()
      reads this
    {
      WellFormed(layout) && Fits(layout, State())
    }

    /** The page as the markup delivers it. */
    constructor (l: Layout, p: Page)
      requires WellFormed(l) && Fits(l, p)
      ensures Valid() && layout == l && State() == p
    {
      layout := l;
      active, hidden, items, cards, notices := p.active, p.hidden, p.items, p.cards, p.notices;
    }

    /** The click listener of category button `b`. */
    method ClickCategory(b: nat)
      requires Valid() && b < |layout.categories|
      modifies this
      ensures Valid() && State() == SelectCategory(layout, old(State()), b)
      ensures forall j :: 0 <= j < |active| ==> (active[j] <==> j == b)
      ensures forall g :: 0 <= g < |hidden| ==> (hidden[g] <==> layout.groups[g].id != layout.categories[b].key)
    {
      ghost var before := State();
      var targetCategory := layout.categories[b].key;
      var j := 0;
      while j < |active|
        invariant 0 <= j <= |active| == |before.active|
        invariant forall m :: 0 <= m < j ==> !active[m]
        invariant hidden == before.hidden && items == before.items && cards == before.cards && notices == before.notices
      {
        active := active[j := false];
        j := j + 1;
      }
      active := active[b := true];
      var g := 0;
      while g < |hidden|
        invariant 0 <= g <= |hidden| == |layout.groups|
        invariant forall m :: 0 <= m < g ==> hidden[m] == (layout.groups[m].id != targetCategory)
        invariant active == SelectCategory(layout, before, b).active
        invariant items == before.items && cards == before.cards && notices == before.notices
      {
        if layout.groups[g].id == targetCategory {
          hidden := hidden[g := false];
        } else {
          hidden := hidden[g := true];
        }
        g := g + 1;
      }
      assert hidden == SelectCategory(layout, before, b).hidden;
    }

    /** The click listener of item `i`'s question: close all, then reopen `i` if it was closed. */
    method ClickQuestion(i: nat)
      requires Valid() && i < |layout.items|
      modifies this
      ensures Valid() && State() == ToggleItem(old(State()), i)
      ensures ActiveItems(State()) == if old(items[i].active) then {} else {i}
    {
      ghost var before := State();
      var isActive := items[i].active;
      var j := 0;
      while j < |items|
        invariant 0 <= j <= |items| == |before.items|
        invariant forall m :: 0 <= m < j ==> items[m] == before.items[m].(active := false)
        invariant forall m :: j <= m < |items| ==> items[m] == before.items[m]
        invariant active == before.active && hidden == before.hidden
        invariant cards == before.cards && notices == before.notices
      {
        items := items[j := items[j].(active := false)];
        j := j + 1;
      }
      if !isActive {
        items := items[i := items[i].(active := true)];
      }
      assert State() == ToggleItem(before, i);
      HelpCenterProperties.ToggleItemActiveSet(before, i);
    }

    /** `clearSearchHighlights`: drop every `search-highlight`, then remove the first notice. */
    method ClearSearchHighlights()
      requires Valid()
      modifies this
      ensures Valid() && State() == ClearHighlights(old(State()))
      ensures HighlightedItems(State()) == {} && HighlightedCards(State()) == {} && notices == 0
    {
      ghost var before := State();
      var j := 0;
      while j < |items|
        invariant 0 <= j <= |items| == |before.items|
        invariant forall m :: 0 <= m < j ==> items[m] == before.items[m].(highlight := false)
        invariant forall m :: j <= m < |items| ==> items[m] == before.items[m]
        invariant active == before.active && hidden == before.hidden
        invariant cards == before.cards && notices == before.notices
      {
        if items[j].highlight {
          items := items[j := items[j].(highlight := false)];
        }
        j := j + 1;
      }
      var c := 0;
      while c < |cards|
        invariant 0 <= c <= |cards| == |before.cards|
        invariant forall m :: 0 <= m < c ==> !cards[m]
        invariant items == ClearHighlights(before).items
        invariant active == before.active && hidden == before.hidden && notices == before.notices
      {
        if cards[c] {
          cards := cards[c := false];
        }
        c := c + 1;
      }
      if notices > 0 {
        notices := notices - 1;
      }
      assert State() == ClearHighlights(before);
      HelpCenterProperties.ClearRemovesHighlightsAndNotice(before);
    }

    /** `highlightFAQItem`: mark item `k`, click its hidden group's category button, open it. */
    method HighlightFaqItem(k: nat)
      requires Valid() && k < |layout.items|
      modifies this
      ensures Valid() && State() == HighlightItem(layout, old(State()), k)
    {
      items := items[k := items[k].(highlight := true)];
      var faqContainer := layout.items[k].group;
      if faqContainer.Some? && hidden[faqContainer.value] {
        var categoryButton := FirstButtonWithKey(layout.categories, layout.groups[faqContainer.value].id);
        if categoryButton.Some? {
          ClickCategory(categoryButton.value);
        }
      }
      items := items[k := items[k].(active := true)];
    }

    /** `highlightHelpCard`: mark card `c`. */
    method HighlightHelpCard(c: nat)
      requires Valid() && c < |layout.cards|
      modifies this
      ensures Valid() && State() == old(State()).(cards := old(cards)[c := true])
    {
      cards := cards[c := true];
    }

    /** `showNoResultsMessage`: append a notice unless one is already present. */
    method ShowNoResultsMessage()
      requires Valid()
      modifies this
      ensures Valid() && State() == ShowNoResults(old(State()))
      ensures notices == 1
    {
      if notices == 0 {
        notices := 1;
      }
    }

    /** The item loop of `performSearch`: highlight every item whose question or answer contains `query`. */
    method SearchFaqItems(query: string) returns (found: bool)
      requires Valid()
      modifies this
      ensures Valid() && State() == ScanItems(layout, old(State()), ItemHits(layout, query), |layout.items|)
      ensures found <==> exists j :: 0 <= j < |layout.items| && ItemMatches(layout.items[j], query)
    {
      ghost var before := State();
      ghost var hits := ItemHits(layout, query);
      found := false;
      var k := 0;
      while k < |items|
        invariant 0 <= k <= |items| == |layout.items|
        invariant Valid() && State() == ScanItems(layout, before, hits, k)
        invariant found == SomeItemMatches(layout.items, query, k)
      {
        ghost var s := State();
        if ItemMatches(layout.items[k], query) {
          HighlightFaqItem(k);
          found := true;
        }
        assert State() == ScanItem(layout, s, hits, k);
        HelpCenterProperties.ScanItemsNext(layout, before, hits, k);
        k := k + 1;
      }
    }

    /** The card loop of `performSearch`: highlight every card whose title or description contains `query`. */
    method SearchHelpCards(query: string) returns (found: bool)
      requires Valid()
      modifies this
      ensures Valid() && State() == ScanCards(layout, old(State()), query, |layout.cards|)
      ensures found <==> exists j :: 0 <= j < |layout.cards| && CardMatches(layout.cards[j], query)
    {
      ghost var before := State();
      found := false;
      var c := 0;
      while c < |cards|
        invariant 0 <= c <= |cards| == |layout.cards|
        invariant Valid() && State() == ScanCards(layout, before, query, c)
        invariant found == SomeCardMatches(layout.cards, query, c)
      {
        if CardMatches(layout.cards[c], query) {
          HighlightHelpCard(c);
          found := true;
        }
        assert State() == ScanCards(layout, before, query, c + 1);
        c := c + 1;
      }
    }

    /** `performSearch` with the text `raw` in the search input. */
    method PerformSearch(raw: string) returns (outcome: SearchOutcome)
      requires Valid()
      modifies this
      ensures Valid() && State() == Search(layout, old(State()), raw)
      ensures outcome == SearchReport(layout, raw)
    {
      var query := Trim(Lower(raw));
      if |query| == 0 {
        // help-center.js raises the "Please enter a search term" alert here
        return EmptyQuery;
      }
      ClearSearchHighlights();
      var foundItems := SearchFaqItems(query);
      var foundCards := SearchHelpCards(query);
      var foundResults := foundItems || foundCards;
      if !foundResults {
        ShowNoResultsMessage();
        outcome := NoResults;
      } else {
        // help-center.js scrolls the first highlighted element into view here
        outcome := Found;
      }
    }

    /** The `input` listener of the search box with the new value `raw`. */
    method OnSearchInput(raw: string)
      requires Valid()
      modifies this
      ensures Valid() && State() == Input(old(State()), raw)
    {
      var query := Lower(raw);
      LowerKeepsUtf16Length(raw);
      if Utf16Length(query) > 2 {
        // highlightSearchResults(query) is an empty hook: nothing changes
      } else {
        ClearSearchHighlights();
      }
    }
  }
}
