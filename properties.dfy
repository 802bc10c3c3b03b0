/**
  What the help-center handlers guarantee, stated over the transition
  functions of HelpCenterModel.
 */
module HelpCenterProperties {
  import opened Text
  import opened HelpCenterModel

  // ---------------------------------------------------------------------------
  // Category selection

  /** After a click on button `b`, `b` is the one and only active button. */
  lemma SelectCategoryActivatesOnlyClicked(l: Layout, p: Page, b: nat)
    requires Fits(l, p) && b < |l.categories|
    ensures ActiveCategories(SelectCategory(l, p, b)) == {b}
  {
    var r := SelectCategory(l, p, b);
    assert b in ActiveCategories(r);
  }

  /** After a click on button `b`, a group is visible exactly when its id is `b`'s key. */
  lemma SelectCategoryShowsOnlyKey(l: Layout, p: Page, b: nat)
    requires Fits(l, p) && b < |l.categories|
    ensures var r := SelectCategory(l, p, b);
            forall g :: 0 <= g < |l.groups| ==> (!r.hidden[g] <==> l.groups[g].id == l.categories[b].key)
  {
  }

  /** With unique group ids and a group for the key, exactly one group is visible afterwards. */
  lemma SelectCategoryExactlyOneVisible(l: Layout, p: Page, b: nat, g: nat)
    requires Fits(l, p) && b < |l.categories| && g < |l.groups| && l.groups[g].id == l.categories[b].key
    requires forall i, j :: 0 <= i < j < |l.groups| ==> l.groups[i].id != l.groups[j].id
    ensures VisibleGroups(SelectCategory(l, p, b)) == {g}
  {
    var r := SelectCategory(l, p, b);
    assert g in VisibleGroups(r);
    forall h | h in VisibleGroups(r) ensures h == g {
    }
  }

  /** The outcome of a category click depends only on the layout, not on the prior flags. */
  lemma SelectCategoryForgetsPriorFlags(l: Layout, p: Page, t: Page, b: nat)
    requires Fits(l, p) && Fits(l, t) && b < |l.categories|
    ensures SelectCategory(l, p, b).active == SelectCategory(l, t, b).active
    ensures SelectCategory(l, p, b).hidden == SelectCategory(l, t, b).hidden
  {
  }

  /** Clicking the same button twice is the same as clicking it once. */
  lemma SelectCategoryIdempotent(l: Layout, p: Page, b: nat)
    requires Fits(l, p) && b < |l.categories|
    ensures SelectCategory(l, SelectCategory(l, p, b), b) == SelectCategory(l, p, b)
  {
  }

  // ---------------------------------------------------------------------------
  // Accordion

  /** A click on an open item closes every item; a click on a closed item leaves only it open. */
  lemma ToggleItemActiveSet(p: Page, i: nat)
    requires i < |p.items|
    ensures ActiveItems(ToggleItem(p, i)) == if p.items[i].active then {} else {i}
  {
    var r := ToggleItem(p, i);
    if !p.items[i].active {
      assert i in ActiveItems(r);
    }
  }

  /** Whatever was open before, at most one item is open after any question click. */
  lemma ToggleItemSingleOpen(p: Page, i: nat)
    requires i < |p.items|
    ensures |ActiveItems(ToggleItem(p, i))| <= 1
  {
    ToggleItemActiveSet(p, i);
  }

  // ---------------------------------------------------------------------------
  // Clearing

  /** With at most one notice, clearing leaves no highlight and no notice, and changes no `active` flag. */
  lemma ClearRemovesHighlightsAndNotice(p: Page)
    requires p.notices <= 1
    ensures var r := ClearHighlights(p);
            HighlightedItems(r) == {} && HighlightedCards(r) == {} && r.notices == 0 &&
            ActiveItems(r) == ActiveItems(p)
  {
    var r := ClearHighlights(p);
    assert forall j :: 0 <= j < |r.items| ==> !r.items[j].highlight;
    assert forall j :: 0 <= j < |r.cards| ==> !r.cards[j];
  }

  /** With at most one notice, clearing twice is clearing once. */
  lemma ClearIdempotent(p: Page)
    requires p.notices <= 1
    ensures ClearHighlights(ClearHighlights(p)) == ClearHighlights(p)
  {
  }

  // ---------------------------------------------------------------------------
  // Search

  /** A query that is empty or only white space changes nothing and raises the alert. */
  lemma BlankQueryChangesNothing(l: Layout, p: Page, raw: string)
    requires WellFormed(l) && Fits(l, p)
    requires forall k :: 0 <= k < |raw| ==> IsJsWhitespace(raw[k])
    ensures Search(l, p, raw) == p && SearchReport(l, raw) == EmptyQuery
  {
    NormaliseBlank(raw);
  }

  /**
    `highlightFAQItem` on item `k`: the item ends highlighted and open, no other
    item changes, and the buttons and groups are those of a click on the reveal
    button when there is one and unchanged otherwise.
   */
  lemma HighlightItemEffect(l: Layout, p: Page, k: nat)
    requires WellFormed(l) && Fits(l, p) && k < |l.items|
    ensures var r := HighlightItem(l, p, k);
            r.items[k] == ItemFlags(true, true) &&
            (forall j :: 0 <= j < |p.items| && j != k ==> r.items[j] == p.items[j]) &&
            (RevealButton(l, p, k).None? ==> r.active == p.active && r.hidden == p.hidden) &&
            (RevealButton(l, p, k).Some? ==>
               r.active == SelectCategory(l, p, RevealButton(l, p, k).value).active &&
               r.hidden == SelectCategory(l, p, RevealButton(l, p, k).value).hidden)
  {
  }

  /** One scan step touches only item `k`, which gains both flags exactly when it is a hit. */
  lemma ScanItemFlags(l: Layout, s: Page, hits: seq<bool>, k: nat)
    requires WellFormed(l) && Fits(l, s) && |hits| == |l.items| && k < |l.items|
    ensures var r := ScanItem(l, s, hits, k);
            (forall j :: 0 <= j < |s.items| && j != k ==> r.items[j] == s.items[j]) &&
            r.items[k].highlight == (s.items[k].highlight || hits[k]) &&
            r.items[k].active == (s.items[k].active || hits[k])
  {
    if hits[k] {
      HighlightItemEffect(l, s, k);
    }
  }

  /**
    Scanning items `0..n` highlights and opens exactly the hits among them and
    changes no other item flag.
   */
  lemma {:induction false} ScanItemsFlags(l: Layout, p: Page, hits: seq<bool>, n: nat)
    requires WellFormed(l) && Fits(l, p) && |hits| == |l.items| && n <= |l.items|
    ensures var r := ScanItems(l, p, hits, n);
            (forall j :: 0 <= j < |p.items| ==> r.items[j].highlight == (p.items[j].highlight || (j < n && hits[j]))) &&
            (forall j :: 0 <= j < |p.items| ==> r.items[j].active == (p.items[j].active || (j < n && hits[j])))
    decreases n
  {
    if n > 0 {
      ScanItemsFlags(l, p, hits, n - 1);
      ScanItemFlags(l, ScanItems(l, p, hits, n - 1), hits, n - 1);
    }
  }

  /** One more step of the item scan is one more `ScanItem`. */
  lemma ScanItemsNext(l: Layout, p: Page, hits: seq<bool>, k: nat)
    requires WellFormed(l) && Fits(l, p) && |hits| == |l.items| && k < |l.items|
    ensures ScanItems(l, p, hits, k + 1) == ScanItem(l, ScanItems(l, p, hits, k), hits, k)
  {
  }

  /** After the clear and both scans, the flags are those the query alone decides. */
  lemma ScannedFlags(l: Layout, p: Page, q: string)
    requires WellFormed(l) && Fits(l, p)
    ensures var t := Scanned(l, p, q);
            (forall j :: 0 <= j < |p.items| ==>
               t.items[j].highlight == ItemMatches(l.items[j], q) &&
               t.items[j].active == (p.items[j].active || ItemMatches(l.items[j], q))) &&
            (forall j :: 0 <= j < |p.cards| ==> t.cards[j] == CardMatches(l.cards[j], q))
  {
    ScanItemsFlags(l, ClearHighlights(p), ItemHits(l, q), |l.items|);
  }

  /** After a non-blank search, each flag of each item and card is fixed by whether it matches. */
  lemma SearchFlags(l: Layout, p: Page, raw: string)
    requires WellFormed(l) && Fits(l, p) && Normalise(raw) != []
    ensures var q, r := Normalise(raw), Search(l, p, raw);
            (forall j :: 0 <= j < |p.items| ==>
               r.items[j].highlight == ItemMatches(l.items[j], q) &&
               r.items[j].active == (p.items[j].active || ItemMatches(l.items[j], q))) &&
            (forall j :: 0 <= j < |p.cards| ==> r.cards[j] == CardMatches(l.cards[j], q))
  {
    var q := Normalise(raw);
    ScannedFlags(l, p, q);
    assert Search(l, p, raw).items == Scanned(l, p, q).items && Search(l, p, raw).cards == Scanned(l, p, q).cards;
  }

  /** The flag sets of a page whose flags are those a search for `q` leaves. */
  lemma FlagSets(l: Layout, p: Page, r: Page, q: string)
    requires Fits(l, p) && |r.items| == |p.items| && |r.cards| == |p.cards|
    requires forall j :: 0 <= j < |p.items| ==>
               r.items[j].highlight == ItemMatches(l.items[j], q) &&
               r.items[j].active == (p.items[j].active || ItemMatches(l.items[j], q))
    requires forall j :: 0 <= j < |p.cards| ==> r.cards[j] == CardMatches(l.cards[j], q)
    ensures HighlightedItems(r) == (set j: nat | j < |l.items| && ItemMatches(l.items[j], q))
    ensures HighlightedCards(r) == (set j: nat | j < |l.cards| && CardMatches(l.cards[j], q))
    ensures ActiveItems(r) == ActiveItems(p) + (set j: nat | j < |l.items| && ItemMatches(l.items[j], q))
  {
  }

  /** After a non-blank search, the highlighted items and cards are exactly the matching ones. */
  lemma SearchHighlightsExactlyMatches(l: Layout, p: Page, raw: string)
    requires WellFormed(l) && Fits(l, p) && Normalise(raw) != []
    ensures var q, r := Normalise(raw), Search(l, p, raw);
            HighlightedItems(r) == (set j: nat | j < |l.items| && ItemMatches(l.items[j], q)) &&
            HighlightedCards(r) == (set j: nat | j < |l.cards| && CardMatches(l.cards[j], q))
  {
    SearchFlags(l, p, raw);
    FlagSets(l, p, Search(l, p, raw), Normalise(raw));
  }

  /** Every matching item is open after the search; every other item keeps its `active` flag. */
  lemma SearchOpensMatches(l: Layout, p: Page, raw: string)
    requires WellFormed(l) && Fits(l, p) && Normalise(raw) != []
    ensures var q, r := Normalise(raw), Search(l, p, raw);
            ActiveItems(r) == ActiveItems(p) + (set j: nat | j < |l.items| && ItemMatches(l.items[j], q))
  {
    SearchFlags(l, p, raw);
    FlagSets(l, p, Search(l, p, raw), Normalise(raw));
  }

  /** After a non-blank search there is one notice if nothing matched and none otherwise. */
  lemma SearchNoticeIffNoMatch(l: Layout, p: Page, raw: string)
    requires WellFormed(l) && Fits(l, p) && Normalise(raw) != []
    ensures var r := Search(l, p, raw);
            r.notices == (if AnyMatch(l, Normalise(raw)) then 0 else 1) &&
            (r.notices == 1 <==> SearchReport(l, raw) == NoResults)
  {
  }

  /** Two failed searches in a row leave one notice, not two. */
  lemma RepeatedFailedSearchKeepsOneNotice(l: Layout, p: Page, raw1: string, raw2: string)
    requires WellFormed(l) && Fits(l, p) && Normalise(raw1) != [] && Normalise(raw2) != []
    requires !AnyMatch(l, Normalise(raw1)) && !AnyMatch(l, Normalise(raw2))
    ensures Search(l, Search(l, p, raw1), raw2).notices == 1
  {
    SearchNoticeIffNoMatch(l, p, raw1);
    SearchNoticeIffNoMatch(l, Search(l, p, raw1), raw2);
  }

  // ---------------------------------------------------------------------------
  // Revealing the group of a match

  /**
    When the group of item `k` is hidden and has a category button, scanning
    `k` clicks that button: it becomes the only active button and the group is
    shown.
   */
  lemma HighlightItemRevealsGroup(l: Layout, p: Page, k: nat)
    requires WellFormed(l) && Fits(l, p) && k < |l.items| && RevealButton(l, p, k).Some?
    ensures var r, b, g := HighlightItem(l, p, k), RevealButton(l, p, k).value, l.items[k].group.value;
            ActiveCategories(r) == {b} && !r.hidden[g]
  {
    var b := RevealButton(l, p, k).value;
    HighlightItemEffect(l, p, k);
    SelectCategoryActivatesOnlyClicked(l, p, b);
  }

  /** Item `j` would click a category button if its group were hidden. */
  predicate HasButton(l: Layout, j: nat)
    requires WellFormed(l) && j < |l.items|
  {
    l.items[j].group.Some? &&
    FirstButtonWithKey(l.categories, l.groups[l.items[j].group.value].id).Some?
  }

  /** Scanning item `n - 1` when it is a hit and has a category button leaves its group visible. */
  lemma ScanStepShowsGroup(l: Layout, p: Page, hits: seq<bool>, n: nat)
    requires WellFormed(l) && Fits(l, p) && |hits| == |l.items| && 0 < n <= |l.items|
    requires hits[n - 1] && HasButton(l, n - 1)
    ensures !ScanItems(l, p, hits, n).hidden[l.items[n - 1].group.value]
  {
    var s := ScanItems(l, p, hits, n - 1);
    if RevealButton(l, s, n - 1).Some? {
      HighlightItemRevealsGroup(l, s, n - 1);
    } else {
      HighlightItemEffect(l, s, n - 1);
    }
  }

  /** Scanning item `n - 1` when it is not both a hit and has a category button leaves every group as it was. */
  lemma ScanStepKeepsGroups(l: Layout, p: Page, hits: seq<bool>, n: nat)
    requires WellFormed(l) && Fits(l, p) && |hits| == |l.items| && 0 < n <= |l.items|
    requires !(hits[n - 1] && HasButton(l, n - 1))
    ensures ScanItems(l, p, hits, n).hidden == ScanItems(l, p, hits, n - 1).hidden
  {
    HighlightItemEffect(l, ScanItems(l, p, hits, n - 1), n - 1);
  }

  /**
    Scanning items `0..n` leaves the group of hit `k` visible, when `k` has a
    category button and no later hit in the scan does.
   */
  lemma {:induction false} ScanItemsKeepsLastRevealVisible(l: Layout, p: Page, hits: seq<bool>, n: nat, k: nat)
    requires WellFormed(l) && Fits(l, p) && |hits| == |l.items| && k < n <= |l.items|
    requires hits[k] && HasButton(l, k)
    requires forall j :: k < j < n && hits[j] ==> !HasButton(l, j)
    ensures !ScanItems(l, p, hits, n).hidden[l.items[k].group.value]
    decreases n
  {
    if k == n - 1 {
      ScanStepShowsGroup(l, p, hits, n);
    } else {
      ScanItemsKeepsLastRevealVisible(l, p, hits, n - 1, k);
      ScanStepKeepsGroups(l, p, hits, n);
    }
  }

  /**
    After a search, the group of the last matching item that has a category
    button is visible. (An earlier match's group may have been hidden again by a
    later click; see ScanClickHidesOtherGroups.)
   */
  lemma SearchShowsLastRevealedGroup(l: Layout, p: Page, raw: string, k: nat)
    requires WellFormed(l) && Fits(l, p) && Normalise(raw) != [] && k < |l.items|
    requires ItemMatches(l.items[k], Normalise(raw)) && HasButton(l, k)
    requires forall j :: k < j < |l.items| && ItemMatches(l.items[j], Normalise(raw)) ==> !HasButton(l, j)
    ensures !Search(l, p, raw).hidden[l.items[k].group.value]
  {
    ScanItemsKeepsLastRevealVisible(l, ClearHighlights(p), ItemHits(l, Normalise(raw)), |l.items|, k);
  }

  /**
    The category click made while scanning item `k` hides every group whose id
    differs from the item's own group id, a group shown for an earlier match of
    the same search included.
   */
  lemma ScanClickHidesOtherGroups(l: Layout, s: Page, k: nat, g: nat)
    requires WellFormed(l) && Fits(l, s) && k < |l.items| && RevealButton(l, s, k).Some? && g < |l.groups|
    requires l.groups[g].id != l.groups[l.items[k].group.value].id
    ensures HighlightItem(l, s, k).hidden[g]
  {
    HighlightItemEffect(l, s, k);
  }

  /** Two hidden groups "a" and "b", each with its own button and one item whose question is "x". */
  const TwoGroups := Layout([CategoryButton("a"), CategoryButton("b")],
                            [FaqGroup("a"), FaqGroup("b")],
                            [FaqItem(Some(0), "x", ""), FaqItem(Some(1), "x", "")], [])

  lemma TwoGroupsMatch()
    ensures Normalise("x") == "x"
    ensures ItemHits(TwoGroups, "x") == [true, true] && AnyMatch(TwoGroups, "x")
  {
    assert Lower("x") == "x";
    assert TrimStart("x") == "x" && TrimEnd("x") == "x";
    assert Includes("x", "x");
    assert ItemMatches(TwoGroups.items[0], "x") && ItemMatches(TwoGroups.items[1], "x");
  }

  /** Highlighting item `k` while its group is hidden clicks button `k` and shows only group `k`. */
  lemma TwoGroupsClick(s: Page, k: nat)
    requires Fits(TwoGroups, s) && k < 2 && s.hidden[k]
    ensures HighlightItem(TwoGroups, s, k).hidden == [k != 0, k != 1]
  {
    var l := TwoGroups;
    assert WellFormed(l);
    assert FirstButtonWithKey(l.categories, l.groups[k].id) == Some(k);
    HighlightItemEffect(l, s, k);
    SelectCategoryShowsOnlyKey(l, s, k);
  }

  /**
    A whole search in which a match's group ends hidden: items in hidden groups
    "a" and "b" both match "x", and the click made for the second item hides
    the group that the first item's click had shown.
   */
  lemma SearchCanHideEarlierMatchGroup(p: Page)
    requires Fits(TwoGroups, p) && p.hidden == [true, true]
    ensures WellFormed(TwoGroups) && ItemMatches(TwoGroups.items[0], Normalise("x"))
    ensures Search(TwoGroups, p, "x").hidden == [true, false]
  {
    var l := TwoGroups;
    assert WellFormed(l);
    TwoGroupsMatch();
    var hits := ItemHits(l, "x");
    var c := ClearHighlights(p);
    var s1 := ScanItems(l, c, hits, 1);
    assert s1 == HighlightItem(l, c, 0);
    TwoGroupsClick(c, 0);
    assert ScanItems(l, c, hits, 2) == HighlightItem(l, s1, 1);
    TwoGroupsClick(s1, 1);
  }

  // ---------------------------------------------------------------------------
  // Live input

  /** A short input value clears every highlight and the notice; a longer one changes nothing. */
  lemma InputRule(p: Page, raw: string)
    requires p.notices <= 1
    ensures var r := Input(p, raw);
            (Utf16Length(raw) <= 2 ==> HighlightedItems(r) == {} && HighlightedCards(r) == {} && r.notices == 0) &&
            (Utf16Length(raw) > 2 ==> r == p)
  {
    ClearRemovesHighlightsAndNotice(p);
  }

  /** `length` counts UTF-16 code units: "a" plus an emoji is three long and changes nothing, "ab" clears. */
  lemma InputCountsCodeUnits(p: Page)
    ensures Input(p, "a\U{1F600}") == p
    ensures Input(p, "ab") == ClearHighlights(p)
  {
    assert Utf16Length("a\U{1F600}") == 3;
    assert Utf16Length("ab") == 2;
  }

  // ---------------------------------------------------------------------------
  // Concrete queries and pages

  lemma TrimKeepsRefund()
    ensures Trim("refund") == "refund"
  {
    assert TrimStart("refund") == "refund";
    assert TrimEnd("refund") == "refund";
  }

  lemma TrimDropsPadding()
    ensures Trim(" refund ") == "refund"
  {
    assert TrimStart(" refund ") == "refund ";
    assert TrimEnd("refund ") == "refund";
  }

  /** An upper-case query is folded: "REFUND" searches for "refund". */
  lemma UpperQueryIsFolded()
    ensures Normalise("REFUND") == "refund"
  {
    assert Lower("REFUND") == "refund";
    TrimKeepsRefund();
  }

  /** A padded query is trimmed: " refund " searches for "refund". */
  lemma PaddedQueryIsTrimmed()
    ensures Normalise(" refund ") == "refund"
  {
    assert Lower(" refund ") == " refund ";
    TrimDropsPadding();
  }

  /** The question is folded too: "Refund" matches the query "refund". */
  lemma CapitalisedQuestionMatches()
    ensures ItemMatches(FaqItem(None, "Refund", ""), "refund")
  {
    assert Lower("Refund") == "refund";
  }

  /** Two matching items are both open after the search: the single-open rule does not survive a search. */
  lemma SearchCanOpenSeveralItems(l: Layout, p: Page, raw: string, i: nat, j: nat)
    requires WellFormed(l) && Fits(l, p) && Normalise(raw) != [] && i < j < |l.items|
    requires ItemMatches(l.items[i], Normalise(raw)) && ItemMatches(l.items[j], Normalise(raw))
    ensures i in ActiveItems(Search(l, p, raw)) && j in ActiveItems(Search(l, p, raw))
    ensures |ActiveItems(Search(l, p, raw))| >= 2
  {
    var r := Search(l, p, raw);
    SearchFlags(l, p, raw);
    assert r.items[i].active && r.items[j].active;
    TwoMembers(ActiveItems(r), i, j);
  }

  lemma TwoMembers(a: set<nat>, i: nat, j: nat)
    requires i < j && i in a && j in a
    ensures |a| >= 2
  {
    assert |{i, j}| == 2;
    assert a == {i, j} + (a - {i, j});
  }
}
