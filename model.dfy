/**
  The help-center page as an abstract state. The markup fixes a Layout: the
  category buttons with their keys, the FAQ groups with their ids, the FAQ
  items with their texts and containers, and the help cards with their texts;
  no handler of help-center.js changes any of it. The handlers change only the
  class flags of those elements and the number of no-results notices, which is
  what a Page holds. Each handler is a transition function here; the class in
  page.dfy runs the same handlers step by step and is proved to reach exactly
  these states.
 */
module HelpCenterModel {
  import opened Text

  datatype Option<T> = None | Some(value: T)

  /** A `.faq-category` button and its `data-category` key. */
  datatype CategoryButton = CategoryButton(key: string)

  /** A `.faq-items` container and its element id. */
  datatype FaqGroup = FaqGroup(id: string)

  /**
    A `.faq-item`: the index of its enclosing `.faq-items` container (None when
    it has none) and the text of its question heading and answer paragraph.
   */
  datatype FaqItem = FaqItem(group: Option<nat>, question: string, answer: string)

  /** A `.help-card`: its heading text and paragraph text. */
  datatype HelpCard = HelpCard(title: string, description: string)

  datatype Layout = Layout(
    categories: seq<CategoryButton>,
    groups: seq<FaqGroup>,
    items: seq<FaqItem>,
    cards: seq<HelpCard>)

  /** The `active` and `search-highlight` classes of one FAQ item. */
  datatype ItemFlags = ItemFlags(active: bool, highlight: bool)

  /**
    The mutable part of the page: the `active` class of each category button,
    the `hidden` class of each group, the flags of each item, the
    `search-highlight` class of each card, and how many `.no-results` notices
    the document holds.
   */
  datatype Page = Page(
    active: seq<bool>,
    hidden: seq<bool>,
    items: seq<ItemFlags>,
    cards: seq<bool>,
    notices: nat)

  /** What the search handler reports: the empty-query alert, the no-results notice, or matches. */
  datatype SearchOutcome = EmptyQuery | NoResults | Found

  /** Every item's container index names an existing group. */
  ghost predicate WellFormed(l: Layout) {
    forall j :: 0 <= j < |l.items| && l.items[j].group.Some? ==> l.items[j].group.value < |l.groups|
  }

  /** `p` has one flag per element of `l`, and there is at most one notice. */
  predicate Fits(l: Layout, p: Page) {
    |p.active| == |l.categories| && |p.hidden| == |l.groups| &&
    |p.items| == |l.items| && |p.cards| == |l.cards| && p.notices <= 1
  }

  function ActiveCategories(p: Page): set<nat> {
    set j: nat | j < |p.active| && p.active[j]
  }

  function VisibleGroups(p: Page): set<nat> {
    set g: nat | g < |p.hidden| && !p.hidden[g]
  }

  function ActiveItems(p: Page): set<nat> {
    set j: nat | j < |p.items| && p.items[j].active
  }

  function HighlightedItems(p: Page): set<nat> {
    set j: nat | j < |p.items| && p.items[j].highlight
  }

  function HighlightedCards(p: Page): set<nat> {
    set j: nat | j < |p.cards| && p.cards[j]
  }

  // ---------------------------------------------------------------------------
  // FAQ controller

  /**
    The click handler of category button `b`: every button loses `active`,
    then `b` gains it; every group whose id is `b`'s key loses `hidden`, every
    other group gains it.
   */
  function SelectCategory(l: Layout, p: Page, b: nat): (r: Page)
    requires Fits(l, p) && b < |l.categories|
    ensures Fits(l, r) && r.items == p.items && r.cards == p.cards && r.notices == p.notices
  {
    var key := l.categories[b].key;
    p.(active := seq(|l.categories|, j => j == b),
       hidden := seq(|l.groups|, g requires 0 <= g < |l.groups| => l.groups[g].id != key))
  }

  /**
    The click handler of item `i`'s question: every item loses `active`, then
    `i` gains it back only if it did not have it before the click.
   */
  function ToggleItem(p: Page, i: nat): (r: Page)
    requires i < |p.items|
    ensures |r.items| == |p.items| && r.(items := p.items) == p
    ensures forall j :: 0 <= j < |p.items| ==> r.items[j].highlight == p.items[j].highlight
  {
    var closed := seq(|p.items|, j requires 0 <= j < |p.items| => p.items[j].(active := false));
    p.(items := if p.items[i].active then closed else closed[i := closed[i].(active := true)])
  }

  // ---------------------------------------------------------------------------
  // Search controller

  /** `clearSearchHighlights`: every highlight goes, and the first notice (if any) is removed. */
  function ClearHighlights(p: Page): (r: Page)
    ensures |r.items| == |p.items| && |r.cards| == |p.cards|
    ensures r.active == p.active && r.hidden == p.hidden && r.notices <= p.notices
    ensures forall j :: 0 <= j < |p.items| ==> r.items[j].active == p.items[j].active
  {
    p.(items := seq(|p.items|, j requires 0 <= j < |p.items| => p.items[j].(highlight := false)),
       cards := seq(|p.cards|, j => false),
       notices := if p.notices > 0 then p.notices - 1 else 0)
  }

  /** An item matches when the query occurs in its lower-cased question or answer. */
  function ItemMatches(item: FaqItem, q: string): (b: bool)
    ensures b <==> Occurs(Lower(item.question), q) || Occurs(Lower(item.answer), q)
  {
    IncludesIffOccurs(Lower(item.question), q);
    IncludesIffOccurs(Lower(item.answer), q);
    Includes(Lower(item.question), q) || Includes(Lower(item.answer), q)
  }

  /** A card matches when the query occurs in its lower-cased title or description. */
  function CardMatches(card: HelpCard, q: string): (b: bool)
    ensures b <==> Occurs(Lower(card.title), q) || Occurs(Lower(card.description), q)
  {
    IncludesIffOccurs(Lower(card.title), q);
    IncludesIffOccurs(Lower(card.description), q);
    Includes(Lower(card.title), q) || Includes(Lower(card.description), q)
  }

  /** `document.querySelector('[data-category="key"]')`: the first button, in document order, with that key. */
  function FirstButtonWithKey(cats: seq<CategoryButton>, key: string): (r: Option<nat>)
    ensures r.Some? ==> r.value < |cats| && cats[r.value].key == key &&
                        forall j :: 0 <= j < r.value ==> cats[j].key != key
    ensures r.None? ==> forall j :: 0 <= j < |cats| ==> cats[j].key != key
  {
    if cats == [] then None
    else if cats[0].key == key then Some(0)
    else match FirstButtonWithKey(cats[1..], key)
      case None => None
      case Some(j) => Some(j + 1)
  }

  /** The button that `highlightFAQItem` clicks for item `k`, if its group is hidden and has one. */
  function RevealButton(l: Layout, p: Page, k: nat): (r: Option<nat>)
    requires WellFormed(l) && Fits(l, p) && k < |l.items|
    ensures r.Some? <==>
              l.items[k].group.Some? && p.hidden[l.items[k].group.value] &&
              exists j :: 0 <= j < |l.categories| && l.categories[j].key == l.groups[l.items[k].group.value].id
    ensures r.Some? ==> r.value < |l.categories| && l.categories[r.value].key == l.groups[l.items[k].group.value].id
  {
    match l.items[k].group
    case None => None
    case Some(g) =>
      if p.hidden[g] then FirstButtonWithKey(l.categories, l.groups[g].id) else None
  }

  /**
    `highlightFAQItem`: the item gains `search-highlight`; if its container is
    hidden, the category button for the container's id is clicked (when there is
    one); finally the item gains `active`. Other items are not closed.
   */
  function HighlightItem(l: Layout, p: Page, k: nat): (r: Page)
    requires WellFormed(l) && Fits(l, p) && k < |l.items|
    ensures Fits(l, r) && r.cards == p.cards && r.notices == p.notices
  {
    var marked := p.(items := p.items[k := p.items[k].(highlight := true)]);
    var shown := match RevealButton(l, p, k)
      case None => marked
      case Some(b) => SelectCategory(l, marked, b);
    shown.(items := shown.items[k := shown.items[k].(active := true)])
  }

  /** Which items match the query, in document order. */
  function ItemHits(l: Layout, q: string): (hits: seq<bool>)
    ensures |hits| == |l.items|
    ensures forall j :: 0 <= j < |l.items| ==> hits[j] == ItemMatches(l.items[j], q)
  {
    seq(|l.items|, j requires 0 <= j < |l.items| => ItemMatches(l.items[j], q))
  }

  /** One step of the item scan of `performSearch`: item `k` is highlighted if it matches (`hits[k]`). */
  function ScanItem(l: Layout, p: Page, hits: seq<bool>, k: nat): (r: Page)
    requires WellFormed(l) && Fits(l, p) && |hits| == |l.items| && k < |l.items|
    ensures Fits(l, r) && r.cards == p.cards && r.notices == p.notices
    ensures r.items[k].highlight == (p.items[k].highlight || hits[k])
    ensures r.items[k].active == (p.items[k].active || hits[k])
  {
    if hits[k] then HighlightItem(l, p, k) else p
  }

  /** The item scan of `performSearch` over items `0..n`, in document order, for the matches `hits`. */
  function ScanItems(l: Layout, p: Page, hits: seq<bool>, n: nat): (r: Page)
    requires WellFormed(l) && Fits(l, p) && |hits| == |l.items| && n <= |l.items|
    ensures Fits(l, r) && r.cards == p.cards && r.notices == p.notices
    decreases n
  {
    if n == 0 then p else ScanItem(l, ScanItems(l, p, hits, n - 1), hits, n - 1)
  }

  /** The card scan of `performSearch` over cards `0..n`: matching cards gain `search-highlight`. */
  function ScanCards(l: Layout, p: Page, q: string, n: nat): (r: Page)
    requires Fits(l, p) && n <= |l.cards|
    ensures Fits(l, r) && r.(cards := p.cards) == p
  {
    p.(cards := seq(|p.cards|, j requires 0 <= j < |p.cards| =>
                      p.cards[j] || (j < n && CardMatches(l.cards[j], q))))
  }

  /** `showNoResultsMessage`: a notice is appended only when none is present. */
  function ShowNoResults(p: Page): (r: Page)
    ensures r.notices == if p.notices == 0 then 1 else p.notices
    ensures r.(notices := p.notices) == p
  {
    if p.notices == 0 then p.(notices := 1) else p
  }

  /** Some item among the first `n` matches the query, as the item scan's `foundResults` flag records it. */
  function SomeItemMatches(items: seq<FaqItem>, q: string, n: nat): (b: bool)
    requires n <= |items|
    ensures b <==> exists j :: 0 <= j < n && ItemMatches(items[j], q)
  {
    if n == 0 then false
    else
      var before := SomeItemMatches(items, q, n - 1);
      assert ItemMatches(items[n - 1], q) ==> 0 <= n - 1 < n && ItemMatches(items[n - 1], q);
      before || ItemMatches(items[n - 1], q)
  }

  /** Some card among the first `n` matches the query, as the card scan's `foundResults` flag records it. */
  function SomeCardMatches(cards: seq<HelpCard>, q: string, n: nat): (b: bool)
    requires n <= |cards|
    ensures b <==> exists j :: 0 <= j < n && CardMatches(cards[j], q)
  {
    if n == 0 then false
    else
      var before := SomeCardMatches(cards, q, n - 1);
      assert CardMatches(cards[n - 1], q) ==> 0 <= n - 1 < n && CardMatches(cards[n - 1], q);
      before || CardMatches(cards[n - 1], q)
  }

  /** Some item or some card matches the query. */
  predicate AnyMatch(l: Layout, q: string) {
    (exists j :: 0 <= j < |l.items| && ItemMatches(l.items[j], q)) ||
    (exists j :: 0 <= j < |l.cards| && CardMatches(l.cards[j], q))
  }

  /** The page after the clear and both scans of `performSearch` for the query `q`, before any notice. */
  function Scanned(l: Layout, p: Page, q: string): (r: Page)
    requires WellFormed(l) && Fits(l, p)
    ensures Fits(l, r) && r.notices == 0
  {
    ScanCards(l, ScanItems(l, ClearHighlights(p), ItemHits(l, q), |l.items|), q, |l.cards|)
  }

  /** The page after `performSearch` with the text `raw` in the search input. */
  function Search(l: Layout, p: Page, raw: string): (r: Page)
    requires WellFormed(l) && Fits(l, p)
    ensures Fits(l, r)
    ensures Normalise(raw) == [] ==> r == p
  {
    var q := Normalise(raw);
    if q == [] then p
    else
      var scanned := Scanned(l, p, q);
      if AnyMatch(l, q) then scanned else ShowNoResults(scanned)
  }

  /** What `performSearch` reports for the text `raw`. */
  function SearchReport(l: Layout, raw: string): (o: SearchOutcome)
    ensures o == EmptyQuery <==> Normalise(raw) == []
    ensures o == NoResults <==> Normalise(raw) != [] && !AnyMatch(l, Normalise(raw))
  {
    var q := Normalise(raw);
    if q == [] then EmptyQuery else if AnyMatch(l, q) then Found else NoResults
  }

  /**
    The `input` listener: on a lower-cased, untrimmed value whose `length`
    (UTF-16 code units) exceeds two it calls the empty suggestion hook,
    otherwise it clears the highlights.
   */
  function Input(p: Page, raw: string): (r: Page)
    ensures Utf16Length(raw) > 2 ==> r == p
    ensures Utf16Length(raw) <= 2 ==> r == ClearHighlights(p)
  {
    LowerKeepsUtf16Length(raw);
    if Utf16Length(Lower(raw)) > 2 then p else ClearHighlights(p)
  }
}
