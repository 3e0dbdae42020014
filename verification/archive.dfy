/**
 * The archive page: a frequency index of the categories and tags of the
 * post cards, two menus listing them, one active filter over the cards, a
 * single lazily created "no matching posts" notice, and the resize handler.
 *
 * A post card is a record whose `category` and `tag` are its
 * comma-separated `data-category` / `data-tag` attributes (a missing
 * attribute reads as the empty string: both are falsy in the script) and
 * whose `display` is its inline `style.display`.
 */
module Archive {
  import opened Text

  const Category: string := "category"
  const Tag: string := "tag"

  /** `window.innerWidth <= 900` selects the narrow layout. */
  const MobileMaxWidth: int := 900

  /** The fallback thumbnails. */
  const RandomImages: seq<string> := [
    "/images/1.gif", "/images/2.gif", "/images/3.gif", "/images/4.gif", "/images/5.gif",
    "/images/6.gif", "/images/7.gif", "/images/8.gif", "/images/9.gif"
  ]

  /** A card's inline `style.display`: unset until a script writes it, then
      `flex`, `block` or `none`. */
  datatype Display = Unset | Flex | Block | Hidden

  datatype Post = Post(category: string, tag: string, display: Display)

  /** One generated `.archive-submenu-item`: its label and displayed count. */
  datatype MenuItem = MenuItem(name: string, count: nat)

  /** Which menu entry carries the `active` class. */
  datatype Selection = NoSelection | ShowAllSelected | ItemSelected(kind: string, value: string)

  // ---------------------------------------------------------------------------
  // Fallback thumbnail arithmetic
  // ---------------------------------------------------------------------------

  /** The fallback thumbnail of the card at `postIndex`. */
  function FallbackImage(postIndex: nat): (i: nat)
    ensures i < |RandomImages|
    ensures postIndex < |RandomImages| ==> i == postIndex
  {
    postIndex % |RandomImages|
  }

  /** The thumbnail tried after fallback `imageIndex` fails to load: another
      image of the list, with another address. */
  function RetryImage(imageIndex: nat): (j: nat)
    requires imageIndex < |RandomImages|
    ensures j < |RandomImages| && j != imageIndex
    ensures RandomImages[j] != RandomImages[imageIndex]
  {
    (imageIndex + 1) % |RandomImages|
  }

  /** What the error handler of a fallback thumbnail does: load another
      address, or give up and show the inline placeholder. */
  datatype ErrorAction = Load(url: string) | ShowPlaceholder

  /** The address an image reports as its `src`: the path resolved against
      the page's origin (`scheme://host`), which is never empty. */
  function ResolvedSrc(origin: string, path: string): string
  {
    origin + path
  }

  /** The error handler of a fallback thumbnail as written: it compares the
      image's reported `src` with the bare path of the next image. */
  function FallbackErrorAsWritten(src: string, imageIndex: nat): ErrorAction
    requires imageIndex < |RandomImages|
  {
    var next := RandomImages[RetryImage(imageIndex)];
    if src != next then Load(next) else ShowPlaceholder
  }

  /** The handler as written never gives up: whatever fallback image the
      element reports, it loads the next one again, so a second failure
      reloads the same address instead of showing the placeholder. */
  lemma FallbackNeverGivesUp(origin: string, imageIndex: nat, shown: nat)
    requires origin != "" && imageIndex < |RandomImages| && shown < |RandomImages|
    ensures FallbackErrorAsWritten(ResolvedSrc(origin, RandomImages[shown]), imageIndex)
         == Load(RandomImages[RetryImage(imageIndex)])
  {
    assert |ResolvedSrc(origin, RandomImages[shown])| > |RandomImages[RetryImage(imageIndex)]|;
  }

  /** The handler as intended: it compares the reported `src` with the
      resolved address of the next image. */
  function FallbackError(origin: string, src: string, imageIndex: nat): (a: ErrorAction)
    requires imageIndex < |RandomImages|
    ensures a == ShowPlaceholder <==> src == ResolvedSrc(origin, RandomImages[RetryImage(imageIndex)])
  {
    var next := RandomImages[RetryImage(imageIndex)];
    if src != ResolvedSrc(origin, next) then Load(next) else ShowPlaceholder
  }

  /** With the intended comparison, a failing fallback image is followed by
      the next one, and if that fails too the placeholder is shown. */
  lemma FallbackGivesUpAfterRetry(origin: string, imageIndex: nat)
    requires imageIndex < |RandomImages|
    ensures var next := RandomImages[RetryImage(imageIndex)];
      && FallbackError(origin, ResolvedSrc(origin, RandomImages[imageIndex]), imageIndex) == Load(next)
      && FallbackError(origin, ResolvedSrc(origin, next), imageIndex) == ShowPlaceholder
  {
    var next := RandomImages[RetryImage(imageIndex)];
    assert ResolvedSrc(origin, RandomImages[imageIndex]) != ResolvedSrc(origin, next) by {
      assert ResolvedSrc(origin, RandomImages[imageIndex])[|origin|..] == RandomImages[imageIndex];
      assert ResolvedSrc(origin, next)[|origin|..] == next;
    }
  }

  // ---------------------------------------------------------------------------
  // The facet index
  // ---------------------------------------------------------------------------

  /** The attribute a facet kind reads. */
  function Field(p: Post, kind: string): string
  {
    if kind == Category then p.category else p.tag
  }

  /** Every label of the given kind on every card, cards in order. */
  function AllLabels(posts: seq<Post>, kind: string): seq<string>
    decreases |posts|
  {
    if posts == [] then []
    else AllLabels(posts[..|posts| - 1], kind) + CommaList(Field(posts[|posts| - 1], kind))
  }

  /** The reference count of a name: how often it occurs on the cards,
      twice for a card that lists it twice. */
  function Occurrences(posts: seq<Post>, kind: string, name: string): nat
    decreases |posts|
  {
    if posts == [] then 0
    else
      var last := multiset(CommaList(Field(posts[|posts| - 1], kind)))[name];
      Occurrences(posts[..|posts| - 1], kind, name) + last
  }

  /** A label sequence tallied: each label mapped to its number of
      occurrences, so exactly the labels are keys and every count is at
      least one. */
  function Tally(labels: seq<string>): (r: map<string, nat>)
    ensures forall k :: k in r <==> k in labels
    ensures forall k :: k in r ==> r[k] >= 1
  {
    map k | k in labels :: multiset(labels)[k]
  }

  /** The keys of a JavaScript `Map` in insertion order: no repeats, and
      exactly the keys of the map. */
  ghost predicate KeyOrder(keys: seq<string>, m: map<string, nat>) {
    && (forall i, j :: 0 <= i < j < |keys| ==> keys[i] != keys[j])
    && (forall k :: k in keys <==> k in m)
  }

  /** Tallying one more name: the name's count goes up by one (from zero
      if it was absent). */
  lemma TallyStep(labels: seq<string>, t: string)
    ensures Tally(labels + [t]) == Tally(labels)[t := CountOf(Tally(labels), t) + 1]
  {
    var a, b := Tally(labels + [t]), Tally(labels)[t := CountOf(Tally(labels), t) + 1];
    assert multiset(labels + [t]) == multiset(labels) + multiset{t};
    assert a.Keys == b.Keys;
    forall k | k in a ensures a[k] == b[k] { }
  }

  /** `count || 0`: the map's count, or 0 for a label it lacks. */
  function CountOf(m: map<string, nat>, name: string): nat
  {
    if name in m then m[name] else 0
  }

  /** One `set(label, (get(label) || 0) + 1)` on a JavaScript `Map`: the
      map stays the tally of the labels seen, and a new label joins the key
      order at the end. */
  method Bump(counts: map<string, nat>, keys: seq<string>, ghost labels: seq<string>, t: string)
    returns (counts': map<string, nat>, keys': seq<string>)
    requires counts == Tally(labels) && KeyOrder(keys, counts)
    ensures counts' == Tally(labels + [t]) && KeyOrder(keys', counts')
    ensures keys <= keys'
  {
    TallyStep(labels, t);
    keys' := if t in counts then keys else keys + [t];
    counts' := counts[t := CountOf(counts, t) + 1];
  }

  /** The labels seen after one more piece: the trimmed piece when it is
      not blank, nothing otherwise. */
  lemma KeepStep(seen: seq<string>, pieces: seq<string>, j: nat)
    requires j < |pieces|
    ensures Trim(pieces[j]) != "" ==>
      seen + Filter(TrimAll(pieces[..j + 1]), Nonblank)
      == seen + Filter(TrimAll(pieces[..j]), Nonblank) + [Trim(pieces[j])]
    ensures Trim(pieces[j]) == "" ==>
      seen + Filter(TrimAll(pieces[..j + 1]), Nonblank) == seen + Filter(TrimAll(pieces[..j]), Nonblank)
  {
    var t := Trim(pieces[j]);
    assert TrimAll(pieces[..j + 1]) == TrimAll(pieces[..j]) + [t];
    FilterSnoc(TrimAll(pieces[..j]), Nonblank, t);
    var kept := Filter(TrimAll(pieces[..j]), Nonblank);
    if t != "" {
      assert seen + (kept + [t]) == seen + kept + [t];
    } else {
      assert kept + [] == kept;
    }
  }

  /** Counts the labels of one attribute into the map, as the guarded
      `split(',')` followed by the `forEach` over the pieces does. */
  method CountLabels(field: string, counts: map<string, nat>, keys: seq<string>, ghost seen: seq<string>)
    returns (counts': map<string, nat>, keys': seq<string>)
    requires counts == Tally(seen) && KeyOrder(keys, counts)
    ensures counts' == Tally(seen + CommaList(field)) && KeyOrder(keys', counts')
    ensures keys <= keys'
  {
    if field == "" {
      assert seen + CommaList(field) == seen;
      return counts, keys;
    }
    counts', keys' := CountPieces(Split(field, ','), counts, keys, seen);
  }

  /** The `forEach` over the pieces: each piece is trimmed, and a non-blank
      one has its count raised by one, entering the map (and the key order)
      at the end if new. */
  method CountPieces(pieces: seq<string>, counts: map<string, nat>, keys: seq<string>, ghost seen: seq<string>)
    returns (counts': map<string, nat>, keys': seq<string>)
    requires counts == Tally(seen) && KeyOrder(keys, counts)
    ensures counts' == Tally(seen + Filter(TrimAll(pieces), Nonblank)) && KeyOrder(keys', counts')
    ensures keys <= keys'
  {
    counts', keys' := counts, keys;
    for j := 0 to |pieces|
      invariant counts' == Tally(seen + Filter(TrimAll(pieces[..j]), Nonblank)) && KeyOrder(keys', counts')
      invariant keys <= keys'
    {
      var clean := Trim(pieces[j]);
      KeepStep(seen, pieces, j);
      if clean != "" {
        counts', keys' := Bump(counts', keys', seen + Filter(TrimAll(pieces[..j]), Nonblank), clean);
      }
    }
    assert pieces[..|pieces|] == pieces;
  }

  /** The counting pass over all cards: the category and tag maps, each
      with its keys in insertion order. */
  method BuildIndex(posts: seq<Post>)
    returns (categoryCount: map<string, nat>, categoryKeys: seq<string>,
             tagCount: map<string, nat>, tagKeys: seq<string>)
    ensures categoryCount == Tally(AllLabels(posts, Category)) && KeyOrder(categoryKeys, categoryCount)
    ensures tagCount == Tally(AllLabels(posts, Tag)) && KeyOrder(tagKeys, tagCount)
  {
    categoryCount, categoryKeys, tagCount, tagKeys := map[], [], map[], [];
    for i := 0 to |posts|
      invariant categoryCount == Tally(AllLabels(posts[..i], Category)) && KeyOrder(categoryKeys, categoryCount)
      invariant tagCount == Tally(AllLabels(posts[..i], Tag)) && KeyOrder(tagKeys, tagCount)
    {
      assert posts[..i + 1][..i] == posts[..i];
      categoryCount, categoryKeys :=
        CountLabels(posts[i].category, categoryCount, categoryKeys, AllLabels(posts[..i], Category));
      tagCount, tagKeys := CountLabels(posts[i].tag, tagCount, tagKeys, AllLabels(posts[..i], Tag));
    }
    assert posts[..|posts|] == posts;
  }

  /** The counting rule: a label is a key iff some card lists it, and its
      count is its number of occurrences over all cards. */
  lemma CountingRule(posts: seq<Post>, kind: string, name: string)
    ensures name in Tally(AllLabels(posts, kind)) <==>
            exists i :: 0 <= i < |posts| && name in CommaList(Field(posts[i], kind))
    ensures name in Tally(AllLabels(posts, kind)) ==>
            Tally(AllLabels(posts, kind))[name] == Occurrences(posts, kind, name)
  {
    ListedSomewhere(posts, kind, name);
    OccurrencesAreMultiplicity(posts, kind, name);
  }

  /** A label is among all labels iff some card lists it. */
  lemma ListedSomewhere(posts: seq<Post>, kind: string, name: string)
    ensures name in AllLabels(posts, kind) <==>
            exists i :: 0 <= i < |posts| && name in CommaList(Field(posts[i], kind))
  {
    if exists i :: 0 <= i < |posts| && name in CommaList(Field(posts[i], kind)) {
      var i :| 0 <= i < |posts| && name in CommaList(Field(posts[i], kind));
      ListedAt(posts, kind, name, i);
    }
    if name in AllLabels(posts, kind) {
      var i := ListingCard(posts, kind, name);
    }
  }

  lemma {:induction false} ListedAt(posts: seq<Post>, kind: string, name: string, i: nat)
    requires i < |posts| && name in CommaList(Field(posts[i], kind))
    ensures name in AllLabels(posts, kind)
    decreases |posts|
  {
    var n := |posts| - 1;
    LabelsOfLast(posts, kind, name);
    if i == n {
      assert name in CommaList(Field(posts[n], kind));
    } else {
      assert posts[..n][i] == posts[i];
      ListedAt(posts[..n], kind, name, i);
    }
  }

  /** The labels of all cards are those of all but the last, then the last's. */
  lemma LabelsOfLast(posts: seq<Post>, kind: string, name: string)
    requires posts != []
    ensures var n := |posts| - 1;
      name in AllLabels(posts, kind) <==>
      name in AllLabels(posts[..n], kind) || name in CommaList(Field(posts[n], kind))
  {
  }

  /** A card that lists a given label. */
  lemma {:induction false} ListingCard(posts: seq<Post>, kind: string, name: string) returns (i: nat)
    requires name in AllLabels(posts, kind)
    ensures i < |posts| && name in CommaList(Field(posts[i], kind))
    decreases |posts|
  {
    var n := |posts| - 1;
    assert AllLabels(posts, kind) == AllLabels(posts[..n], kind) + CommaList(Field(posts[n], kind));
    if name in CommaList(Field(posts[n], kind)) {
      i := n;
    } else {
      i := ListingCard(posts[..n], kind, name);
      assert posts[..n][i] == posts[i];
    }
  }

  /** The reference count is the multiplicity of the label among all labels. */
  lemma {:induction false} OccurrencesAreMultiplicity(posts: seq<Post>, kind: string, name: string)
    ensures Occurrences(posts, kind, name) == multiset(AllLabels(posts, kind))[name]
    decreases |posts|
  {
    if posts != [] {
      OccurrencesAreMultiplicity(posts[..|posts| - 1], kind, name);
    }
  }

  // ---------------------------------------------------------------------------
  // Menus
  // ---------------------------------------------------------------------------

  function Labels(menu: seq<MenuItem>): (r: seq<string>)
    ensures |r| == |menu| && forall i :: 0 <= i < |menu| ==> r[i] == menu[i].name
  {
    seq(|menu|, i requires 0 <= i < |menu| => menu[i].name)
  }

  /** What a filled menu holds: the given labels in ascending order, each
      with the count the map gives it. */
  predicate MenuOf(menu: seq<MenuItem>, items: seq<string>, counts: map<string, nat>) {
    && Sorted(Labels(menu))
    && multiset(Labels(menu)) == multiset(items)
    && forall i :: 0 <= i < |menu| ==> menu[i].count == CountOf(counts, menu[i].name)
  }

  /** Filling a menu: it is emptied, then one entry per label is appended in
      sorted order. */
  method FillMenu(items: seq<string>, counts: map<string, nat>) returns (menu: seq<MenuItem>)
    ensures |menu| == |items|
    ensures MenuOf(menu, items, counts)
  {
    var sorted := SortStrings(items);
    menu := [];
    for i := 0 to |sorted|
      invariant |menu| == i
      invariant forall j :: 0 <= j < i ==> menu[j] == MenuItem(sorted[j], CountOf(counts, sorted[j]))
    {
      var count := CountOf(counts, sorted[i]);
      menu := menu + [MenuItem(sorted[i], count)];
    }
    assert Labels(menu) == sorted;
    assert |multiset(sorted)| == |multiset(items)|;
  }

  /** Refilling a menu from the same labels and counts gives the same menu. */
  lemma MenuDeterministic(a: seq<MenuItem>, b: seq<MenuItem>, items: seq<string>, counts: map<string, nat>)
    requires MenuOf(a, items, counts) && MenuOf(b, items, counts)
    ensures a == b
  {
    SortedUnique(Labels(a), Labels(b));
    assert |a| == |b|;
    forall i | 0 <= i < |a| ensures a[i] == b[i] {
      assert a[i].name == Labels(a)[i] == Labels(b)[i] == b[i].name;
    }
  }

  /** A menu filled from the keys of a map lists exactly those keys. */
  lemma MenuListsKeys(menu: seq<MenuItem>, keys: seq<string>, counts: map<string, nat>, name: string)
    requires KeyOrder(keys, counts) && MenuOf(menu, keys, counts)
    ensures (exists i :: 0 <= i < |menu| && menu[i].name == name) <==> name in counts
    ensures forall i :: 0 <= i < |menu| ==> menu[i].name in counts && menu[i].count == counts[menu[i].name]
  {
    assert forall k :: k in Labels(menu) <==> k in multiset(keys);
    if name in counts {
      assert name in multiset(Labels(menu));
      var i :| 0 <= i < |menu| && Labels(menu)[i] == name;
    }
    forall i | 0 <= i < |menu| ensures menu[i].name in counts {
      assert Labels(menu)[i] in multiset(keys);
    }
  }

  // ---------------------------------------------------------------------------
  // Filtering, showing everything, resizing
  // ---------------------------------------------------------------------------

  /** `filterPosts`'s test: the field exists and `value` is exactly one of
      its comma-separated pieces after trimming; any other kind matches
      nothing. */
  predicate Matches(p: Post, kind: string, value: string): (r: bool)
    ensures r ==> Trim(value) == value && ',' !in value
  {
    PieceIsClean(p.category, value);
    PieceIsClean(p.tag, value);
    if kind == Category && p.category != "" then value in TrimAll(Split(p.category, ','))
    else if kind == Tag && p.tag != "" then value in TrimAll(Split(p.tag, ','))
    else false
  }

  /** A trimmed comma-separated piece is its own trim and holds no comma. */
  lemma PieceIsClean(s: string, value: string)
    ensures value in TrimAll(Split(s, ',')) ==> Trim(value) == value && ',' !in value
  {
    if value in TrimAll(Split(s, ',')) {
      var i :| 0 <= i < |Split(s, ',')| && TrimAll(Split(s, ','))[i] == value;
      TrimIdempotent(Split(s, ',')[i]);
      if ',' in value {
        TrimChars(Split(s, ',')[i], ',');
      }
    }
  }

  function LayoutFor(width: int): Display {
    if width <= MobileMaxWidth then Block else Flex
  }

  predicate Visible(p: Post) {
    p.display != Hidden
  }

  function AfterFilter(p: Post, kind: string, value: string, width: int): Post {
    p.(display := if Matches(p, kind, value) then LayoutFor(width) else Hidden)
  }

  function AfterShowAll(p: Post, width: int): Post {
    p.(display := LayoutFor(width))
  }

  function AfterResize(p: Post, width: int): Post {
    if p.display == Hidden then p else p.(display := LayoutFor(width))
  }

  /** Filtering keeps every card's labels, and shows exactly the cards
      that match. */
  function FilterCards(ps: seq<Post>, kind: string, value: string, width: int): (r: seq<Post>)
    ensures |r| == |ps| && forall i :: 0 <= i < |ps| ==> r[i] == AfterFilter(ps[i], kind, value, width)
    ensures SameCards(r, ps)
    ensures forall i :: 0 <= i < |r| ==> (Visible(r[i]) <==> Matches(ps[i], kind, value))
  {
    seq(|ps|, i requires 0 <= i < |ps| => AfterFilter(ps[i], kind, value, width))
  }

  function ShowAll(ps: seq<Post>, width: int): (r: seq<Post>)
    ensures |r| == |ps| && forall i :: 0 <= i < |ps| ==> r[i] == AfterShowAll(ps[i], width)
  {
    seq(|ps|, i requires 0 <= i < |ps| => AfterShowAll(ps[i], width))
  }

  function ResizeAll(ps: seq<Post>, width: int): (r: seq<Post>)
    ensures |r| == |ps| && forall i :: 0 <= i < |ps| ==> r[i] == AfterResize(ps[i], width)
  {
    seq(|ps|, i requires 0 <= i < |ps| => AfterResize(ps[i], width))
  }

  /** The number of cards not hidden. */
  function VisibleCount(ps: seq<Post>): (n: nat)
    ensures n <= |ps|
    decreases |ps|
  {
    if ps == [] then 0
    else VisibleCount(ps[..|ps| - 1]) + (if Visible(ps[|ps| - 1]) then 1 else 0)
  }

  /** The number of cards a filter matches. */
  function MatchCount(ps: seq<Post>, kind: string, value: string): nat
    decreases |ps|
  {
    if ps == [] then 0
    else MatchCount(ps[..|ps| - 1], kind, value) + (if Matches(ps[|ps| - 1], kind, value) then 1 else 0)
  }

  /** Same cards with the same attributes: only `display` may differ. */
  predicate SameCards(a: seq<Post>, b: seq<Post>) {
    |a| == |b| && forall i :: 0 <= i < |a| ==> a[i].category == b[i].category && a[i].tag == b[i].tag
  }

  /** After a filter, a card is visible iff the filter matches it, visible
      cards take the layout of the viewport, and the visible count is the
      number of matching cards. */
  lemma {:induction false} FilterVisibility(ps: seq<Post>, kind: string, value: string, width: int)
    ensures forall i :: 0 <= i < |ps| ==>
      (Visible(FilterCards(ps, kind, value, width)[i]) <==> Matches(ps[i], kind, value))
    ensures forall i :: 0 <= i < |ps| && Matches(ps[i], kind, value) ==>
      FilterCards(ps, kind, value, width)[i].display == LayoutFor(width)
    ensures VisibleCount(FilterCards(ps, kind, value, width)) == MatchCount(ps, kind, value)
    decreases |ps|
  {
    if ps != [] {
      var n := |ps| - 1;
      FilterVisibility(ps[..n], kind, value, width);
      assert FilterCards(ps, kind, value, width)[..n] == FilterCards(ps[..n], kind, value, width);
    }
  }

  /** A filter looks only at the attributes, so applying it again, or after
      any resize or other filter, changes nothing further. */
  lemma FilterIdempotent(ps: seq<Post>, kind: string, value: string, width: int)
    ensures FilterCards(FilterCards(ps, kind, value, width), kind, value, width) == FilterCards(ps, kind, value, width)
    ensures forall w :: FilterCards(ResizeAll(ps, w), kind, value, width) == FilterCards(ps, kind, value, width)
  {
  }

  /** A resize at the current width leaves a filtered or fully shown page
      as it is, and resizing twice is resizing once. */
  lemma ResizeStable(ps: seq<Post>, kind: string, value: string, width: int)
    ensures ResizeAll(FilterCards(ps, kind, value, width), width) == FilterCards(ps, kind, value, width)
    ensures ResizeAll(ShowAll(ps, width), width) == ShowAll(ps, width)
    ensures ResizeAll(ResizeAll(ps, width), width) == ResizeAll(ps, width)
  {
  }

  /** A resize never reveals or hides a card: it keeps the visible count. */
  lemma {:induction false} ResizeKeepsVisibility(ps: seq<Post>, width: int)
    ensures VisibleCount(ResizeAll(ps, width)) == VisibleCount(ps)
    decreases |ps|
  {
    if ps != [] {
      var n := |ps| - 1;
      ResizeKeepsVisibility(ps[..n], width);
      assert ResizeAll(ps, width)[..n] == ResizeAll(ps[..n], width);
    }
  }

  /** Showing everything makes every card visible. */
  lemma {:induction false} ShowAllCount(ps: seq<Post>, width: int)
    ensures VisibleCount(ShowAll(ps, width)) == |ps|
    decreases |ps|
  {
    if ps != [] {
      var n := |ps| - 1;
      ShowAllCount(ps[..n], width);
      assert ShowAll(ps, width)[..n] == ShowAll(ps[..n], width);
    }
  }

  /** For a non-empty value, the filter's exact match on trimmed pieces is
      membership among the labels the index counts; a kind other than
      category or tag matches no card. */
  lemma MatchesLabel(p: Post, kind: string, value: string)
    ensures kind != Category && kind != Tag ==> !Matches(p, kind, value)
    ensures value != "" && (kind == Category || kind == Tag) ==>
      (Matches(p, kind, value) <==> value in CommaList(Field(p, kind)))
  {
    if value != "" && (kind == Category || kind == Tag) {
      CommaListMembership(Field(p, kind), value);
    }
  }

  /** Choosing a label from a menu shows between one card and the name's
      count: the notice for "no matching posts" never follows a menu choice. */
  lemma {:induction false} MenuChoiceShowsPosts(ps: seq<Post>, kind: string, name: string, width: int)
    requires kind == Category || kind == Tag
    requires name in Tally(AllLabels(ps, kind))
    ensures 1 <= VisibleCount(FilterCards(ps, kind, name, width)) <= Tally(AllLabels(ps, kind))[name]
  {
    CountingRule(ps, kind, name);
    FilterVisibility(ps, kind, name, width);
    var i :| 0 <= i < |ps| && name in CommaList(Field(ps[i], kind));
    MatchBounds(ps, kind, name, i);
  }

  /** Choosing entry `i` of a menu filled from the index of the cards (in
      any display state) shows between one card and the entry's count. */
  lemma MenuEntryShowsPosts(ps: seq<Post>, cards: seq<Post>, kind: string, menu: seq<MenuItem>,
                            keys: seq<string>, counts: map<string, nat>, i: nat, width: int)
    requires SameCards(ps, cards) && (kind == Category || kind == Tag)
    requires counts == Tally(AllLabels(cards, kind)) && KeyOrder(keys, counts) && MenuOf(menu, keys, counts)
    requires i < |menu|
    ensures 1 <= VisibleCount(FilterCards(ps, kind, menu[i].name, width)) <= menu[i].count
  {
    MenuListsKeys(menu, keys, counts, menu[i].name);
    SameCardsSameLabels(ps, cards, kind);
    MenuChoiceShowsPosts(ps, kind, menu[i].name, width);
  }

  /** A label carried by card `i` is matched by at least one card and by no
      more cards than its occurrences. */
  lemma MatchBounds(ps: seq<Post>, kind: string, name: string, i: nat)
    requires kind == Category || kind == Tag
    requires i < |ps| && name in CommaList(Field(ps[i], kind))
    ensures 1 <= MatchCount(ps, kind, name) <= Occurrences(ps, kind, name)
  {
    assert name != "" by { CommaListMembership(Field(ps[i], kind), name); }
    MatchLower(ps, kind, name, i);
    MatchUpper(ps, kind, name);
  }

  /** A label carried by card `i` is matched by card `i` at least. */
  lemma {:induction false} MatchLower(ps: seq<Post>, kind: string, name: string, i: nat)
    requires (kind == Category || kind == Tag) && name != ""
    requires i < |ps| && name in CommaList(Field(ps[i], kind))
    ensures 1 <= MatchCount(ps, kind, name)
    decreases |ps|
  {
    var n := |ps| - 1;
    if i == n {
      MatchStep(ps[n], kind, name);
    } else {
      assert ps[..n][i] == ps[i];
      MatchLower(ps[..n], kind, name, i);
    }
  }

  /** One card adds at most its occurrences of the label to the match
      count, and adds one exactly when it lists the label. */
  lemma MatchStep(p: Post, kind: string, name: string)
    requires (kind == Category || kind == Tag) && name != ""
    ensures Matches(p, kind, name) <==> name in CommaList(Field(p, kind))
    ensures (if Matches(p, kind, name) then 1 else 0) <= multiset(CommaList(Field(p, kind)))[name]
  {
    MatchesLabel(p, kind, name);
  }

  /** No label matches more cards than its occurrences. */
  lemma {:induction false} MatchUpper(ps: seq<Post>, kind: string, name: string)
    requires (kind == Category || kind == Tag) && name != ""
    ensures MatchCount(ps, kind, name) <= Occurrences(ps, kind, name)
    decreases |ps|
  {
    if ps != [] {
      MatchUpper(ps[..|ps| - 1], kind, name);
      MatchStep(ps[|ps| - 1], kind, name);
    }
  }

  /** The index reads only the attributes: cards that differ only in
      `display` carry the same labels. */
  lemma {:induction false} SameCardsSameLabels(a: seq<Post>, b: seq<Post>, kind: string)
    requires SameCards(a, b)
    ensures AllLabels(a, kind) == AllLabels(b, kind)
    decreases |a|
  {
    if a != [] {
      var n := |a| - 1;
      SameCardsSameLabels(a[..n], b[..n], kind);
      assert Field(a[n], kind) == Field(b[n], kind);
    }
  }

  /** Every counted label is non-blank. */
  lemma LabelsNonblank(posts: seq<Post>, kind: string)
    ensures forall k :: k in AllLabels(posts, kind) ==> k != ""
  {
    forall k | k in AllLabels(posts, kind) ensures k != "" {
      var i := ListingCard(posts, kind, k);
      CommaListMembership(Field(posts[i], kind), k);
    }
  }

  /** The `filter(Boolean)` applied to the keys before a menu is filled
      removes nothing. */
  lemma KeysUnfiltered(posts: seq<Post>, kind: string, keys: seq<string>)
    requires KeyOrder(keys, Tally(AllLabels(posts, kind)))
    ensures Filter(keys, Nonblank) == keys
  {
    LabelsNonblank(posts, kind);
    forall i | 0 <= i < |keys| ensures Nonblank(keys[i]) {
      assert keys[i] in Tally(AllLabels(posts, kind));
    }
    FilterAll(keys, Nonblank);
  }

  /** The loop of `filterPosts`: each card is shown (as `flex`, or `block`
      on a narrow viewport) iff the filter matches it, and the shown cards
      are counted. */
  method FilterLoop(cards: seq<Post>, kind: string, value: string, width: int)
    returns (shown: seq<Post>, visibleCount: nat)
    ensures shown == FilterCards(cards, kind, value, width) && SameCards(shown, cards)
    ensures visibleCount == MatchCount(cards, kind, value) == VisibleCount(shown)
  {
    shown, visibleCount := cards, 0;
    for i := 0 to |cards|
      invariant |shown| == |cards|
      invariant forall j :: 0 <= j < i ==> shown[j] == AfterFilter(cards[j], kind, value, width)
      invariant forall j :: i <= j < |cards| ==> shown[j] == cards[j]
      invariant visibleCount == MatchCount(cards[..i], kind, value)
    {
      var p := shown[i];
      var shouldShow := Matches(p, kind, value);
      var d := if shouldShow then Flex else Hidden;
      if width <= MobileMaxWidth && shouldShow {
        d := Block;
      }
      shown := shown[i := p.(display := d)];
      if shouldShow {
        visibleCount := visibleCount + 1;
      }
      assert cards[..i + 1][..i] == cards[..i];
    }
    assert cards[..|cards|] == cards;
    FilterVisibility(cards, kind, value, width);
  }

  /** The loop of `showAllPosts`: every card takes the layout of the viewport. */
  method ShowAllLoop(cards: seq<Post>, width: int) returns (shown: seq<Post>)
    ensures shown == ShowAll(cards, width) && SameCards(shown, cards)
    ensures VisibleCount(shown) == |cards|
  {
    shown := cards;
    for i := 0 to |cards|
      invariant |shown| == |cards|
      invariant forall j :: 0 <= j < i ==> shown[j] == AfterShowAll(cards[j], width)
      invariant forall j :: i <= j < |cards| ==> shown[j] == cards[j]
    {
      var d := Flex;
      if width <= MobileMaxWidth {
        d := Block;
      }
      shown := shown[i := shown[i].(display := d)];
    }
    ShowAllCount(cards, width);
  }

  /** The loop of `handleResize`: every card not hidden takes the layout of
      the viewport; hidden cards stay hidden. */
  method ResizeLoop(cards: seq<Post>, width: int) returns (shown: seq<Post>)
    ensures shown == ResizeAll(cards, width) && SameCards(shown, cards)
    ensures VisibleCount(shown) == VisibleCount(cards)
  {
    var isMobile := width <= MobileMaxWidth;
    shown := cards;
    for i := 0 to |cards|
      invariant |shown| == |cards|
      invariant forall j :: 0 <= j < i ==> shown[j] == AfterResize(cards[j], width)
      invariant forall j :: i <= j < |cards| ==> shown[j] == cards[j]
    {
      if shown[i].display != Hidden {
        shown := shown[i := shown[i].(display := if isMobile then Block else Flex)];
      }
    }
    ResizeKeepsVisibility(cards, width);
  }

  // ---------------------------------------------------------------------------
  // The page
  // ---------------------------------------------------------------------------

  /** Text of the filter status line. */
  function FilterStatus(kind: string, value: string): (r: string)
    ensures EndsWith(r, value)
  {
    "当前筛选：" + (if kind == Category then "分类" else "标签") + " - " + value
  }

  class ArchivePage {
    /** The cards as loaded; filtering changes only their `display`. */
    const cards: seq<Post>
    var posts: seq<Post>
    /** The facet index, built once when the page loads: counts and keys in
        insertion order. */
    const categoryCount: map<string, nat>
    const categoryKeys: seq<string>
    const tagCount: map<string, nat>
    const tagKeys: seq<string>
    /** The two menus, filled once when the page loads. */
    const categoryMenu: seq<MenuItem>
    const tagMenu: seq<MenuItem>
    /** Whether the page has the `#archive-list` container for the notice. */
    const hasList: bool
    /** How many `.archive-empty` notices exist, and whether one is displayed. */
    var emptyNotices: nat
    var emptyShown: bool
    var active: Selection
    /** The filter status line: its text, and whether it is displayed. */
    var statusText: string
    var statusShown: bool

    /** The index and menus as loading leaves them. They are constants, so
        this holds for the whole life of the page once the constructor has
        established it. */
    ghost predicate Loaded()
    {
      && categoryCount == Tally(AllLabels(cards, Category)) && KeyOrder(categoryKeys, categoryCount)
      && tagCount == Tally(AllLabels(cards, Tag)) && KeyOrder(tagKeys, tagCount)
      && MenuOf(categoryMenu, categoryKeys, categoryCount)
      && MenuOf(tagMenu, tagKeys, tagCount)
    }

    ghost predicate Valid()
      reads this
    {
      && SameCards(posts, cards)
      && emptyNotices <= 1
      && (emptyShown ==> emptyNotices == 1)
      && (!hasList ==> emptyNotices == 0)
    }

    /** Page load: count the labels, then fill both menus from the non-blank keys. */
    constructor (loaded: seq<Post>, hasArchiveList: bool)
      ensures Valid() && Loaded()
      ensures cards == loaded && posts == loaded && hasList == hasArchiveList
      ensures emptyNotices == 0 && !emptyShown && active == NoSelection && !statusShown
    {
      var cc, ck, tc, tk := BuildIndex(loaded);
      KeysUnfiltered(loaded, Category, ck);
      KeysUnfiltered(loaded, Tag, tk);
      var cm := FillMenu(Filter(ck, Nonblank), cc);
      var tm := FillMenu(Filter(tk, Nonblank), tc);
      cards, posts := loaded, loaded;
      categoryCount, categoryKeys := cc, ck;
      tagCount, tagKeys := tc, tk;
      categoryMenu, tagMenu := cm, tm;
      hasList := hasArchiveList;
      emptyNotices, emptyShown := 0, false;
      active, statusText, statusShown := NoSelection, "", false;
    }

    /** Displays the notice, creating it inside `#archive-list` the first
        time; without the container nothing happens. */
    method ShowEmptyState()
      requires Valid()
      modifies this
      ensures Valid()
      ensures posts == old(posts)
      ensures active == old(active) && statusText == old(statusText) && statusShown == old(statusShown)
      ensures emptyShown == hasList
      ensures emptyNotices == (if hasList then 1 else 0)
    {
      if hasList {
        if emptyNotices == 0 {
          emptyNotices := 1;
        }
        emptyShown := true;
      }
    }

    /** Hides the notice if it exists. */
    method HideEmptyState()
      requires Valid()
      modifies this
      ensures Valid()
      ensures posts == old(posts)
      ensures active == old(active) && statusText == old(statusText) && statusShown == old(statusShown)
      ensures !emptyShown && emptyNotices == old(emptyNotices)
    {
      if emptyNotices == 1 {
        emptyShown := false;
      }
    }

    /** Shows exactly the cards the filter matches, in the layout of the
        viewport, and the notice iff none matches. */
    method FilterPosts(kind: string, value: string, width: int) returns (visibleCount: nat)
      requires Valid()
      modifies this
      ensures Valid()
      ensures posts == FilterCards(old(posts), kind, value, width)
      ensures visibleCount == MatchCount(old(posts), kind, value) == VisibleCount(posts)
      ensures emptyShown <==> hasList && visibleCount == 0
      ensures emptyNotices == (if hasList && visibleCount == 0 then 1 else old(emptyNotices))
      ensures active == old(active) && statusText == old(statusText) && statusShown == old(statusShown)
    {
      posts, visibleCount := FilterLoop(posts, kind, value, width);
      if visibleCount == 0 {
        ShowEmptyState();
      } else {
        HideEmptyState();
      }
    }
  
    /** Shows every card and hides the notice. */
    method ShowAllPosts(width: int)
      requires Valid()
      modifies this
      ensures Valid()
      ensures posts == ShowAll(old(posts), width) && VisibleCount(posts) == |posts|
      ensures !emptyShown && emptyNotices == old(emptyNotices)
      ensures active == old(active) && statusText == old(statusText) && statusShown == old(statusShown)
    {
      posts := ShowAllLoop(posts, width);
      HideEmptyState();
    }

    /** Re-lays the shown cards out for the new viewport width. */
    method HandleResize(width: int)
      requires Valid()
      modifies this
      ensures Valid()
      ensures posts == ResizeAll(old(posts), width) && VisibleCount(posts) == VisibleCount(old(posts))
      ensures emptyShown == old(emptyShown) && emptyNotices == old(emptyNotices)
      ensures active == old(active) && statusText == old(statusText) && statusShown == old(statusShown)
    {
      posts := ResizeLoop(posts, width);
    }

    /** Writes and displays the filter status line. */
    method ShowCurrentFilter(kind: string, value: string)
      modifies this
      ensures statusText == FilterStatus(kind, value) && statusShown
      ensures posts == old(posts) && active == old(active)
      ensures emptyShown == old(emptyShown) && emptyNotices == old(emptyNotices)
    {
      statusText, statusShown := FilterStatus(kind, value), true;
    }

    /** Hides the filter status line, keeping its text. */
    method HideCurrentFilter()
      modifies this
      ensures !statusShown && statusText == old(statusText)
      ensures posts == old(posts) && active == old(active)
      ensures emptyShown == old(emptyShown) && emptyNotices == old(emptyNotices)
    {
      statusShown := false;
    }

    /** A click on entry `i` of the category or tag menu: the entry becomes
        the active one, the cards are filtered by its label, and the status
        line names it. Between one card and the entry's displayed count are
        shown, so the notice stays hidden. */
    method SelectItem(kind: string, i: nat, width: int) returns (visibleCount: nat)
      requires Valid() && Loaded()
      requires kind == Category || kind == Tag
      requires i < |if kind == Category then categoryMenu else tagMenu|
      modifies this
      ensures Valid()
      ensures var item := (if kind == Category then categoryMenu else tagMenu)[i];
        && active == ItemSelected(kind, item.name)
        && posts == FilterCards(old(posts), kind, item.name, width)
        && statusText == FilterStatus(kind, item.name) && statusShown
        && visibleCount == VisibleCount(posts)
        && 1 <= visibleCount <= item.count
      ensures !emptyShown && emptyNotices == old(emptyNotices)
    {
      var item := (if kind == Category then categoryMenu else tagMenu)[i];
      if kind == Category {
        MenuEntryShowsPosts(posts, cards, kind, categoryMenu, categoryKeys, categoryCount, i, width);
      } else {
        MenuEntryShowsPosts(posts, cards, kind, tagMenu, tagKeys, tagCount, i, width);
      }
      active := ItemSelected(kind, item.name);
      visibleCount := FilterPosts(kind, item.name, width);
      ShowCurrentFilter(kind, item.name);
    }

    /** A click on "show all": it becomes the active entry, every card is
        shown and the status line is hidden. */
    method SelectShowAll(width: int)
      requires Valid()
      modifies this
      ensures Valid()
      ensures active == ShowAllSelected
      ensures posts == ShowAll(old(posts), width) && VisibleCount(posts) == |posts|
      ensures !emptyShown && emptyNotices == old(emptyNotices)
      ensures !statusShown && statusText == old(statusText)
    {
      active := ShowAllSelected;
      ShowAllPosts(width);
      HideCurrentFilter();
    }
  }
}
