/**
  The main page: turns loaded items into cards, filters them by the selected
  tab, counts them, routes navigation from the bottom bar and the sidebar,
  and assembles a new post from the form data.
 */
module Feed {
  import opened TextUtil
  import opened Records
  import opened ItemsHooks
  import opened AvatarInitials
  import opened SidebarNav

  const UnknownUser := "Unknown User"
  const PlaceholderImage := "/placeholder.svg"

  // ----------------------------------------------------------------- cards

  /** An `ItemData` card. `date` is the raw `item_date`; its locale formatting is not modelled. */
  datatype DisplayItem = DisplayItem(
    id: string,
    kind: ItemType,
    title: string,
    category: string,
    description: string,
    location: string,
    date: string,
    imageUrl: string,
    userName: string,
    userEmail: string,
    isMatched: bool)

  /** `transformItem` */
  function Transform(f: FeedItem): (d: DisplayItem)
    ensures d.isMatched <==> f.item.status == Matched
    ensures d.id == f.item.id && d.kind == f.item.kind && d.title == f.item.title
    ensures d.category == f.item.category && d.imageUrl == f.item.imageUrl && d.date == f.item.itemDate
    ensures d.description == f.item.description && d.location == f.item.location
    ensures d.userName != ""
    ensures f.profile.None? ==> d.userName == UnknownUser && d.userEmail == ""
    ensures f.profile.Some? && f.profile.value.fullName != "" ==> d.userName == f.profile.value.fullName
    ensures f.profile.Some? && f.profile.value.fullName == "" ==> d.userName == UnknownUser
    ensures f.profile.Some? ==> d.userEmail == f.profile.value.email
  {
    var it := f.item;
    DisplayItem(
      it.id, it.kind, it.title, it.category, it.description, it.location, it.itemDate, it.imageUrl,
      if f.profile.Some? && f.profile.value.fullName != "" then f.profile.value.fullName else UnknownUser,
      if f.profile.Some? then f.profile.value.email else "",
      it.status == Matched)
  }

  /** A card without an owner profile shows the avatar "UU". */
  lemma OwnerlessCardAvatar(f: FeedItem)
    requires f.profile.None?
    ensures Initials(Transform(f).userName) == "UU"
  {
    UnknownUserInitials();
  }

  function TransformAll(items: seq<FeedItem>): (r: seq<DisplayItem>)
    ensures |r| == |items|
    ensures forall i :: 0 <= i < |items| ==> r[i] == Transform(items[i])
  {
    seq(|items|, i requires 0 <= i < |items| => Transform(items[i]))
  }

  // ------------------------------------------------------------ tabs, counts

  datatype FilterTab = TabAll | TabLost | TabFound | TabMatched

  /** `filterType`: what the page asks `useItems` for under each tab. */
  function QueryFor(tab: FilterTab): (q: ItemsQuery)
    ensures FilterApplies(Some(q)) <==> tab == TabLost || tab == TabFound
    ensures tab == TabLost ==> q == QueryType(Lost)
    ensures tab == TabFound ==> q == QueryType(Found)
  {
    match tab
    case TabLost => QueryType(Lost)
    case TabFound => QueryType(Found)
    case _ => QueryAll
  }

  /** The "matched" tab loads the same rows as the "all" tab. */
  lemma MatchedTabLoadsEverything(rows: seq<Item>)
    ensures SelectRows(rows, Some(QueryFor(TabMatched))) == SelectRows(rows, Some(QueryFor(TabAll))) == rows
  {
  }

  /** `.filter((item) => item.isMatched)` */
  function MatchedOnly(ds: seq<DisplayItem>): (r: seq<DisplayItem>)
    ensures |r| <= |ds|
    ensures forall d :: d in r <==> d in ds && d.isMatched
  {
    if ds == [] then []
    else (if ds[0].isMatched then [ds[0]] else []) + MatchedOnly(ds[1..])
  }

  /** Every matched card is kept as often as it occurs, every other card never. */
  lemma {:induction false} MatchedOnlyMultiset(ds: seq<DisplayItem>)
    ensures forall d :: multiset(MatchedOnly(ds))[d] == if d.isMatched then multiset(ds)[d] else 0
  {
    if ds != [] {
      MatchedOnlyMultiset(ds[1..]);
      assert ds == [ds[0]] + ds[1..];
    }
  }

  /**
    The filter keeps order: filtering a concatenation concatenates the
    filtered parts. With `MatchedOnlyOne` this pins the filter down.
   */
  lemma {:induction false} MatchedOnlyConcat(a: seq<DisplayItem>, b: seq<DisplayItem>)
    ensures MatchedOnly(a + b) == MatchedOnly(a) + MatchedOnly(b)
    decreases |a|
  {
    if a != [] {
      var head := if a[0].isMatched then [a[0]] else [];
      ConsOfConcat(a, b);
      assert MatchedOnly(a + b) == head + MatchedOnly(a[1..] + b);
      MatchedOnlyConcat(a[1..], b);
      AppendAssoc(head, MatchedOnly(a[1..]), MatchedOnly(b));
    } else {
      assert a + b == b;
    }
  }

  /** One card is kept exactly when it is matched. */
  lemma MatchedOnlyOne(d: DisplayItem)
    ensures MatchedOnly([d]) == if d.isMatched then [d] else []
  {
    assert [d][1..] == [];
  }

  /** `displayItems`: every card, or under the "matched" tab only the matched ones, in order. */
  function DisplayItems(tab: FilterTab, items: seq<FeedItem>): (r: seq<DisplayItem>)
    ensures tab != TabMatched ==> r == TransformAll(items)
    ensures tab == TabMatched ==> forall d :: d in r <==> d in TransformAll(items) && d.isMatched
    ensures tab == TabMatched ==>
              forall d :: multiset(r)[d] == if d.isMatched then multiset(TransformAll(items))[d] else 0
  {
    var cards := TransformAll(items);
    MatchedOnlyMultiset(cards);
    if tab == TabMatched then MatchedOnly(cards) else cards
  }

  /**
    Under the "matched" tab the cards of a concatenation are the cards of the
    parts, in order, and one item gives its card exactly when it is matched.
   */
  lemma MatchedTabKeepsOrder(a: seq<FeedItem>, b: seq<FeedItem>, f: FeedItem)
    ensures DisplayItems(TabMatched, a + b) == DisplayItems(TabMatched, a) + DisplayItems(TabMatched, b)
    ensures DisplayItems(TabMatched, [f]) == if f.item.status == Matched then [Transform(f)] else []
  {
    assert TransformAll(a + b) == TransformAll(a) + TransformAll(b);
    assert TransformAll([f]) == [Transform(f)];
    MatchedOnlyConcat(TransformAll(a), TransformAll(b));
    MatchedOnlyOne(Transform(f));
  }

  function ItemsOf(items: seq<FeedItem>): (r: seq<Item>)
    ensures |r| == |items| && forall i :: 0 <= i < |items| ==> r[i] == items[i].item
  {
    seq(|items|, i requires 0 <= i < |items| => items[i].item)
  }

  function CountMatched(items: seq<FeedItem>): (n: nat)
    ensures n <= |items|
  {
    if items == [] then 0
    else (if items[0].item.status == Matched then 1 else 0) + CountMatched(items[1..])
  }

  datatype Counts = Counts(all: nat, lost: nat, found: nat, matched: nat)

  /** The type of every loaded item, in order. */
  function KindsOf(items: seq<FeedItem>): (r: seq<ItemType>)
    ensures |r| == |items| && forall i :: 0 <= i < |items| ==> r[i] == items[i].item.kind
  {
    seq(|items|, i requires 0 <= i < |items| => items[i].item.kind)
  }

  /** The status of every loaded item, in order. */
  function StatusesOf(items: seq<FeedItem>): (r: seq<ItemStatus>)
    ensures |r| == |items| && forall i :: 0 <= i < |items| ==> r[i] == items[i].item.status
  {
    seq(|items|, i requires 0 <= i < |items| => items[i].item.status)
  }

  /** `counts`, over the items the current tab loaded: how often each type and the matched status occur. */
  function CountsOf(items: seq<FeedItem>): (c: Counts)
    ensures c.all == |items|
    ensures c.lost == multiset(KindsOf(items))[Lost]
    ensures c.found == multiset(KindsOf(items))[Found]
    ensures c.matched == multiset(StatusesOf(items))[Matched]
    ensures c.lost + c.found == c.all
    ensures c.matched <= c.all
  {
    OfKindSplits(ItemsOf(items));
    CountKinds(items, Lost);
    CountKinds(items, Found);
    CountStatuses(items);
    Counts(|items|, |OfKind(ItemsOf(items), Lost)|, |OfKind(ItemsOf(items), Found)|, CountMatched(items))
  }

  lemma {:induction false} CountKinds(items: seq<FeedItem>, t: ItemType)
    ensures |OfKind(ItemsOf(items), t)| == multiset(KindsOf(items))[t]
  {
    if items != [] {
      CountKinds(items[1..], t);
      assert ItemsOf(items)[1..] == ItemsOf(items[1..]);
      assert KindsOf(items) == [items[0].item.kind] + KindsOf(items[1..]);
    }
  }

  lemma {:induction false} CountStatuses(items: seq<FeedItem>)
    ensures CountMatched(items) == multiset(StatusesOf(items))[Matched]
  {
    if items != [] {
      CountStatuses(items[1..]);
      assert StatusesOf(items) == [items[0].item.status] + StatusesOf(items[1..]);
    }
  }

  lemma {:induction false} MatchedOnlyCounts(items: seq<FeedItem>)
    ensures |MatchedOnly(TransformAll(items))| == CountMatched(items)
  {
    if items != [] {
      assert TransformAll(items)[1..] == TransformAll(items[1..]);
      MatchedOnlyCounts(items[1..]);
    }
  }

  /** Under the "matched" tab the page lists exactly `counts.matched` cards. */
  lemma MatchedTabShowsMatchedCount(items: seq<FeedItem>)
    ensures |DisplayItems(TabMatched, items)| == CountsOf(items).matched
  {
    MatchedOnlyCounts(items);
  }

  lemma {:induction false} OfKindUniform(items: seq<Item>, t: ItemType)
    requires forall i :: 0 <= i < |items| ==> items[i].kind == t
    ensures OfKind(items, t) == items
  {
    if items != [] {
      OfKindUniform(items[1..], t);
    }
  }

  /**
    The counts are taken over what the tab loaded: under the "lost" tab every
    loaded item is lost, so `counts.lost == counts.all` and `counts.found == 0`.
   */
  lemma TypedTabCounts(rows: seq<Item>, tab: FilterTab, profiles: Option<seq<ProfileRow>>)
    requires tab == TabLost || tab == TabFound
    ensures var c := CountsOf(LoadItems(Ok(rows), Some(QueryFor(tab)), profiles).value);
      && (tab == TabLost ==> c.lost == c.all && c.found == 0)
      && (tab == TabFound ==> c.found == c.all && c.lost == 0)
  {
    var t := if tab == TabLost then Lost else Found;
    var r := LoadItems(Ok(rows), Some(QueryFor(tab)), profiles).value;
    var sel := SelectRows(rows, Some(QueryFor(tab)));
    forall i | 0 <= i < |r|
      ensures ItemsOf(r)[i].kind == t
    {
      assert r[i].item == sel[i];
      assert sel[i] in sel;
    }
    OfKindUniform(ItemsOf(r), t);
    OfKindSplits(ItemsOf(r));
  }

  // ------------------------------------------------------------- navigation

  /** The page state the handlers touch. */
  datatype PageState = PageState(activeNav: string, activeFilter: FilterTab, showSidebar: bool, showPostModal: bool)

  const InitialPage := PageState("home", TabAll, false, false)

  /** The values of `AppNavItem`. */
  predicate IsAppNavItem(item: string) {
    item == "home" || item == "search" || item == "add" || item == "matches" || item == "profile"
  }

  /** `handleNavigation` (bottom bar): "add" opens the post form, anything else becomes active. */
  function HandleNavigation(s: PageState, item: string): (r: PageState)
    requires IsAppNavItem(item)
    ensures item == "add" ==> r == s.(showPostModal := true)
    ensures item != "add" ==> r == s.(activeNav := item)
  {
    if item == "add" then s.(showPostModal := true) else s.(activeNav := item)
  }

  /** `handleSidebarNavigation`: as the bottom bar, except that "admin" does nothing. */
  function HandleSidebarNavigation(s: PageState, item: string): (r: PageState)
    ensures item == "admin" ==> r == s
    ensures r.activeFilter == s.activeFilter && r.showSidebar == s.showSidebar
  {
    if item == "add" then s.(showPostModal := true)
    else if item != "admin" then s.(activeNav := item)
    else s
  }

  /** On every bottom-bar item the two handlers agree. */
  lemma HandlersAgree(s: PageState, item: string)
    requires IsAppNavItem(item)
    ensures HandleSidebarNavigation(s, item) == HandleNavigation(s, item)
  {
  }

  /** Navigating to the same place twice is the same as once. */
  lemma SidebarNavigationIdempotent(s: PageState, item: string)
    ensures HandleSidebarNavigation(HandleSidebarNavigation(s, item), item) == HandleSidebarNavigation(s, item)
  {
  }

  /** Neither "add" nor "admin" is ever the active entry. */
  predicate NavInvariant(s: PageState) {
    s.activeNav != "add" && s.activeNav != "admin"
  }

  lemma NavInvariantKept(s: PageState, item: string)
    requires NavInvariant(s)
    ensures NavInvariant(HandleSidebarNavigation(s, item))
    ensures IsAppNavItem(item) ==> NavInvariant(HandleNavigation(s, item))
  {
  }

  /** So the sidebar never highlights "Post Item" or "Admin Panel". */
  lemma NeverHighlightsActions(s: PageState, isAdmin: bool, i: int)
    requires NavInvariant(s)
    requires 0 <= i < |FilteredItems(isAdmin)| && IsActive(s.activeNav, FilteredItems(isAdmin)[i])
    ensures FilteredItems(isAdmin)[i].title != "Post Item" && FilteredItems(isAdmin)[i].title != "Admin Panel"
  {
    FilteredItemsAre(isAdmin);
  }

  /** The page's reaction to what a sidebar click reports; `Close` hides the mobile sidebar. */
  function ApplySidebarEvents(s: PageState, events: seq<SidebarEvent>): (r: PageState)
    ensures r.activeFilter == s.activeFilter
    decreases |events|
  {
    if events == [] then s
    else
      var s1 := match events[0]
        case Navigate(id) => HandleSidebarNavigation(s, id)
        case Close => s.(showSidebar := false);
      ApplySidebarEvents(s1, events[1..])
  }

  /** In the mobile sidebar, "Admin Panel" only closes the sidebar. */
  lemma MobileAdminClickOnlyCloses(s: PageState)
    ensures ApplySidebarEvents(s, Click(AdminEntry, true)) == s.(showSidebar := false)
  {
    var ev := Click(AdminEntry, true);
    assert ev == [Navigate("admin"), Close];
    var s1 := HandleSidebarNavigation(s, "admin");
    assert ApplySidebarEvents(s, ev) == ApplySidebarEvents(s1, ev[1..]);
    assert ev[1..] == [Close] && ev[1..][1..] == [];
    assert ApplySidebarEvents(s1, [Close]) == ApplySidebarEvents(s1.(showSidebar := false), []);
  }

  /** In the mobile sidebar, "Post Item" opens the form and closes the sidebar. */
  lemma MobileAddClickOpensForm(s: PageState)
    ensures ApplySidebarEvents(s, Click(CommonEntries[2], true)) == s.(showPostModal := true, showSidebar := false)
  {
    var ev := Click(CommonEntries[2], true);
    assert ev == [Navigate("add"), Close];
    var s1 := HandleSidebarNavigation(s, "add");
    assert ApplySidebarEvents(s, ev) == ApplySidebarEvents(s1, ev[1..]);
    assert ev[1..] == [Close] && ev[1..][1..] == [];
    assert ApplySidebarEvents(s1, [Close]) == ApplySidebarEvents(s1.(showSidebar := false), []);
  }

  // ---------------------------------------------------------------- posting

  /** The `PostItemData` from the form; `hasImage` says whether a file was chosen. */
  datatype PostItemData = PostItemData(
    kind: ItemType,
    title: string,
    category: string,
    description: string,
    location: string,
    date: string,
    time: string,
    hasImage: bool)

  /**
    `handlePostItem`: the `ItemInput` handed to `useCreateItem`. `upload` is
    what the image upload produced (its URL or its error); it is only used
    when an image was chosen.
   */
  function HandlePostItem(data: PostItemData, upload: Result<string>): (input: ItemInput)
    ensures !data.hasImage || upload.Err? ==> input.imageUrl == PlaceholderImage
    ensures data.hasImage && upload.Ok? ==> input.imageUrl == upload.value
    ensures input.itemTime.None? <==> data.time == ""
    ensures input.itemTime.Some? ==> input.itemTime.value == data.time
    ensures input.kind == data.kind && input.title == data.title && input.itemDate == data.date
    ensures input.category == data.category && input.location == data.location
    ensures input.description == data.description
  {
    var imageUrl := if data.hasImage && upload.Ok? then upload.value else PlaceholderImage;
    ItemInput(data.kind, data.title, data.category, data.description, data.location, data.date,
              if data.time == "" then None else Some(data.time), imageUrl)
  }

  /** An empty time reaches the table as null and any other time unchanged. */
  lemma PostedTimeStored(data: PostItemData, upload: Result<string>, owner: string, id: string)
    ensures InsertedRow(HandlePostItem(data, upload), owner, id).itemTime ==
              if data.time == "" then None else Some(data.time)
  {
  }

  /** Without a chosen image the upload outcome is irrelevant. */
  lemma NoImageIgnoresUpload(data: PostItemData, a: Result<string>, b: Result<string>)
    requires !data.hasImage
    ensures HandlePostItem(data, a) == HandlePostItem(data, b)
  {
  }
}
