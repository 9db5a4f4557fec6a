/**
  The side navigation: a fixed table of entries, the admin entry shown only to
  administrators, the highlighted entry, the notification dot on "Matches",
  and what a click reports to the page.
 */
module SidebarNav {

  datatype NavEntry = NavEntry(id: string, title: string, adminOnly: bool)

  /** The first five rows of `navItems`, shown to everyone. */
  const CommonEntries: seq<NavEntry> := [
    NavEntry("home", "Feed", false),
    NavEntry("search", "Search", false),
    NavEntry("add", "Post Item", false),
    NavEntry("matches", "Matches", false),
    NavEntry("profile", "Profile", false)
  ]

  /** The last row of `navItems`, marked `adminOnly`. */
  const AdminEntry := NavEntry("admin", "Admin Panel", true)

  /** `navItems`, in display order. */
  const NavItems: seq<NavEntry> := CommonEntries + [AdminEntry]

  predicate DistinctIds(entries: seq<NavEntry>) {
    forall i, j :: 0 <= i < j < |entries| ==> entries[i].id != entries[j].id
  }

  lemma NavItemsDistinct()
    ensures DistinctIds(NavItems)
  {
  }

  /** `entries.filter(item => !item.adminOnly || isAdmin)` */
  function Visible(entries: seq<NavEntry>, isAdmin: bool): (r: seq<NavEntry>)
    ensures |r| <= |entries|
    ensures forall e :: e in r <==> e in entries && (!e.adminOnly || isAdmin)
  {
    if entries == [] then []
    else (if !entries[0].adminOnly || isAdmin then [entries[0]] else []) + Visible(entries[1..], isAdmin)
  }

  lemma {:induction false} VisibleAll(entries: seq<NavEntry>)
    ensures Visible(entries, true) == entries
  {
    if entries != [] {
      VisibleAll(entries[1..]);
    }
  }

  lemma {:induction false} VisibleAppend(a: seq<NavEntry>, b: seq<NavEntry>, isAdmin: bool)
    ensures Visible(a + b, isAdmin) == Visible(a, isAdmin) + Visible(b, isAdmin)
  {
    if a != [] {
      assert (a + b)[1..] == a[1..] + b;
      VisibleAppend(a[1..], b, isAdmin);
    } else {
      assert a + b == b;
    }
  }

  lemma {:induction false} VisibleNoAdminOnly(entries: seq<NavEntry>, isAdmin: bool)
    requires forall i :: 0 <= i < |entries| ==> !entries[i].adminOnly
    ensures Visible(entries, isAdmin) == entries
  {
    if entries != [] {
      VisibleNoAdminOnly(entries[1..], isAdmin);
    }
  }

  /** `filteredItems` for the given `isAdmin` (absent counts as `false`). */
  function FilteredItems(isAdmin: bool): (r: seq<NavEntry>)
    ensures forall e :: e in r <==> e in NavItems && (!e.adminOnly || isAdmin)
  {
    Visible(NavItems, isAdmin)
  }

  /** Administrators see the whole table; everyone else sees its first five entries. */
  lemma FilteredItemsAre(isAdmin: bool)
    ensures FilteredItems(isAdmin) == if isAdmin then NavItems else CommonEntries
  {
    VisibleAppend(CommonEntries, [AdminEntry], isAdmin);
    CommonEntriesVisible(isAdmin);
    AdminEntryVisible(isAdmin);
    AppendEmpty(CommonEntries);
  }

  lemma CommonEntriesVisible(isAdmin: bool)
    ensures Visible(CommonEntries, isAdmin) == CommonEntries
  {
    VisibleNoAdminOnly(CommonEntries, isAdmin);
  }

  lemma AdminEntryVisible(isAdmin: bool)
    ensures Visible([AdminEntry], isAdmin) == if isAdmin then [AdminEntry] else []
  {
    assert [AdminEntry][1..] == [];
  }

  lemma AppendEmpty<T>(s: seq<T>)
    ensures s + [] == s
  {
  }

  /** Six entries for administrators and five otherwise, the first five in table order, ids distinct. */
  lemma FilteredItemsShape(isAdmin: bool)
    ensures |FilteredItems(isAdmin)| == if isAdmin then 6 else 5
    ensures FilteredItems(isAdmin)[..5] == CommonEntries == NavItems[..5]
    ensures DistinctIds(FilteredItems(isAdmin))
  {
    FilteredItemsAre(isAdmin);
    NavItemsDistinct();
  }

  /** The admin entry is listed exactly for administrators. */
  lemma AdminEntryIffAdmin(isAdmin: bool)
    ensures (exists i :: 0 <= i < |FilteredItems(isAdmin)| && FilteredItems(isAdmin)[i].id == "admin") <==> isAdmin
  {
    FilteredItemsShape(isAdmin);
    var r := FilteredItems(isAdmin);
    if isAdmin {
      assert r[5].id == "admin";
    } else {
      forall i | 0 <= i < |r|
        ensures r[i].id != "admin"
      {
        assert r[i] == CommonEntries[i];
      }
    }
  }

  /** `isActive`: the entry whose id is the page's active item. */
  predicate IsActive(activeItem: string, e: NavEntry) {
    activeItem == e.id
  }

  /** At most one visible entry is highlighted. */
  lemma AtMostOneActive(isAdmin: bool, activeItem: string, i: int, j: int)
    requires 0 <= i < |FilteredItems(isAdmin)| && 0 <= j < |FilteredItems(isAdmin)|
    requires IsActive(activeItem, FilteredItems(isAdmin)[i]) && IsActive(activeItem, FilteredItems(isAdmin)[j])
    ensures i == j
  {
    FilteredItemsShape(isAdmin);
  }

  /** `showDot`: only on "Matches", and only when there are notifications. */
  predicate ShowDot(e: NavEntry, hasNotifications: bool) {
    e.id == "matches" && hasNotifications
  }

  /** Some visible entry shows the dot exactly when there are notifications, and it is "Matches". */
  lemma DotIffNotifications(isAdmin: bool, hasNotifications: bool)
    ensures (exists i :: 0 <= i < |FilteredItems(isAdmin)| && ShowDot(FilteredItems(isAdmin)[i], hasNotifications))
              <==> hasNotifications
    ensures forall i :: 0 <= i < |FilteredItems(isAdmin)| && ShowDot(FilteredItems(isAdmin)[i], hasNotifications)
              ==> FilteredItems(isAdmin)[i].title == "Matches"
  {
    FilteredItemsShape(isAdmin);
    var r := FilteredItems(isAdmin);
    assert r[3] == CommonEntries[3];
    forall i | 0 <= i < |r| && ShowDot(r[i], hasNotifications)
      ensures r[i].title == "Matches"
    {
      if i < 5 {
        assert r[i] == CommonEntries[i];
      }
    }
  }

  /** What a click reports to the page, in order. */
  datatype SidebarEvent = Navigate(id: string) | Close

  /** The click handler: `onNavigate(item.id)`, then `onClose?.()`. */
  function Click(e: NavEntry, hasOnClose: bool): (r: seq<SidebarEvent>)
    ensures |r| >= 1 && r[0] == Navigate(e.id)
    ensures Close in r <==> hasOnClose
    ensures hasOnClose ==> r[|r| - 1] == Close
  {
    [Navigate(e.id)] + (if hasOnClose then [Close] else [])
  }
}
