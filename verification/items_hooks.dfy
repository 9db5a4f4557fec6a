/**
  The client-side data hooks: loading the feed (type filter, owner profiles
  joined in), posting an item (and kicking off matching), and naming an
  uploaded image. The tables are abstract values; a query's rows arrive in
  the order the query asks for (`created_at` descending), which the model
  takes as the order of the given sequence.
 */
module ItemsHooks {
  import opened TextUtil
  import opened Records
  import opened MatchItems

  const NotAuthenticated := "Not authenticated"

  // ------------------------------------------------------------ type filter

  /** The `filter` argument of `useItems`: `"all"`, `"lost"` or `"found"`. */
  datatype ItemsQuery = QueryAll | QueryType(kind: ItemType)

  /** `filter && filter !== "all"` */
  predicate FilterApplies(filter: Option<ItemsQuery>) {
    filter.Some? && filter.value.QueryType?
  }

  /** The items of one type, in their original order. */
  function OfKind(items: seq<Item>, t: ItemType): (r: seq<Item>)
    ensures |r| <= |items|
    ensures forall x :: x in r <==> x in items && x.kind == t
  {
    if items == [] then []
    else (if items[0].kind == t then [items[0]] else []) + OfKind(items[1..], t)
  }

  /**
    The type filter keeps order: filtering a concatenation concatenates the
    filtered parts. With `OfKindOne` this pins the filter down.
   */
  lemma {:induction false} OfKindConcat(a: seq<Item>, b: seq<Item>, t: ItemType)
    ensures OfKind(a + b, t) == OfKind(a, t) + OfKind(b, t)
    decreases |a|
  {
    if a != [] {
      var head := if a[0].kind == t then [a[0]] else [];
      ConsOfConcat(a, b);
      assert OfKind(a + b, t) == head + OfKind(a[1..] + b, t);
      OfKindConcat(a[1..], b, t);
      AppendAssoc(head, OfKind(a[1..], t), OfKind(b, t));
    } else {
      assert a + b == b;
    }
  }

  /** One row is kept exactly when it has the type. */
  lemma OfKindOne(x: Item, t: ItemType)
    ensures OfKind([x], t) == if x.kind == t then [x] else []
  {
    assert [x][1..] == [];
  }

  /**
    Under any filter the rows of a concatenation are the rows of the parts, in
    order, and one row is returned exactly when the filter does not apply or
    the row has the filtered type.
   */
  lemma SelectRowsKeepsOrder(a: seq<Item>, b: seq<Item>, x: Item, filter: Option<ItemsQuery>)
    ensures SelectRows(a + b, filter) == SelectRows(a, filter) + SelectRows(b, filter)
    ensures SelectRows([x], filter) == if !FilterApplies(filter) || x.kind == filter.value.kind then [x] else []
  {
    if FilterApplies(filter) {
      OfKindConcat(a, b, filter.value.kind);
      OfKindOne(x, filter.value.kind);
    }
  }

  /** Keeping one type and keeping the other split the items between them. */
  lemma {:induction false} OfKindSplits(items: seq<Item>)
    ensures |OfKind(items, Lost)| + |OfKind(items, Found)| == |items|
  {
    if items != [] {
      OfKindSplits(items[1..]);
    }
  }

  /** The rows the items query returns under a filter. */
  function SelectRows(rows: seq<Item>, filter: Option<ItemsQuery>): (r: seq<Item>)
    ensures !FilterApplies(filter) ==> r == rows
    ensures FilterApplies(filter) ==> forall x :: x in r <==> x in rows && x.kind == filter.value.kind
  {
    if FilterApplies(filter) then OfKind(rows, filter.value.kind) else rows
  }

  // ---------------------------------------------------------------- user ids

  predicate NoDuplicates(s: seq<string>) {
    forall i, j :: 0 <= i < j < |s| ==> s[i] != s[j]
  }

  /** The position of the first occurrence of `x` in `s`. */
  function FirstIndex(s: seq<string>, x: string): (i: nat)
    requires x in s
    ensures i < |s| && s[i] == x && x !in s[..i]
  {
    if s[0] == x then 0
    else
      var j := FirstIndex(s[1..], x);
      assert s[..j + 1] == [s[0]] + s[1..][..j];
      j + 1
  }

  /** Appending a value does not move the first occurrence of one already present. */
  lemma FirstIndexExtend(s: seq<string>, y: string, x: string)
    requires x in s
    ensures FirstIndex(s + [y], x) == FirstIndex(s, x)
  {
    var i := FirstIndex(s + [y], x);
    var k := FirstIndex(s, x);
    assert (s + [y])[..k] == s[..k];
    assert (s + [y])[k] == x;
  }

  /** A new value appended at the end first occurs there. */
  lemma FirstIndexNew(s: seq<string>, y: string)
    requires y !in s
    ensures FirstIndex(s + [y], y) == |s|
  {
    var i := FirstIndex(s + [y], y);
    assert (s + [y])[..|s|] == s;
  }

  /** `[...new Set(s)]`: each value once, in order of first appearance. */
  function Dedupe(s: seq<string>): (r: seq<string>)
    ensures NoDuplicates(r)
    ensures forall x :: x in r <==> x in s
    ensures forall i, j :: 0 <= i < j < |r| ==> FirstIndex(s, r[i]) < FirstIndex(s, r[j])
    decreases |s|
  {
    if s == [] then []
    else
      var q := s[..|s| - 1];
      var y := s[|s| - 1];
      var p := Dedupe(q);
      assert s == q + [y];
      assert forall x :: x in s <==> x in q || x == y;
      DedupeOrderStep(q, y, p);
      if y in p then p else p + [y]
  }

  lemma DedupeOrderStep(q: seq<string>, y: string, p: seq<string>)
    requires forall x :: x in p <==> x in q
    requires forall i, j :: 0 <= i < j < |p| ==> FirstIndex(q, p[i]) < FirstIndex(q, p[j])
    ensures forall i, j :: 0 <= i < j < |p| ==> FirstIndex(q + [y], p[i]) < FirstIndex(q + [y], p[j])
    ensures y !in p ==> forall i :: 0 <= i < |p| ==> FirstIndex(q + [y], p[i]) < FirstIndex(q + [y], y)
  {
    forall i | 0 <= i < |p|
      ensures FirstIndex(q + [y], p[i]) == FirstIndex(q, p[i])
    {
      FirstIndexExtend(q, y, p[i]);
    }
    if y !in p {
      FirstIndexNew(q, y);
    }
  }

  function UserIdsOf(items: seq<Item>): (r: seq<string>)
    ensures |r| == |items| && forall i :: 0 <= i < |items| ==> r[i] == items[i].userId
  {
    seq(|items|, i requires 0 <= i < |items| => items[i].userId)
  }

  /** The `userIds` of `useItems`, built with a set of the ids seen so far. */
  method UniqueUserIds(items: seq<Item>) returns (ids: seq<string>)
    ensures ids == Dedupe(UserIdsOf(items))
    ensures NoDuplicates(ids)
    ensures forall i :: 0 <= i < |items| ==> items[i].userId in ids
    ensures forall u :: u in ids ==> exists i :: 0 <= i < |items| && items[i].userId == u
  {
    ids := [];
    var seen: set<string> := {};
    for n := 0 to |items|
      invariant ids == Dedupe(UserIdsOf(items[..n]))
      invariant forall u :: u in seen <==> u in ids
    {
      assert UserIdsOf(items[..n + 1])[..n] == UserIdsOf(items[..n]);
      var u := items[n].userId;
      if u !in seen {
        ids := ids + [u];
        seen := seen + {u};
      }
    }
    assert items[..|items|] == items;
    assert forall i :: 0 <= i < |items| ==> items[i].userId in UserIdsOf(items);
  }

  // ---------------------------------------------------------------- profiles

  /** A row of `profiles.select("user_id, full_name, email")`. */
  datatype ProfileRow = ProfileRow(userId: string, fullName: string, email: string)

  function ProfileOf(p: ProfileRow): Profile {
    Profile(p.fullName, p.email)
  }

  /** No later row has the same user id as row `i`. */
  predicate LastFor(rows: seq<ProfileRow>, i: int)
    requires 0 <= i < |rows|
  {
    forall j :: i < j < |rows| ==> rows[j].userId != rows[i].userId
  }

  /** `new Map(rows.map(p => [p.user_id, …]))`: a later entry replaces an earlier one. */
  function ProfilesMap(rows: seq<ProfileRow>): (m: map<string, Profile>)
    ensures forall u :: u in m <==> exists i :: 0 <= i < |rows| && rows[i].userId == u
    decreases |rows|
  {
    if rows == [] then map[]
    else
      var n := |rows| - 1;
      var m := ProfilesMap(rows[..n]);
      var r := m[rows[n].userId := ProfileOf(rows[n])];
      forall u | u in r
        ensures exists i :: 0 <= i < |rows| && rows[i].userId == u
      {
        if u != rows[n].userId {
          var i :| 0 <= i < n && rows[..n][i].userId == u;
          assert rows[i].userId == u;
        }
      }
      forall i | 0 <= i < |rows|
        ensures rows[i].userId in r
      {
        if i < n {
          assert rows[..n][i].userId == rows[i].userId;
        }
      }
      r
  }

  /** The entry for a user is the last row with that user id. */
  lemma {:induction false} ProfilesMapLastWins(rows: seq<ProfileRow>, i: int)
    requires 0 <= i < |rows| && LastFor(rows, i)
    ensures rows[i].userId in ProfilesMap(rows)
    ensures ProfilesMap(rows)[rows[i].userId] == ProfileOf(rows[i])
    decreases |rows|
  {
    var n := |rows| - 1;
    if i < n {
      assert rows[n].userId != rows[i].userId;
      assert LastFor(rows[..n], i) by {
        forall j | i < j < n
          ensures rows[..n][j].userId != rows[..n][i].userId
        {
          assert rows[..n][j] == rows[j];
        }
      }
      ProfilesMapLastWins(rows[..n], i);
      assert rows[..n][i] == rows[i];
    }
  }

  /** `.in("user_id", ids)`: the rows of the listed users, in table order. */
  function ProfilesQuery(table: seq<ProfileRow>, ids: seq<string>): (r: seq<ProfileRow>)
    ensures forall p :: p in r <==> p in table && p.userId in ids
    decreases |table|
  {
    if table == [] then []
    else
      var n := |table| - 1;
      assert table == table[..n] + [table[n]];
      ProfilesQuery(table[..n], ids) + (if table[n].userId in ids then [table[n]] else [])
  }

  /** Asking only for the listed users loses no profile of a listed user. */
  lemma {:induction false} ProfilesQueryKeepsListed(table: seq<ProfileRow>, ids: seq<string>, u: string)
    requires u in ids
    ensures u in ProfilesMap(ProfilesQuery(table, ids)) <==> u in ProfilesMap(table)
    ensures u in ProfilesMap(table) ==> ProfilesMap(ProfilesQuery(table, ids))[u] == ProfilesMap(table)[u]
    decreases |table|
  {
    if table != [] {
      var n := |table| - 1;
      ProfilesQueryKeepsListed(table[..n], ids, u);
      var q := ProfilesQuery(table[..n], ids);
      var x := table[n];
      assert ProfilesMap(table) == ProfilesMap(table[..n])[x.userId := ProfileOf(x)];
      if x.userId in ids {
        var q' := q + [x];
        assert ProfilesQuery(table, ids) == q';
        assert ProfilesMap(q') == ProfilesMap(q)[x.userId := ProfileOf(x)] by {
          assert q'[..|q'| - 1] == q && q'[|q'| - 1] == x;
        }
      } else {
        assert ProfilesQuery(table, ids) == q;
        assert x.userId != u;
      }
    }
  }

  /** An item of the feed with the profile `useItems` attaches (`null` when absent). */
  datatype FeedItem = FeedItem(item: Item, profile: Option<Profile>)

  /** `profilesMap.get(item.user_id) || null` for every item, in order. */
  function JoinProfiles(items: seq<Item>, m: map<string, Profile>): (r: seq<FeedItem>)
    ensures |r| == |items|
    ensures forall i :: 0 <= i < |items| ==> r[i].item == items[i]
    ensures forall i :: 0 <= i < |items| ==> (r[i].profile.Some? <==> items[i].userId in m)
    ensures forall i :: 0 <= i < |items| && items[i].userId in m ==> r[i].profile.value == m[items[i].userId]
  {
    seq(|items|, i requires 0 <= i < |items| =>
      FeedItem(items[i], if items[i].userId in m then Some(m[items[i].userId]) else None))
  }

  /**
    The `useItems` query: the filtered rows with their owners' profiles. A
    failed items query is an error; a failed profiles query (`None`) leaves
    every profile absent.
   */
  function LoadItems(rows: Result<seq<Item>>, filter: Option<ItemsQuery>, profiles: Option<seq<ProfileRow>>)
    : (r: Result<seq<FeedItem>>)
    ensures r.Err? <==> rows.Err?
    ensures r.Ok? ==> |r.value| == |SelectRows(rows.value, filter)|
    ensures r.Ok? ==> forall i :: 0 <= i < |r.value| ==> r.value[i].item == SelectRows(rows.value, filter)[i]
    ensures r.Ok? && profiles.None? ==> forall i :: 0 <= i < |r.value| ==> r.value[i].profile.None?
  {
    match rows
    case Err(e) => Err(e)
    case Ok(all) =>
      var items := SelectRows(all, filter);
      var ids := Dedupe(UserIdsOf(items));
      var m := ProfilesMap(ProfilesQuery(if profiles.Some? then profiles.value else [], ids));
      Ok(JoinProfiles(items, m))
  }

  /** Each loaded item carries the last profile row of its owner in the whole table, if any. */
  lemma LoadItemsProfiles(rows: seq<Item>, filter: Option<ItemsQuery>, table: seq<ProfileRow>)
    ensures var r := LoadItems(Ok(rows), filter, Some(table)).value;
      forall i :: 0 <= i < |r| ==>
        r[i].profile == if r[i].item.userId in ProfilesMap(table)
                        then Some(ProfilesMap(table)[r[i].item.userId]) else None
  {
    var items := SelectRows(rows, filter);
    var ids := Dedupe(UserIdsOf(items));
    forall i | 0 <= i < |items|
      ensures items[i].userId in ids
    {
      assert UserIdsOf(items)[i] == items[i].userId;
    }
    forall u | u in ids {
      ProfilesQueryKeepsListed(table, ids, u);
    }
  }

  // -------------------------------------------------------------- posting

  /** The `ItemInput` the page hands to `useCreateItem`. */
  datatype ItemInput = ItemInput(
    kind: ItemType,
    title: string,
    category: string,
    description: string,
    location: string,
    itemDate: string,
    itemTime: Option<string>,
    imageUrl: string)

  /** `item.item_time || null` */
  function NormaliseTime(t: Option<string>): (r: Option<string>)
    ensures r.Some? <==> Truthy(t)
    ensures r.Some? ==> r == t
  {
    if Truthy(t) then t else None
  }

  /** The inserted row: the input, the owner, the id the database assigns, and status `active`. */
  function InsertedRow(input: ItemInput, owner: string, id: string): Item {
    Item(id, owner, input.kind, input.title, input.category, input.description, input.location,
         input.itemDate, NormaliseTime(input.itemTime), input.imageUrl, Active)
  }

  /** The request `useCreateItem` sends to `match-items` for a row. */
  function MatchTrigger(row: Item): Request {
    Request(Some(row.id), Some(TypeName(row.kind)))
  }

  /**
    `useCreateItem`: without a signed-in user, fail before writing; otherwise
    insert the row, invoke matching, and return the inserted row. `matching`
    is `None` when the invocation throws before the matcher runs and
    `Some(oracle)` when it runs; either way the mutation succeeds.
   */
  function CreateItem(s: Store, user: Option<string>, input: ItemInput, newId: string, matching: Option<Oracle>)
    : (r: (Result<Item>, Store))
    ensures r.0.Err? <==> user.None?
    ensures user.None? ==> r == (Err(NotAuthenticated), s)
    ensures r.0.Ok? ==> r.0.value.userId == user.value && r.0.value.id == newId
    ensures r.0.Ok? ==> r.0.value.status == Active && r.0.value.kind == input.kind
    ensures r.0.Ok? ==> r.0.value.itemTime == NormaliseTime(input.itemTime)
    ensures r.0.Ok? ==> r.0.value.title == input.title && r.0.value.category == input.category
    ensures r.0.Ok? ==> r.0.value.description == input.description && r.0.value.location == input.location
    ensures r.0.Ok? ==> r.0.value.itemDate == input.itemDate && r.0.value.imageUrl == input.imageUrl
    ensures r.0.Ok? ==> OnlyFlippedToMatched(s.items + [r.0.value], r.1.items)
  {
    match user
    case None => (Err(NotAuthenticated), s)
    case Some(owner) =>
      var row := InsertedRow(input, owner, newId);
      var s1 := s.(items := s.items + [row]);
      var s2 := if matching.Some? then HandleMatchRequest(s1, MatchTrigger(row), matching.value).0 else s1;
      (Ok(row), s2)
  }

  /** Whether matching ran or failed does not change what the mutation returns. */
  lemma CreateIgnoresMatching(s: Store, user: Option<string>, input: ItemInput, newId: string, a: Option<Oracle>, b: Option<Oracle>)
    ensures CreateItem(s, user, input, newId, a).0 == CreateItem(s, user, input, newId, b).0
  {
  }

  lemma {:induction false} RowsWithIdAppendFresh(items: seq<Item>, row: Item)
    requires forall i :: 0 <= i < |items| ==> items[i].id != row.id
    ensures RowsWithId(items + [row], row.id) == [row]
    decreases |items|
  {
    if items == [] {
      assert [] + [row] == [row];
      assert [row][1..] == [];
    } else {
      assert (items + [row])[1..] == items[1..] + [row];
      RowsWithIdAppendFresh(items[1..], row);
    }
  }

  /**
    A row inserted under a fresh, non-empty id triggers a run that passes
    validation and finds the row: it never ends in a 400 or a 404.
   */
  lemma TriggerIsAccepted(s: Store, owner: string, input: ItemInput, newId: string, oracle: Oracle)
    requires newId != ""
    requires forall i :: 0 <= i < |s.items| ==> s.items[i].id != newId
    ensures var row := InsertedRow(input, owner, newId);
      HandleMatchRequest(s.(items := s.items + [row]), MatchTrigger(row), oracle).1.Matches?
  {
    var row := InsertedRow(input, owner, newId);
    ParseTypeName(input.kind);
    RowsWithIdAppendFresh(s.items, row);
    assert FindSingle(s.items + [row], newId) == Some(row);
  }

  // --------------------------------------------------------------- uploads

  /** `name.split(".").pop()`: the text after the last dot, or the whole name. */
  function FileExtension(name: string): (r: string)
    ensures '.' !in r
    ensures '.' !in name ==> r == name
    ensures forall i :: 0 <= i < |name| && name[i] == '.' && '.' !in name[i + 1..] ==> r == name[i + 1..]
  {
    var parts := Split(name, '.');
    SplitLast(name, '.');
    parts[|parts| - 1]
  }

  /** The storage path `${user.id}/${Date.now()}.${fileExt}`; `now` is the clock reading. */
  function UploadPath(user: Option<string>, fileName: string, now: nat): (r: Result<string>)
    ensures r.Err? <==> user.None?
    ensures r.Err? ==> r.message == NotAuthenticated
  {
    match user
    case None => Err(NotAuthenticated)
    case Some(owner) => Ok(owner + "/" + NatToString(now) + "." + FileExtension(fileName))
  }

  /** The stored file keeps the uploaded file's extension. */
  lemma UploadKeepsExtension(owner: string, fileName: string, now: nat)
    ensures FileExtension(UploadPath(Some(owner), fileName, now).value) == FileExtension(fileName)
  {
    var head := owner + "/" + NatToString(now);
    var ext := FileExtension(fileName);
    var path := head + "." + ext;
    assert UploadPath(Some(owner), fileName, now).value == path;
    var i := |head|;
    assert path[i] == '.' && path[i + 1..] == ext;
    assert '.' !in path[i + 1..];
    SplitLast(path, '.');
    assert Split(path, '.')[|Split(path, '.')| - 1] == ext;
  }

  /** For an owner id without dots, the path starts with the owner's folder and the timestamp. */
  lemma UploadPathHead(owner: string, fileName: string, now: nat)
    requires '.' !in owner
    ensures Split(UploadPath(Some(owner), fileName, now).value, '.')[0] == owner + "/" + NatToString(now)
  {
    var head := owner + "/" + NatToString(now);
    var path := head + "." + FileExtension(fileName);
    assert path[..|head|] == head;
    forall k | 0 <= k < |head|
      ensures head[k] != '.'
    {
      if k > |owner| {
        assert head[k] == NatToString(now)[k - |owner| - 1];
        assert IsDigit(head[k]);
      } else if k < |owner| {
        assert head[k] == owner[k];
      }
    }
    SplitFirst(path, '.');
  }

  lemma PrefixCancel(p: string, x: string, y: string)
    ensures p + x == p + y ==> x == y
  {
    assert (p + x)[|p|..] == x;
    assert (p + y)[|p|..] == y;
  }

  /** Two uploads by one owner at different times never share a path. */
  lemma UploadPathsDiffer(owner: string, a: string, b: string, t: nat, u: nat)
    requires '.' !in owner && t != u
    ensures UploadPath(Some(owner), a, t) != UploadPath(Some(owner), b, u)
  {
    UploadPathHead(owner, a, t);
    UploadPathHead(owner, b, u);
    NatToStringInjective(t, u);
    PrefixCancel(owner + "/", NatToString(t), NatToString(u));
  }
}
