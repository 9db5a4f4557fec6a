/**
  The data the lost-and-found system keeps: item reports, match records and
  notifications, plus the abstract store that holds the three tables.
 */
module Records {

  datatype Option<T> = None | Some(value: T)

  /** JavaScript truthiness of an optional string: present and non-empty. */
  predicate Truthy(s: Option<string>) {
    s.Some? && s.value != ""
  }

  /** A value or an error message, as a thrown `Error` carries one. */
  datatype Result<T> = Ok(value: T) | Err(message: string)

  /** The `type` column of an item: every report is either lost or found. */
  datatype ItemType = Lost | Found

  function Opposite(t: ItemType): (r: ItemType)
    ensures r != t
  {
    match t
    case Lost => Found
    case Found => Lost
  }

  /** The spelling of an item type in the database and in requests. */
  function TypeName(t: ItemType): string {
    match t
    case Lost => "lost"
    case Found => "found"
  }

  /** Reads an item type back from its spelling; other strings have none. */
  function ParseItemType(s: string): (r: Option<ItemType>)
    ensures r.Some? ==> TypeName(r.value) == s
  {
    if s == "lost" then Some(Lost)
    else if s == "found" then Some(Found)
    else None
  }

  lemma ParseTypeName(t: ItemType)
    ensures ParseItemType(TypeName(t)) == Some(t)
  {
  }

  /** The `status` column of an item: `active`, `matched` or `resolved`. */
  datatype ItemStatus = Active | Matched | Resolved

  /** A row of the `items` table (`created_at`/`updated_at` are not modelled). */
  datatype Item = Item(
    id: string,
    userId: string,
    kind: ItemType,
    title: string,
    category: string,
    description: string,
    location: string,
    itemDate: string,
    itemTime: Option<string>,
    imageUrl: string,
    status: ItemStatus)

  /** The `full_name` and `email` of a row of the `profiles` table. */
  datatype Profile = Profile(fullName: string, email: string)

  datatype MatchStatus = Pending | Confirmed | Rejected

  /** A row of the `matches` table. */
  datatype MatchRecord = MatchRecord(
    id: nat,
    lostItemId: string,
    foundItemId: string,
    confidence: int,
    status: MatchStatus)

  /** A row of the `notifications` table. */
  datatype Notification = Notification(
    userId: string,
    title: string,
    message: string,
    isRead: bool)

  /** A proposed pairing produced by the matcher (`MatchResult`). */
  datatype MatchResult = MatchResult(
    lostItemId: string,
    foundItemId: string,
    confidence: int,
    reasoning: string)

  /** The three tables the matcher reads and writes. */
  datatype Store = Store(
    items: seq<Item>,
    matches: seq<MatchRecord>,
    notifications: seq<Notification>)

  /** Item ids are a primary key. */
  predicate UniqueIds(items: seq<Item>) {
    forall i, j :: 0 <= i < j < |items| ==> items[i].id != items[j].id
  }

  /** `after` differs from `before` at most by statuses set to `matched`. */
  predicate OnlyFlippedToMatched(before: seq<Item>, after: seq<Item>) {
    && |before| == |after|
    && forall i :: 0 <= i < |before| ==>
         after[i] == before[i] || after[i] == before[i].(status := Matched)
  }

  lemma OnlyFlippedTransitive(a: seq<Item>, b: seq<Item>, c: seq<Item>)
    requires OnlyFlippedToMatched(a, b) && OnlyFlippedToMatched(b, c)
    ensures OnlyFlippedToMatched(a, c)
  {
  }

  /** An item that is not `matched` after a flip was there, unchanged, before. */
  lemma UnflippedWasPresent(before: seq<Item>, after: seq<Item>, x: Item)
    requires OnlyFlippedToMatched(before, after)
    requires x in after && x.status != Matched
    ensures x in before
  {
    var i :| 0 <= i < |after| && after[i] == x;
    assert before[i] == x;
  }
}
