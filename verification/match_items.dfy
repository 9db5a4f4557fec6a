/**
  The `match-items` edge function. Given a newly posted item it picks at most
  twenty open items of the opposite type in the same category, asks a
  similarity oracle about each pair, keeps the answers with confidence 60 or
  more in descending order, and for each answer with confidence 70 or more
  whose (lost, found) pair is not yet recorded it stores a pending match,
  marks both items `matched` and notifies each item's owner.

  The store is a value passed in and returned; the oracle (a language-model
  call whose reply is parsed for `confidence` and `reasoning`) is a function
  from the prompt's contents to an optional outcome, `None` standing for a
  failed call or an unparseable reply.
 */
module MatchItems {
  import opened TextUtil
  import opened Records
  import opened MatchSort

  const MaxCandidates: nat := 20
  const AcceptThreshold: int := 60
  const PersistThreshold: int := 70

  const MissingFieldsError := "Missing itemId or itemType"
  const NotFoundError := "Item not found"
  const NoItemsMessage := "No items to compare"
  const NoStrongMatchesMessage := "No strong matches found"
  const NotificationTitle := "Potential Match Found!"

  /** The JSON request body `{ itemId, itemType }`; an absent field is `None`. */
  datatype Request = Request(itemId: Option<string>, itemType: Option<string>)

  /** The three response shapes: 400, 404 and 200 with the accepted matches. */
  datatype Response =
    | BadRequest(error: string)
    | NotFound(error: string)
    | Matches(matches: seq<MatchResult>, message: string)

  /** A parsed oracle reply. */
  datatype Outcome = Outcome(confidence: int, reasoning: string)

  /** The fields of an item that the prompt shows the oracle. */
  datatype ItemFacts = ItemFacts(
    title: string,
    category: string,
    description: string,
    location: string,
    date: string,
    imageUrl: string)

  /** What one oracle call is asked: the new item's side and both items' facts. */
  datatype Prompt = Prompt(newSide: ItemType, newItem: ItemFacts, candidate: ItemFacts)

  type Oracle = Prompt -> Option<Outcome>

  /**
    Request validation: the id must be a non-empty string and the type must be
    `"lost"` or `"found"`. The deployed handler only tests that the type is
    non-empty (see `Findings.ResultIdsAsWritten`).
   */
  function Validate(req: Request): (r: Option<(string, ItemType)>)
    ensures r.Some? <==> Truthy(req.itemId) && req.itemType.Some? && req.itemType.value in {"lost", "found"}
    ensures r.Some? ==> r.value.0 == req.itemId.value && TypeName(r.value.1) == req.itemType.value
  {
    if !Truthy(req.itemId) || req.itemType.None? then None
    else
      match ParseItemType(req.itemType.value)
      case None => None
      case Some(t) => Some((req.itemId.value, t))
  }

  // ---------------------------------------------------------------- lookup

  /** `.from("items").eq("id", id)` */
  function RowsWithId(items: seq<Item>, id: string): (r: seq<Item>)
    ensures |r| <= |items|
    ensures forall x :: x in r <==> x in items && x.id == id
  {
    if items == [] then []
    else (if items[0].id == id then [items[0]] else []) + RowsWithId(items[1..], id)
  }

  /** `.single()`: the row when exactly one row has the id, otherwise an error. */
  function FindSingle(items: seq<Item>, id: string): (r: Option<Item>)
    ensures r.Some? ==> r.value in items && r.value.id == id
  {
    var rows := RowsWithId(items, id);
    if |rows| == 1 then Some(rows[0]) else None
  }

  lemma {:induction false} RowsWithIdUnique(items: seq<Item>, id: string)
    requires UniqueIds(items)
    ensures |RowsWithId(items, id)| <= 1
    ensures |RowsWithId(items, id)| == 1 <==> exists i :: 0 <= i < |items| && items[i].id == id
  {
    if items != [] {
      assert UniqueIds(items[1..]);
      RowsWithIdUnique(items[1..], id);
      if items[0].id == id {
        assert forall x :: x in items[1..] ==> x.id != id;
        assert RowsWithId(items[1..], id) == [];
      } else {
        if exists i :: 0 <= i < |items| && items[i].id == id {
          var i :| 0 <= i < |items| && items[i].id == id;
          assert items[1..][i - 1].id == id;
        }
      }
    }
  }

  /** With unique ids, the lookup succeeds exactly when some item has the id. */
  lemma FindSingleUnique(items: seq<Item>, id: string)
    requires UniqueIds(items)
    ensures FindSingle(items, id).Some? <==> exists i :: 0 <= i < |items| && items[i].id == id
  {
    RowsWithIdUnique(items, id);
  }

  lemma {:induction false} RowsWithIdFlipped(a: seq<Item>, b: seq<Item>, id: string)
    requires OnlyFlippedToMatched(a, b)
    ensures OnlyFlippedToMatched(RowsWithId(a, id), RowsWithId(b, id))
  {
    if a != [] {
      assert OnlyFlippedToMatched(a[1..], b[1..]);
      RowsWithIdFlipped(a[1..], b[1..], id);
    }
  }

  /** Status flips do not change which item a lookup finds. */
  lemma FindSingleFlipped(a: seq<Item>, b: seq<Item>, id: string)
    requires OnlyFlippedToMatched(a, b)
    ensures FindSingle(a, id).Some? <==> FindSingle(b, id).Some?
    ensures FindSingle(a, id).Some? ==>
              FindSingle(b, id).value == FindSingle(a, id).value ||
              FindSingle(b, id).value == FindSingle(a, id).value.(status := Matched)
  {
    RowsWithIdFlipped(a, b, id);
  }

  // ------------------------------------------------------------- selection

  /** `.eq("type", kind).eq("status", "active").eq("category", category)` */
  predicate IsCandidate(it: Item, kind: ItemType, category: string) {
    it.kind == kind && it.status == Active && it.category == category
  }

  function EligibleItems(items: seq<Item>, kind: ItemType, category: string): (r: seq<Item>)
    ensures |r| <= |items|
    ensures forall x :: x in r <==> x in items && IsCandidate(x, kind, category)
  {
    if items == [] then []
    else (if IsCandidate(items[0], kind, category) then [items[0]] else [])
         + EligibleItems(items[1..], kind, category)
  }

  /** The same query with `.limit(20)`: the first twenty eligible items in store order. */
  function SelectCandidates(items: seq<Item>, kind: ItemType, category: string): (r: seq<Item>)
    ensures |r| <= MaxCandidates
    ensures r <= EligibleItems(items, kind, category)
    ensures forall x :: x in r ==> x in items && IsCandidate(x, kind, category)
    ensures |EligibleItems(items, kind, category)| <= MaxCandidates ==>
              forall x :: x in items && IsCandidate(x, kind, category) ==> x in r
  {
    var e := EligibleItems(items, kind, category);
    if |e| <= MaxCandidates then e
    else
      assert forall x :: x in e[..MaxCandidates] ==> x in e;
      e[..MaxCandidates]
  }

  // ------------------------------------------------------------ evaluation

  function FactsOf(it: Item): ItemFacts {
    ItemFacts(it.title, it.category, it.description, it.location, it.itemDate, it.imageUrl)
  }

  function PromptFor(side: ItemType, newItem: Item, candidate: Item): Prompt {
    Prompt(side, FactsOf(newItem), FactsOf(candidate))
  }

  /** `Promise.all` over the candidates: one outcome per candidate, in candidate order. */
  function Consult(oracle: Oracle, side: ItemType, newItem: Item, cands: seq<Item>): (r: seq<Option<Outcome>>)
    ensures |r| == |cands|
    ensures forall i :: 0 <= i < |cands| ==> r[i] == oracle(PromptFor(side, newItem, cands[i]))
  {
    seq(|cands|, i requires 0 <= i < |cands| => oracle(PromptFor(side, newItem, cands[i])))
  }

  /**
    The `MatchResult` built from one outcome: the new item fills the side named
    by the request and the candidate fills the other.
   */
  function ResultFor(side: ItemType, newId: string, candId: string, o: Outcome): (m: MatchResult)
    ensures side == Lost ==> m.lostItemId == newId && m.foundItemId == candId
    ensures side == Found ==> m.lostItemId == candId && m.foundItemId == newId
    ensures m.confidence == o.confidence && m.reasoning == o.reasoning
  {
    MatchResult(
      if side == Lost then newId else candId,
      if side == Found then newId else candId,
      o.confidence,
      o.reasoning)
  }

  /** An outcome survives the `r !== null && r.confidence >= 60` filter. */
  predicate Accepted(o: Option<Outcome>) {
    o.Some? && o.value.confidence >= AcceptThreshold
  }

  /** The accepted results in candidate order. */
  function Accept(side: ItemType, newId: string, cands: seq<Item>, outcomes: seq<Option<Outcome>>): (r: seq<MatchResult>)
    requires |outcomes| == |cands|
    ensures |r| <= |cands|
    ensures forall m :: m in r ==> m.confidence >= AcceptThreshold
    decreases |cands|
  {
    if cands == [] then []
    else
      (if Accepted(outcomes[0]) then [ResultFor(side, newId, cands[0].id, outcomes[0].value)] else [])
      + Accept(side, newId, cands[1..], outcomes[1..])
  }

  /** A result is accepted exactly when it comes from an outcome of confidence 60 or more. */
  lemma {:induction false} AcceptMembers(side: ItemType, newId: string, cands: seq<Item>, outcomes: seq<Option<Outcome>>)
    requires |outcomes| == |cands|
    ensures forall i :: 0 <= i < |cands| && Accepted(outcomes[i]) ==>
              ResultFor(side, newId, cands[i].id, outcomes[i].value) in Accept(side, newId, cands, outcomes)
    ensures forall m :: m in Accept(side, newId, cands, outcomes) ==>
              exists i :: 0 <= i < |cands| && Accepted(outcomes[i]) &&
                          m == ResultFor(side, newId, cands[i].id, outcomes[i].value)
    decreases |cands|
  {
    if cands != [] {
      var tc := cands[1..];
      var to := outcomes[1..];
      AcceptMembers(side, newId, tc, to);
      var r := Accept(side, newId, cands, outcomes);
      var rest := Accept(side, newId, tc, to);
      var head := if Accepted(outcomes[0]) then [ResultFor(side, newId, cands[0].id, outcomes[0].value)] else [];
      assert r == head + rest;
      forall i | 0 <= i < |cands| && Accepted(outcomes[i])
        ensures ResultFor(side, newId, cands[i].id, outcomes[i].value) in r
      {
        if i > 0 {
          assert tc[i - 1] == cands[i] && to[i - 1] == outcomes[i];
        }
      }
      forall m | m in r
        ensures exists i :: 0 <= i < |cands| && Accepted(outcomes[i]) &&
                            m == ResultFor(side, newId, cands[i].id, outcomes[i].value)
      {
        if m !in head {
          var j :| 0 <= j < |tc| && Accepted(to[j]) && m == ResultFor(side, newId, tc[j].id, to[j].value);
          assert cands[j + 1] == tc[j] && outcomes[j + 1] == to[j];
        }
      }
    }
  }

  /**
    The evaluator: the accepted results, stably sorted by descending confidence.
    The outcomes are one per candidate, in candidate order.
   */
  function Evaluate(side: ItemType, newId: string, cands: seq<Item>, outcomes: seq<Option<Outcome>>): (valid: seq<MatchResult>)
    requires |outcomes| == |cands|
    ensures NonIncreasing(valid)
    ensures multiset(valid) == multiset(Accept(side, newId, cands, outcomes))
    ensures forall c :: WithConfidence(valid, c) == WithConfidence(Accept(side, newId, cands, outcomes), c)
  {
    SortByConfidence(Accept(side, newId, cands, outcomes))
  }

  /**
    Threshold property of the evaluator: a candidate's result is returned iff its
    outcome parsed with confidence 60 or more; failed outcomes are dropped one by one.
   */
  lemma EvaluateMembers(side: ItemType, newId: string, cands: seq<Item>, outcomes: seq<Option<Outcome>>)
    requires |outcomes| == |cands|
    ensures forall i :: 0 <= i < |cands| && Accepted(outcomes[i]) ==>
              ResultFor(side, newId, cands[i].id, outcomes[i].value) in Evaluate(side, newId, cands, outcomes)
    ensures forall m :: m in Evaluate(side, newId, cands, outcomes) ==>
              exists i :: 0 <= i < |cands| && Accepted(outcomes[i]) &&
                          m == ResultFor(side, newId, cands[i].id, outcomes[i].value)
  {
    AcceptMembers(side, newId, cands, outcomes);
    var a := Accept(side, newId, cands, outcomes);
    var v := Evaluate(side, newId, cands, outcomes);
    assert forall m :: m in a <==> m in multiset(a);
    assert forall m :: m in v <==> m in multiset(v);
  }

  // ----------------------------------------------------------- persistence

  predicate HasPair(ms: seq<MatchRecord>, lost: string, found: string) {
    exists k :: 0 <= k < |ms| && ms[k].lostItemId == lost && ms[k].foundItemId == found
  }

  /** At most one match record per ordered (lost, found) pair. */
  predicate NoDuplicatePairs(ms: seq<MatchRecord>) {
    forall j, k :: 0 <= j < k < |ms| ==>
      !(ms[j].lostItemId == ms[k].lostItemId && ms[j].foundItemId == ms[k].foundItemId)
  }

  /** A fresh match id: one more than every id in use. */
  function NextMatchId(ms: seq<MatchRecord>): (id: nat)
    ensures forall k :: 0 <= k < |ms| ==> ms[k].id < id
  {
    if ms == [] then 0
    else
      var rest := NextMatchId(ms[1..]);
      assert forall k :: 1 <= k < |ms| ==> ms[k] == ms[1..][k - 1];
      if ms[0].id + 1 > rest then ms[0].id + 1 else rest
  }

  function IntToString(n: int): string {
    if n < 0 then "-" + NatToString(-n) else NatToString(n)
  }

  /** The notification text, naming the item's title and the confidence. */
  function NotificationMessage(title: string, confidence: int): (msg: string)
    ensures IsInfix(title, msg)
    ensures IsInfix(IntToString(confidence), msg)
  {
    var pre := "Your item \"";
    var mid := "\" has a potential match with ";
    var post := "% confidence.";
    var msg := pre + title + mid + IntToString(confidence) + post;
    assert msg == pre + title + (mid + IntToString(confidence) + post);
    InfixOfConcat(pre, title, mid + IntToString(confidence) + post);
    assert msg == (pre + title + mid) + IntToString(confidence) + post;
    InfixOfConcat(pre + title + mid, IntToString(confidence), post);
    msg
  }

  predicate Involves(it: Item, lost: string, found: string) {
    it.id == lost || it.id == found
  }

  /** `.update({ status: "matched" }).in("id", [lost, found])` */
  function MarkMatched(items: seq<Item>, lost: string, found: string): (r: seq<Item>)
    ensures OnlyFlippedToMatched(items, r)
    ensures forall i :: 0 <= i < |items| && Involves(items[i], lost, found) ==> r[i].status == Matched
    ensures forall i :: 0 <= i < |items| && !Involves(items[i], lost, found) ==> r[i] == items[i]
  {
    seq(|items|, i requires 0 <= i < |items| =>
      if Involves(items[i], lost, found) then items[i].(status := Matched) else items[i])
  }

  function NoteFor(it: Item, confidence: int): Notification {
    Notification(it.userId, NotificationTitle, NotificationMessage(it.title, confidence), false)
  }

  /** One notification per stored row of the two items, in the order the rows are read. */
  function NotifyFor(items: seq<Item>, lost: string, found: string, confidence: int): (r: seq<Notification>)
    ensures |r| <= |items|
    ensures forall n :: n in r ==> n.title == NotificationTitle && !n.isRead
    ensures forall i :: 0 <= i < |items| && Involves(items[i], lost, found) ==> NoteFor(items[i], confidence) in r
    ensures forall n :: n in r ==> exists i :: 0 <= i < |items| && Involves(items[i], lost, found) && n == NoteFor(items[i], confidence)
  {
    if items == [] then []
    else
      var rest := NotifyFor(items[1..], lost, found, confidence);
      assert forall i :: 1 <= i < |items| ==> items[i] == items[1..][i - 1];
      (if Involves(items[0], lost, found) then [NoteFor(items[0], confidence)] else []) + rest
  }

  /**
    Notifying keeps row order and counts: the notes for a concatenation are the
    notes for the parts. With `NotifyForOne` this gives exactly one note per
    involved row.
   */
  lemma {:induction false} NotifyForConcat(a: seq<Item>, b: seq<Item>, lost: string, found: string, confidence: int)
    ensures NotifyFor(a + b, lost, found, confidence) ==
              NotifyFor(a, lost, found, confidence) + NotifyFor(b, lost, found, confidence)
    decreases |a|
  {
    if a != [] {
      var head := if Involves(a[0], lost, found) then [NoteFor(a[0], confidence)] else [];
      ConsOfConcat(a, b);
      assert NotifyFor(a + b, lost, found, confidence) == head + NotifyFor(a[1..] + b, lost, found, confidence);
      NotifyForConcat(a[1..], b, lost, found, confidence);
      AppendAssoc(head, NotifyFor(a[1..], lost, found, confidence), NotifyFor(b, lost, found, confidence));
    } else {
      assert a + b == b;
    }
  }

  /** One row gets one note when it has one of the two ids, and none otherwise. */
  lemma NotifyForOne(it: Item, lost: string, found: string, confidence: int)
    ensures NotifyFor([it], lost, found, confidence) ==
              if Involves(it, lost, found) then [NoteFor(it, confidence)] else []
  {
    assert [it][1..] == [];
  }

  function NewRecord(ms: seq<MatchRecord>, m: MatchResult): MatchRecord {
    MatchRecord(NextMatchId(ms), m.lostItemId, m.foundItemId, m.confidence, Pending)
  }

  /** `.from("matches").eq("lost_item_id", lost).eq("found_item_id", found)` */
  function RecordsWithPair(ms: seq<MatchRecord>, lost: string, found: string): (r: seq<MatchRecord>)
    ensures |r| <= |ms|
    ensures forall x :: x in r <==> x in ms && x.lostItemId == lost && x.foundItemId == found
  {
    if ms == [] then []
    else
      (if ms[0].lostItemId == lost && ms[0].foundItemId == found then [ms[0]] else []) +
      RecordsWithPair(ms[1..], lost, found)
  }

  /** `.single()` on that query yields a row only when exactly one record has the pair. */
  predicate SingleRecord(ms: seq<MatchRecord>, lost: string, found: string) {
    |RecordsWithPair(ms, lost, found)| == 1
  }

  lemma SingleRecordHasPair(ms: seq<MatchRecord>, lost: string, found: string)
    ensures SingleRecord(ms, lost, found) ==> HasPair(ms, lost, found)
  {
    if SingleRecord(ms, lost, found) {
      var x := RecordsWithPair(ms, lost, found)[0];
      assert x in RecordsWithPair(ms, lost, found);
      var k :| 0 <= k < |ms| && ms[k] == x;
    }
  }

  /** The query returns some record exactly when the pair is stored. */
  lemma RecordsWithPairEmpty(ms: seq<MatchRecord>, lost: string, found: string)
    ensures RecordsWithPair(ms, lost, found) == [] <==> !HasPair(ms, lost, found)
  {
    if RecordsWithPair(ms, lost, found) != [] {
      var x := RecordsWithPair(ms, lost, found)[0];
      assert x in RecordsWithPair(ms, lost, found);
      var k :| 0 <= k < |ms| && ms[k] == x;
    }
    if HasPair(ms, lost, found) {
      var k :| 0 <= k < |ms| && ms[k].lostItemId == lost && ms[k].foundItemId == found;
      assert ms[k] in RecordsWithPair(ms, lost, found);
    }
  }

  /** Without duplicate pairs, `.single()` finds a record exactly when the pair is stored. */
  lemma {:induction false} NoDuplicatesSingleRecord(ms: seq<MatchRecord>, lost: string, found: string)
    ensures NoDuplicatePairs(ms) ==> (SingleRecord(ms, lost, found) <==> HasPair(ms, lost, found))
  {
    if ms != [] && NoDuplicatePairs(ms) {
      var rest := ms[1..];
      assert NoDuplicatePairs(rest) by {
        forall j, k | 0 <= j < k < |rest|
          ensures !(rest[j].lostItemId == rest[k].lostItemId && rest[j].foundItemId == rest[k].foundItemId)
        {
          assert rest[j] == ms[j + 1] && rest[k] == ms[k + 1];
        }
      }
      NoDuplicatesSingleRecord(rest, lost, found);
      if ms[0].lostItemId == lost && ms[0].foundItemId == found {
        assert !HasPair(rest, lost, found);
        RecordsWithPairEmpty(rest, lost, found);
        assert HasPair(ms, lost, found) by {
          assert ms[0].lostItemId == lost && ms[0].foundItemId == found;
        }
      } else {
        assert HasPair(ms, lost, found) <==> HasPair(rest, lost, found) by {
          if HasPair(ms, lost, found) {
            var k :| 0 <= k < |ms| && ms[k].lostItemId == lost && ms[k].foundItemId == found;
            assert rest[k - 1] == ms[k];
          }
          if HasPair(rest, lost, found) {
            var k :| 0 <= k < |rest| && rest[k].lostItemId == lost && rest[k].foundItemId == found;
            assert ms[k + 1] == rest[k];
          }
        }
      }
    }
  }

  /**
    The guard of the persist loop: confident enough and `.single()` finds no
    record of the pair, which is the case both when there is none and when
    there are several.
   */
  predicate Inserts(s: Store, m: MatchResult) {
    m.confidence >= PersistThreshold && !SingleRecord(s.matches, m.lostItemId, m.foundItemId)
  }

  /** One iteration of the persist loop. */
  function PersistOne(s: Store, m: MatchResult): (r: Store)
    ensures OnlyFlippedToMatched(s.items, r.items)
    ensures s.matches <= r.matches && s.notifications <= r.notifications
    ensures |r.matches| == |s.matches| + (if Inserts(s, m) then 1 else 0)
    ensures HasPair(r.matches, m.lostItemId, m.foundItemId) <==>
              HasPair(s.matches, m.lostItemId, m.foundItemId) || m.confidence >= PersistThreshold
    ensures NoDuplicatePairs(s.matches) ==> NoDuplicatePairs(r.matches)
    ensures NoDuplicatePairs(s.matches) ==>
              (Inserts(s, m) <==> m.confidence >= PersistThreshold && !HasPair(s.matches, m.lostItemId, m.foundItemId))
  {
    SingleRecordHasPair(s.matches, m.lostItemId, m.foundItemId);
    NoDuplicatesSingleRecord(s.matches, m.lostItemId, m.foundItemId);
    if !Inserts(s, m) then s
    else
      var items := MarkMatched(s.items, m.lostItemId, m.foundItemId);
      var rec := NewRecord(s.matches, m);
      assert (s.matches + [rec])[|s.matches|] == rec;
      Store(items, s.matches + [rec],
            s.notifications + NotifyFor(items, m.lostItemId, m.foundItemId, m.confidence))
  }

  /** The persist loop over the sorted accepted results. */
  function PersistAll(s: Store, ms: seq<MatchResult>): (r: Store)
    ensures OnlyFlippedToMatched(s.items, r.items)
    ensures s.matches <= r.matches && s.notifications <= r.notifications
    ensures NoDuplicatePairs(s.matches) ==> NoDuplicatePairs(r.matches)
    decreases |ms|
  {
    if ms == [] then s
    else
      var s1 := PersistOne(s, ms[0]);
      var r := PersistAll(s1, ms[1..]);
      OnlyFlippedTransitive(s.items, s1.items, r.items);
      r
  }

  // --------------------------------------------------------------- handler

  function SummaryMessage(n: nat): (msg: string)
    ensures n > 0 ==> msg == "Found " + NatToString(n) + " potential matches"
    ensures n == 0 ==> msg == NoStrongMatchesMessage
  {
    if n > 0 then "Found " + NatToString(n) + " potential matches" else NoStrongMatchesMessage
  }

  /** Everything after the new item has been loaded. */
  function MatchNewItem(s: Store, side: ItemType, newItem: Item, oracle: Oracle): (r: (Store, Response))
    ensures r.1.Matches?
    ensures NonIncreasing(r.1.matches)
    ensures forall m :: m in r.1.matches ==> m.confidence >= AcceptThreshold
    ensures OnlyFlippedToMatched(s.items, r.0.items)
    ensures s.matches <= r.0.matches && s.notifications <= r.0.notifications
    ensures NoDuplicatePairs(s.matches) ==> NoDuplicatePairs(r.0.matches)
    ensures SelectCandidates(s.items, Opposite(side), newItem.category) == [] ==> r == (s, Matches([], NoItemsMessage))
    ensures SelectCandidates(s.items, Opposite(side), newItem.category) != [] ==>
              r.1.message == SummaryMessage(|r.1.matches|)
  {
    var cands := SelectCandidates(s.items, Opposite(side), newItem.category);
    if cands == [] then (s, Matches([], NoItemsMessage))
    else
      var outcomes := Consult(oracle, side, newItem, cands);
      var valid := Evaluate(side, newItem.id, cands, outcomes);
      assert forall m :: m in valid ==> m in multiset(valid);
      (PersistAll(s, valid), Matches(valid, SummaryMessage(|valid|)))
  }

  /** The request handler, minus HTTP plumbing. */
  function HandleMatchRequest(s: Store, req: Request, oracle: Oracle): (r: (Store, Response))
    ensures r.1.BadRequest? <==> Validate(req).None?
    ensures r.1.BadRequest? ==> r.1.error == MissingFieldsError
    ensures r.1.NotFound? <==> Validate(req).Some? && FindSingle(s.items, Validate(req).value.0).None?
    ensures r.1.NotFound? ==> r.1.error == NotFoundError
    ensures !r.1.Matches? ==> r.0 == s
    ensures r.1.Matches? ==> NonIncreasing(r.1.matches)
    ensures r.1.Matches? ==> forall m :: m in r.1.matches ==> m.confidence >= AcceptThreshold
    ensures OnlyFlippedToMatched(s.items, r.0.items)
    ensures s.matches <= r.0.matches && s.notifications <= r.0.notifications
    ensures NoDuplicatePairs(s.matches) ==> NoDuplicatePairs(r.0.matches)
  {
    match Validate(req)
    case None => (s, BadRequest(MissingFieldsError))
    case Some((id, side)) =>
      match FindSingle(s.items, id)
      case None => (s, NotFound(NotFoundError))
      case Some(newItem) => MatchNewItem(s, side, newItem, oracle)
  }
}
