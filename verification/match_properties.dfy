/**
  Properties of the `match-items` pipeline that relate several steps or
  several runs: what the persist loop writes, type correctness of stored
  matches, and idempotence of re-running on the resulting store.
 */
module MatchProperties {
  import opened TextUtil
  import opened Records
  import opened MatchSort
  import opened MatchItems

  lemma HasPairPrefix(a: seq<MatchRecord>, b: seq<MatchRecord>, lost: string, found: string)
    requires a <= b && HasPair(a, lost, found)
    ensures HasPair(b, lost, found)
  {
    var k :| 0 <= k < |a| && a[k].lostItemId == lost && a[k].foundItemId == found;
    assert b[k] == a[k];
  }

  /** A stored record comes from an accepted result of confidence 70 or more. */
  predicate RecordFrom(ms: seq<MatchResult>, rec: MatchRecord) {
    && rec.status == Pending
    && rec.confidence >= PersistThreshold
    && exists m :: m in ms && m.lostItemId == rec.lostItemId && m.foundItemId == rec.foundItemId
                 && m.confidence == rec.confidence
  }

  /** One iteration appends the pending copy of the result exactly when it inserts, and no other record. */
  lemma PersistOneMatches(s: Store, m: MatchResult)
    ensures PersistOne(s, m).matches == if Inserts(s, m) then s.matches + [NewRecord(s.matches, m)] else s.matches
  {
  }

  /**
    The persist loop records every result of confidence 70 or more, and every
    record it adds is a pending copy of such a result.
   */
  lemma {:induction false} PersistAllRecords(s: Store, ms: seq<MatchResult>)
    ensures forall m :: m in ms && m.confidence >= PersistThreshold ==>
              HasPair(PersistAll(s, ms).matches, m.lostItemId, m.foundItemId)
    ensures forall k :: |s.matches| <= k < |PersistAll(s, ms).matches| ==> RecordFrom(ms, PersistAll(s, ms).matches[k])
    decreases |ms|
  {
    if ms != [] {
      var s1 := PersistOne(s, ms[0]);
      var rest := ms[1..];
      var r := PersistAll(s1, rest);
      assert PersistAll(s, ms) == r;
      PersistAllRecords(s1, rest);
      forall m | m in ms && m.confidence >= PersistThreshold
        ensures HasPair(r.matches, m.lostItemId, m.foundItemId)
      {
        if m == ms[0] {
          HasPairPrefix(s1.matches, r.matches, m.lostItemId, m.foundItemId);
        } else {
          assert m in rest;
        }
      }
      forall k | |s.matches| <= k < |r.matches|
        ensures RecordFrom(ms, r.matches[k])
      {
        var rec := r.matches[k];
        if k < |s1.matches| {
          assert Inserts(s, ms[0]);
          assert rec == s1.matches[k] == NewRecord(s.matches, ms[0]);
        } else {
          assert RecordFrom(rest, rec);
          var m :| m in rest && m.lostItemId == rec.lostItemId && m.foundItemId == rec.foundItemId
                   && m.confidence == rec.confidence;
          assert m in ms;
        }
      }
    }
  }

  /**
    On a store without duplicate pairs, every record the persist loop adds is
    for a pair that was not stored before. A pair stored twice is not covered:
    `.single()` finds no record of it, so it is inserted again.
   */
  lemma PersistAllFresh(s: Store, ms: seq<MatchResult>)
    requires NoDuplicatePairs(s.matches)
    ensures forall k :: |s.matches| <= k < |PersistAll(s, ms).matches| ==>
              !HasPair(s.matches, PersistAll(s, ms).matches[k].lostItemId, PersistAll(s, ms).matches[k].foundItemId)
  {
    // The loop keeps the records free of duplicates and only appends, so an
    // added record cannot share its pair with one that was already there.
  }

  /**
    The persist loop changes an item only by setting it `matched`, only when a
    new record involves it, and every item a new record involves ends `matched`.
   */
  lemma PersistAllStatuses(s: Store, ms: seq<MatchResult>)
    ensures forall i :: 0 <= i < |s.items| && PersistAll(s, ms).items[i] != s.items[i] ==>
              exists k :: |s.matches| <= k < |PersistAll(s, ms).matches| &&
                          Involves(s.items[i], PersistAll(s, ms).matches[k].lostItemId, PersistAll(s, ms).matches[k].foundItemId)
    ensures forall i, k ::
              (0 <= i < |s.items| && |s.matches| <= k < |PersistAll(s, ms).matches| &&
               Involves(s.items[i], PersistAll(s, ms).matches[k].lostItemId, PersistAll(s, ms).matches[k].foundItemId)) ==>
              PersistAll(s, ms).items[i].status == Matched
  {
    PersistAllChangesInvolved(s, ms);
    PersistAllMarksInvolved(s, ms);
  }

  /** One iteration changes an item only when it inserts a record involving that item, and then marks it. */
  lemma PersistOneStatuses(s: Store, m: MatchResult)
    ensures Inserts(s, m) ==> PersistOne(s, m).matches[|s.matches|] == NewRecord(s.matches, m)
    ensures forall i :: 0 <= i < |s.items| && PersistOne(s, m).items[i] != s.items[i] ==>
              Inserts(s, m) && Involves(s.items[i], m.lostItemId, m.foundItemId)
    ensures Inserts(s, m) ==> forall i :: 0 <= i < |s.items| && Involves(s.items[i], m.lostItemId, m.foundItemId) ==>
              PersistOne(s, m).items[i].status == Matched
  {
  }

  lemma {:induction false} PersistAllChangesInvolved(s: Store, ms: seq<MatchResult>)
    ensures forall i :: 0 <= i < |s.items| && PersistAll(s, ms).items[i] != s.items[i] ==>
              exists k :: |s.matches| <= k < |PersistAll(s, ms).matches| &&
                          Involves(s.items[i], PersistAll(s, ms).matches[k].lostItemId, PersistAll(s, ms).matches[k].foundItemId)
    decreases |ms|
  {
    if ms != [] {
      var s1 := PersistOne(s, ms[0]);
      var r := PersistAll(s1, ms[1..]);
      assert PersistAll(s, ms) == r;
      PersistAllChangesInvolved(s1, ms[1..]);
      PersistOneStatuses(s, ms[0]);
      forall i | 0 <= i < |s.items| && r.items[i] != s.items[i]
        ensures exists k :: |s.matches| <= k < |r.matches| &&
                            Involves(s.items[i], r.matches[k].lostItemId, r.matches[k].foundItemId)
      {
        assert s1.items[i].id == s.items[i].id;
        if r.items[i] != s1.items[i] {
          var k :| |s1.matches| <= k < |r.matches| &&
                   Involves(s1.items[i], r.matches[k].lostItemId, r.matches[k].foundItemId);
          assert |s.matches| <= k;
        } else {
          var k := |s.matches|;
          assert r.matches[k] == s1.matches[k];
        }
      }
    }
  }

  lemma {:induction false} PersistAllMarksInvolved(s: Store, ms: seq<MatchResult>)
    ensures forall i, k ::
              (0 <= i < |s.items| && |s.matches| <= k < |PersistAll(s, ms).matches| &&
               Involves(s.items[i], PersistAll(s, ms).matches[k].lostItemId, PersistAll(s, ms).matches[k].foundItemId)) ==>
              PersistAll(s, ms).items[i].status == Matched
    decreases |ms|
  {
    if ms != [] {
      var s1 := PersistOne(s, ms[0]);
      var r := PersistAll(s1, ms[1..]);
      assert PersistAll(s, ms) == r;
      PersistAllMarksInvolved(s1, ms[1..]);
      PersistOneStatuses(s, ms[0]);
      forall i, k | 0 <= i < |s.items| && |s.matches| <= k < |r.matches| &&
                    Involves(s.items[i], r.matches[k].lostItemId, r.matches[k].foundItemId)
        ensures r.items[i].status == Matched
      {
        assert s1.items[i].id == s.items[i].id;
        if k < |s1.matches| {
          assert r.matches[k] == s1.matches[k];
          assert s1.items[i].status == Matched;
        }
      }
    }
  }

  /** The notifications for a sequence of new records, record by record. */
  function NotifyAll(items: seq<Item>, recs: seq<MatchRecord>): seq<Notification> {
    if recs == [] then []
    else NotifyFor(items, recs[0].lostItemId, recs[0].foundItemId, recs[0].confidence)
         + NotifyAll(items, recs[1..])
  }

  lemma {:induction false} NotifyForFlipped(a: seq<Item>, b: seq<Item>, lost: string, found: string, c: int)
    requires OnlyFlippedToMatched(a, b)
    ensures NotifyFor(a, lost, found, c) == NotifyFor(b, lost, found, c)
  {
    if a != [] {
      assert OnlyFlippedToMatched(a[1..], b[1..]);
      NotifyForFlipped(a[1..], b[1..], lost, found, c);
    }
  }

  lemma {:induction false} NotifyAllFlipped(a: seq<Item>, b: seq<Item>, recs: seq<MatchRecord>)
    requires OnlyFlippedToMatched(a, b)
    ensures NotifyAll(a, recs) == NotifyAll(b, recs)
  {
    if recs != [] {
      NotifyForFlipped(a, b, recs[0].lostItemId, recs[0].foundItemId, recs[0].confidence);
      NotifyAllFlipped(a, b, recs[1..]);
    }
  }

  lemma {:induction false} NotifyAllAppend(items: seq<Item>, a: seq<MatchRecord>, b: seq<MatchRecord>)
    ensures NotifyAll(items, a + b) == NotifyAll(items, a) + NotifyAll(items, b)
    decreases |a|
  {
    if a != [] {
      var head := NotifyFor(items, a[0].lostItemId, a[0].foundItemId, a[0].confidence);
      assert (a + b)[0] == a[0] && (a + b)[1..] == a[1..] + b;
      assert NotifyAll(items, a + b) == head + NotifyAll(items, a[1..] + b);
      NotifyAllAppend(items, a[1..], b);
      AppendAssoc(head, NotifyAll(items, a[1..]), NotifyAll(items, b));
    } else {
      assert a + b == b;
    }
  }

  lemma PersistOneNotifications(s: Store, m: MatchResult)
    ensures PersistOne(s, m).notifications ==
              s.notifications + NotifyAll(s.items, PersistOne(s, m).matches[|s.matches|..])
  {
    var s1 := PersistOne(s, m);
    if Inserts(s, m) {
      var rec := s1.matches[|s.matches|];
      assert s1.matches[|s.matches|..] == [rec];
      assert NotifyAll(s.items, [rec]) == NotifyFor(s.items, rec.lostItemId, rec.foundItemId, rec.confidence) + NotifyAll(s.items, []);
      NotifyForFlipped(s.items, s1.items, rec.lostItemId, rec.foundItemId, rec.confidence);
    } else {
      assert s1.matches[|s.matches|..] == [];
    }
  }

  /**
    The persist loop appends exactly the notifications of its new records: for
    each new record, one per stored row of its two items, and nothing for skipped pairs.
   */
  lemma {:induction false} PersistAllNotifications(s: Store, ms: seq<MatchResult>)
    ensures PersistAll(s, ms).notifications ==
              s.notifications + NotifyAll(s.items, PersistAll(s, ms).matches[|s.matches|..])
    decreases |ms|
  {
    if ms == [] {
      assert PersistAll(s, ms).matches[|s.matches|..] == [];
    } else {
      var s1 := PersistOne(s, ms[0]);
      var r := PersistAll(s1, ms[1..]);
      assert PersistAll(s, ms) == r;
      PersistAllNotifications(s1, ms[1..]);
      NotifyAllFlipped(s.items, s1.items, r.matches[|s1.matches|..]);
      PersistOneNotifications(s, ms[0]);
      NotificationsCompose(s.items, s.notifications, s1.notifications, r.notifications,
                           s.matches, s1.matches, r.matches);
    }
  }

  /** Two steps that each append the notifications of their new records make one such step. */
  lemma NotificationsCompose(items: seq<Item>, n0: seq<Notification>, n1: seq<Notification>, n2: seq<Notification>,
                             m0: seq<MatchRecord>, m1: seq<MatchRecord>, m2: seq<MatchRecord>)
    requires m0 <= m1 <= m2
    requires n1 == n0 + NotifyAll(items, m1[|m0|..])
    requires n2 == n1 + NotifyAll(items, m2[|m1|..])
    ensures n2 == n0 + NotifyAll(items, m2[|m0|..])
  {
    SuffixSplit(m0, m1, m2);
    NotifyAllAppend(items, m1[|m0|..], m2[|m1|..]);
    AppendAssoc(n0, NotifyAll(items, m1[|m0|..]), NotifyAll(items, m2[|m1|..]));
  }

  lemma SuffixSplit<T>(x: seq<T>, y: seq<T>, z: seq<T>)
    requires x <= y <= z
    ensures z[|x|..] == y[|x|..] + z[|y|..]
  {
    assert y == z[..|y|];
  }

  /**
    On a store without duplicate pairs, when every confident result's pair is
    already stored, the persist loop writes nothing.
   */
  lemma {:induction false} PersistAllSkips(s: Store, ms: seq<MatchResult>)
    requires NoDuplicatePairs(s.matches)
    requires forall m :: m in ms && m.confidence >= PersistThreshold ==> HasPair(s.matches, m.lostItemId, m.foundItemId)
    ensures PersistAll(s, ms) == s
    decreases |ms|
  {
    if ms != [] {
      NoDuplicatesSingleRecord(s.matches, ms[0].lostItemId, ms[0].foundItemId);
      assert !Inserts(s, ms[0]);
      assert forall m :: m in ms[1..] ==> m in ms;
      PersistAllSkips(s, ms[1..]);
    }
  }

  // ------------------------------------------------------------ whole runs

  /** The matches a run returns; empty when it stops before evaluating. */
  function RunResults(s: Store, req: Request, oracle: Oracle): seq<MatchResult> {
    match Validate(req)
    case None => []
    case Some((id, side)) =>
      match FindSingle(s.items, id)
      case None => []
      case Some(n) =>
        var cands := SelectCandidates(s.items, Opposite(side), n.category);
        if cands == [] then [] else Evaluate(side, n.id, cands, Consult(oracle, side, n, cands))
  }

  /** Every run is the persist loop applied to the matches it returns. */
  lemma HandleNormalForm(s: Store, req: Request, oracle: Oracle)
    ensures HandleMatchRequest(s, req, oracle).0 == PersistAll(s, RunResults(s, req, oracle))
    ensures HandleMatchRequest(s, req, oracle).1.Matches? ==>
              HandleMatchRequest(s, req, oracle).1.matches == RunResults(s, req, oracle)
  {
  }

  /** The oracle's answer for candidate `c` of a run that loaded `n`. */
  function Answer(oracle: Oracle, side: ItemType, n: Item, c: Item): Option<Outcome> {
    oracle(PromptFor(side, n, c))
  }

  /** The candidates of a run: empty when it stops before selecting. */
  function RunCandidates(s: Store, req: Request): seq<Item> {
    match Validate(req)
    case None => []
    case Some((id, side)) =>
      match FindSingle(s.items, id)
      case None => []
      case Some(n) => SelectCandidates(s.items, Opposite(side), n.category)
  }

  /**
    Threshold property of a whole run: the returned matches are exactly the
    results for the candidates whose oracle answer parsed with confidence 60 or more.
   */
  lemma RunResultsMembers(s: Store, req: Request, oracle: Oracle)
    requires Validate(req).Some? && FindSingle(s.items, Validate(req).value.0).Some?
    ensures var side := Validate(req).value.1;
            var n := FindSingle(s.items, Validate(req).value.0).value;
            && (forall c :: c in RunCandidates(s, req) && Accepted(Answer(oracle, side, n, c)) ==>
                  ResultFor(side, n.id, c.id, Answer(oracle, side, n, c).value) in RunResults(s, req, oracle))
            && (forall m :: m in RunResults(s, req, oracle) ==>
                  exists c :: c in RunCandidates(s, req) && Accepted(Answer(oracle, side, n, c)) &&
                              m == ResultFor(side, n.id, c.id, Answer(oracle, side, n, c).value))
  {
    var (id, side) := Validate(req).value;
    var n := FindSingle(s.items, id).value;
    var cands := SelectCandidates(s.items, Opposite(side), n.category);
    assert RunCandidates(s, req) == cands;
    if cands != [] {
      assert RunResults(s, req, oracle) == Evaluate(side, n.id, cands, Consult(oracle, side, n, cands));
      ConsultedMembers(oracle, side, n, cands);
    }
  }

  /** The evaluated results over `cands` are exactly those of the candidates whose answer was accepted. */
  lemma ConsultedMembers(oracle: Oracle, side: ItemType, n: Item, cands: seq<Item>)
    ensures var v := Evaluate(side, n.id, cands, Consult(oracle, side, n, cands));
            && (forall c :: c in cands && Accepted(Answer(oracle, side, n, c)) ==>
                  ResultFor(side, n.id, c.id, Answer(oracle, side, n, c).value) in v)
            && (forall m :: m in v ==>
                  exists c :: c in cands && Accepted(Answer(oracle, side, n, c)) &&
                              m == ResultFor(side, n.id, c.id, Answer(oracle, side, n, c).value))
  {
    var outcomes := Consult(oracle, side, n, cands);
    var v := Evaluate(side, n.id, cands, outcomes);
    EvaluateMembers(side, n.id, cands, outcomes);
    forall c | c in cands && Accepted(Answer(oracle, side, n, c))
      ensures ResultFor(side, n.id, c.id, Answer(oracle, side, n, c).value) in v
    {
      var i :| 0 <= i < |cands| && cands[i] == c;
      assert outcomes[i] == Answer(oracle, side, n, c);
    }
    forall m | m in v
      ensures exists c :: c in cands && Accepted(Answer(oracle, side, n, c)) &&
                          m == ResultFor(side, n.id, c.id, Answer(oracle, side, n, c).value)
    {
      var i :| 0 <= i < |cands| && Accepted(outcomes[i]) &&
               m == ResultFor(side, n.id, cands[i].id, outcomes[i].value);
      assert outcomes[i] == Answer(oracle, side, n, cands[i]);
    }
  }

  /**
    After a run, a (lost, found) pair is stored iff it was stored before or the
    run returned a match for it with confidence 70 or more.
   */
  lemma HandleRecordsIff(s: Store, req: Request, oracle: Oracle, lost: string, found: string)
    ensures HasPair(HandleMatchRequest(s, req, oracle).0.matches, lost, found) <==>
              HasPair(s.matches, lost, found) ||
              exists m :: m in RunResults(s, req, oracle) && m.confidence >= PersistThreshold
                          && m.lostItemId == lost && m.foundItemId == found
  {
    HandleNormalForm(s, req, oracle);
    var valid := RunResults(s, req, oracle);
    var r := PersistAll(s, valid);
    PersistAllRecords(s, valid);
    if HasPair(r.matches, lost, found) && !HasPair(s.matches, lost, found) {
      var k :| 0 <= k < |r.matches| && r.matches[k].lostItemId == lost && r.matches[k].foundItemId == found;
      assert RecordFrom(valid, r.matches[k]);
    }
    if HasPair(s.matches, lost, found) {
      HasPairPrefix(s.matches, r.matches, lost, found);
    }
  }

  // ------------------------------------------------------ type correctness

  predicate RefersTo(items: seq<Item>, id: string, kind: ItemType) {
    exists i :: 0 <= i < |items| && items[i].id == id && items[i].kind == kind
  }

  /** Every stored match names a lost item as lost and a found item as found. */
  predicate WellTyped(s: Store) {
    forall k :: 0 <= k < |s.matches| ==>
      RefersTo(s.items, s.matches[k].lostItemId, Lost) && RefersTo(s.items, s.matches[k].foundItemId, Found)
  }

  /** The request's `itemType` is the stored type of the item it names. */
  predicate ConsistentRequest(s: Store, req: Request) {
    Validate(req).Some? && FindSingle(s.items, Validate(req).value.0).Some? ==>
      FindSingle(s.items, Validate(req).value.0).value.kind == Validate(req).value.1
  }

  lemma RefersToFlipped(a: seq<Item>, b: seq<Item>, id: string, kind: ItemType)
    requires OnlyFlippedToMatched(a, b) && RefersTo(a, id, kind)
    ensures RefersTo(b, id, kind)
  {
    var i :| 0 <= i < |a| && a[i].id == id && a[i].kind == kind;
    assert b[i].id == id && b[i].kind == kind;
  }

  lemma InItemsRefersTo(items: seq<Item>, x: Item)
    requires x in items
    ensures RefersTo(items, x.id, x.kind)
  {
    var i :| 0 <= i < |items| && items[i] == x;
  }

  /** Under a consistent request every returned match pairs a lost item with a found item. */
  lemma RunResultsWellTyped(s: Store, req: Request, oracle: Oracle)
    requires ConsistentRequest(s, req)
    ensures forall m :: m in RunResults(s, req, oracle) ==>
              RefersTo(s.items, m.lostItemId, Lost) && RefersTo(s.items, m.foundItemId, Found)
  {
    if Validate(req).Some? && FindSingle(s.items, Validate(req).value.0).Some? {
      var (id, side) := Validate(req).value;
      var n := FindSingle(s.items, id).value;
      RunResultsMembers(s, req, oracle);
      InItemsRefersTo(s.items, n);
      forall m | m in RunResults(s, req, oracle)
        ensures RefersTo(s.items, m.lostItemId, Lost) && RefersTo(s.items, m.foundItemId, Found)
      {
        var c :| c in RunCandidates(s, req) && Accepted(Answer(oracle, side, n, c)) &&
                 m == ResultFor(side, n.id, c.id, Answer(oracle, side, n, c).value);
        InItemsRefersTo(s.items, c);
      }
    }
  }

  /**
    Type correctness: when the request names the new item's real type, every
    stored match still has a lost item on its lost side and a found item on its
    found side, whichever side triggered the run.
   */
  lemma HandleKeepsWellTyped(s: Store, req: Request, oracle: Oracle)
    requires WellTyped(s)
    requires ConsistentRequest(s, req)
    ensures WellTyped(HandleMatchRequest(s, req, oracle).0)
  {
    HandleNormalForm(s, req, oracle);
    var valid := RunResults(s, req, oracle);
    var r := PersistAll(s, valid);
    RunResultsWellTyped(s, req, oracle);
    PersistAllRecords(s, valid);
    forall k | 0 <= k < |r.matches|
      ensures RefersTo(r.items, r.matches[k].lostItemId, Lost)
      ensures RefersTo(r.items, r.matches[k].foundItemId, Found)
    {
      var rec := r.matches[k];
      if k < |s.matches| {
        assert rec == s.matches[k];
      } else {
        assert RecordFrom(valid, rec);
      }
      RefersToFlipped(s.items, r.items, rec.lostItemId, Lost);
      RefersToFlipped(s.items, r.items, rec.foundItemId, Found);
    }
  }

  // ------------------------------------------------------------ idempotence

  /** The eligible items for the request all fit under the candidate cap. */
  predicate PoolFits(s: Store, req: Request) {
    Validate(req).Some? && FindSingle(s.items, Validate(req).value.0).Some? ==>
      |EligibleItems(s.items, Opposite(Validate(req).value.1),
                     FindSingle(s.items, Validate(req).value.0).value.category)| <= MaxCandidates
  }

  /** A run on a store the persist loop produced sees no candidate the first run did not see. */
  lemma RerunCandidates(s: Store, ms: seq<MatchResult>, req: Request)
    requires PoolFits(s, req)
    ensures var s1 := PersistAll(s, ms);
            && (Validate(req).Some? ==>
                 && (FindSingle(s.items, Validate(req).value.0).Some? <==> FindSingle(s1.items, Validate(req).value.0).Some?)
                 && (FindSingle(s.items, Validate(req).value.0).Some? ==>
                      FactsOf(FindSingle(s1.items, Validate(req).value.0).value) == FactsOf(FindSingle(s.items, Validate(req).value.0).value) &&
                      FindSingle(s1.items, Validate(req).value.0).value.id == FindSingle(s.items, Validate(req).value.0).value.id))
            && (forall c :: c in RunCandidates(s1, req) ==> c in RunCandidates(s, req))
  {
    var s1 := PersistAll(s, ms);
    if Validate(req).Some? {
      var (id, side) := Validate(req).value;
      FindSingleFlipped(s.items, s1.items, id);
      if FindSingle(s.items, id).Some? {
        var n := FindSingle(s.items, id).value;
        var n1 := FindSingle(s1.items, id).value;
        assert n1.category == n.category;
        forall c | c in RunCandidates(s1, req)
          ensures c in RunCandidates(s, req)
        {
          CandidateWasSelected(s.items, s1.items, Opposite(side), n.category, c);
        }
      }
    }
  }

  /** With the whole pool under the cap, a candidate after status flips was already a candidate before. */
  lemma CandidateWasSelected(before: seq<Item>, after: seq<Item>, kind: ItemType, category: string, c: Item)
    requires OnlyFlippedToMatched(before, after)
    requires |EligibleItems(before, kind, category)| <= MaxCandidates
    requires c in SelectCandidates(after, kind, category)
    ensures c in SelectCandidates(before, kind, category)
  {
    UnflippedWasPresent(before, after, c);
  }

  /**
    Re-running the same request with the same oracle on the store a run
    produced writes nothing: no record, no status change, no notification.
    This needs the eligible pool to fit under the cap of twenty; otherwise the
    items the first run marked `matched` make room for unseen candidates. It
    also needs every pair stored at most once: `.single()` finds no record of a
    pair stored twice, so such a pair is inserted again on every run.
   */
  lemma RerunChangesNothing(s: Store, req: Request, oracle: Oracle)
    requires PoolFits(s, req)
    requires NoDuplicatePairs(s.matches)
    ensures var s1 := HandleMatchRequest(s, req, oracle).0;
            HandleMatchRequest(s1, req, oracle).0 == s1
  {
    HandleNormalForm(s, req, oracle);
    var valid := RunResults(s, req, oracle);
    var s1 := PersistAll(s, valid);
    HandleNormalForm(s1, req, oracle);
    var valid2 := RunResults(s1, req, oracle);
    if Validate(req).Some? && FindSingle(s.items, Validate(req).value.0).Some? {
      var (id, side) := Validate(req).value;
      var n := FindSingle(s.items, id).value;
      RerunCandidates(s, valid, req);
      var n1 := FindSingle(s1.items, id).value;
      RunResultsMembers(s, req, oracle);
      RunResultsMembers(s1, req, oracle);
      PersistAllRecords(s, valid);
      forall m | m in valid2 && m.confidence >= PersistThreshold
        ensures HasPair(s1.matches, m.lostItemId, m.foundItemId)
      {
        var c :| c in RunCandidates(s1, req) && Accepted(Answer(oracle, side, n1, c)) &&
                 m == ResultFor(side, n1.id, c.id, Answer(oracle, side, n1, c).value);
        assert Answer(oracle, side, n1, c) == Answer(oracle, side, n, c);
        assert m in valid;
      }
      PersistAllSkips(s1, valid2);
    } else {
      assert valid == [] && valid2 == [];
    }
  }
}
