/**
  Concrete runs of the `match-items` pipeline: a lost phone matched with a
  found phone, an oracle failure among successes, and the two thresholds.
 */
module MatchScenarios {
  import opened TextUtil
  import opened Records
  import opened MatchSort
  import opened MatchItems
  import opened MatchProperties

  function Report(id: string, owner: string, kind: ItemType, title: string, category: string): Item {
    Item(id, owner, kind, title, category, "", "Library", "2024-03-01", None, "/placeholder.svg", Active)
  }

  function Always(o: Outcome): Oracle {
    p => Some(o)
  }

  const PhoneA := Report("A", "owner-a", Lost, "Black iPhone", "Phone")
  const PhoneB := Report("B", "owner-b", Found, "iPhone found at library", "Phone")
  const PhoneStore := Store([PhoneA, PhoneB], [], [])
  const PhoneResult := MatchResult("A", "B", 85, "same model and place")

  const PhoneRequest := Request(Some("A"), Some("lost"))
  const PhoneOracle := Always(Outcome(85, "same model and place"))

  /** The request is well-formed and names the lost phone. */
  lemma PhoneLookup()
    ensures Validate(PhoneRequest) == Some(("A", Lost))
    ensures FindSingle(PhoneStore.items, "A") == Some(PhoneA)
  {
    assert RowsWithId(PhoneStore.items, "A") == [PhoneA] by {
      assert PhoneStore.items[1..] == [PhoneB] && PhoneStore.items[1..][1..] == [];
    }
  }

  /** The found phone is the only candidate. */
  lemma PhoneCandidates()
    ensures SelectCandidates(PhoneStore.items, Found, "Phone") == [PhoneB]
  {
    assert EligibleItems(PhoneStore.items, Found, "Phone") == [PhoneB] by {
      assert PhoneStore.items[1..] == [PhoneB] && PhoneStore.items[1..][1..] == [];
      assert !IsCandidate(PhoneA, Found, "Phone") && IsCandidate(PhoneB, Found, "Phone");
    }
  }

  /** The one answer, 85, is accepted. */
  lemma PhoneEvaluation()
    ensures Consult(PhoneOracle, Lost, PhoneA, [PhoneB]) == [Some(Outcome(85, "same model and place"))]
    ensures Evaluate(Lost, "A", [PhoneB], [Some(Outcome(85, "same model and place"))]) == [PhoneResult]
  {
    var outcomes := [Some(Outcome(85, "same model and place"))];
    assert Accept(Lost, "A", [PhoneB], outcomes) == [PhoneResult] by {
      assert [PhoneB][1..] == [] && outcomes[1..] == [];
    }
    assert SortByConfidence([PhoneResult]) == [PhoneResult] by {
      assert [PhoneResult][1..] == [];
    }
  }

  /** The lost phone's run consults the oracle once and returns its one answer. */
  lemma PhoneRunResults()
    ensures RunResults(PhoneStore, PhoneRequest, PhoneOracle) == [PhoneResult]
  {
    PhoneLookup();
    PhoneCandidates();
    PhoneEvaluation();
  }

  /** Persisting the 85 result writes one record, flips both items, and notifies both owners. */
  lemma PhonePersisted()
    ensures PersistAll(PhoneStore, [PhoneResult]) ==
              Store([PhoneA.(status := Matched), PhoneB.(status := Matched)],
                    [MatchRecord(0, "A", "B", 85, Pending)],
                    [NoteFor(PhoneA.(status := Matched), 85), NoteFor(PhoneB.(status := Matched), 85)])
  {
    PhoneMarked();
    PhoneNotified();
    assert Inserts(PhoneStore, PhoneResult);
    assert PersistAll(PhoneStore, [PhoneResult]) == PersistOne(PhoneStore, PhoneResult) by {
      assert [PhoneResult][1..] == [];
    }
    assert NextMatchId([]) == 0;
  }

  /** Both phones are flipped to `matched`. */
  lemma PhoneMarked()
    ensures MarkMatched(PhoneStore.items, "A", "B") == [PhoneA.(status := Matched), PhoneB.(status := Matched)]
  {
    assert Involves(PhoneA, "A", "B") && Involves(PhoneB, "A", "B");
  }

  /** Both owners are notified, the lost phone's owner first. */
  lemma PhoneNotified()
    ensures var items := [PhoneA.(status := Matched), PhoneB.(status := Matched)];
            NotifyFor(items, "A", "B", 85) == [NoteFor(items[0], 85), NoteFor(items[1], 85)]
  {
    var items := [PhoneA.(status := Matched), PhoneB.(status := Matched)];
    assert items[1..] == [items[1]];
    assert items[1..][1..] == [];
  }

  const DoubledStore := Store([PhoneA, PhoneB],
                              [MatchRecord(0, "A", "B", 85, Pending), MatchRecord(1, "A", "B", 85, Pending)], [])

  /**
    A pair stored twice, as two concurrent runs can leave it: `.single()` finds
    no record of it, so a new result of 80 for the pair is inserted a third
    time and both owners are notified again.
   */
  lemma DoubledPairIsInsertedAgain()
    ensures Inserts(DoubledStore, MatchResult("A", "B", 80, ""))
    ensures PersistOne(DoubledStore, MatchResult("A", "B", 80, "")).matches ==
              DoubledStore.matches + [MatchRecord(2, "A", "B", 80, Pending)]
    ensures |PersistOne(DoubledStore, MatchResult("A", "B", 80, "")).notifications| == 2
  {
    var ms := DoubledStore.matches;
    assert ms[1..] == [ms[1]] && ms[1..][1..] == [];
    assert |RecordsWithPair(ms, "A", "B")| == 2;
    assert NextMatchId(ms) == 2;
    var items := MarkMatched(DoubledStore.items, "A", "B");
    assert Involves(items[0], "A", "B") && Involves(items[1], "A", "B");
    assert items[1..] == [items[1]] && items[1..][1..] == [];
  }

  /** The two numerals the phone scenario prints. */
  lemma SmallNumerals()
    ensures SummaryMessage(1) == "Found 1 potential matches"
    ensures IntToString(85) == "85"
  {
    assert DigitChar(1) == '1';
    assert NatToString(1) == "1";
    assert DigitChar(8) == '8';
    assert DigitChar(5) == '5';
    assert NatToString(85) == NatToString(8) + [DigitChar(5)];
  }

  /**
    A lost "Black iPhone" and a found "iPhone found at library", scored 85:
    one pending record, both items matched, one notification per owner naming 85.
   */
  lemma LostPhoneIsMatched()
    ensures
      var r := HandleMatchRequest(PhoneStore, PhoneRequest, PhoneOracle);
      && r.1 == Matches([PhoneResult], "Found 1 potential matches")
      && r.0.matches == [MatchRecord(0, "A", "B", 85, Pending)]
      && r.0.items == [PhoneA.(status := Matched), PhoneB.(status := Matched)]
      && |r.0.notifications| == 2
      && r.0.notifications[0].userId == "owner-a" && r.0.notifications[1].userId == "owner-b"
      && IsInfix("85", r.0.notifications[0].message) && IsInfix("85", r.0.notifications[1].message)
  {
    var r := HandleMatchRequest(PhoneStore, PhoneRequest, PhoneOracle);
    assert r.1 == Matches([PhoneResult], SummaryMessage(1)) by {
      PhoneLookup();
      PhoneCandidates();
      PhoneEvaluation();
      assert r == MatchNewItem(PhoneStore, Lost, PhoneA, PhoneOracle);
    }
    assert r.0 == PersistAll(PhoneStore, [PhoneResult]) by {
      PhoneRunResults();
      HandleNormalForm(PhoneStore, PhoneRequest, PhoneOracle);
    }
    SmallNumerals();
    PhonePersisted();
  }

  /** One failed call among two successes: both successes are returned, 90 before 80. */
  lemma FailureIsIsolated()
    ensures
      var cands := [Report("C1", "o1", Found, "Wallet", "Wallet"),
                    Report("C2", "o2", Found, "Brown wallet", "Wallet"),
                    Report("C3", "o3", Found, "Leather wallet", "Wallet")];
      Evaluate(Lost, "N", cands, [None, Some(Outcome(80, "close")), Some(Outcome(90, "same"))]) ==
        [MatchResult("N", "C3", 90, "same"), MatchResult("N", "C2", 80, "close")]
  {
    var cands := [Report("C1", "o1", Found, "Wallet", "Wallet"),
                  Report("C2", "o2", Found, "Brown wallet", "Wallet"),
                  Report("C3", "o3", Found, "Leather wallet", "Wallet")];
    var outcomes := [None, Some(Outcome(80, "close")), Some(Outcome(90, "same"))];
    var m2 := MatchResult("N", "C2", 80, "close");
    var m3 := MatchResult("N", "C3", 90, "same");
    var c2, o2 := cands[2..], outcomes[2..];
    assert Accept(Lost, "N", c2, o2) == [m3] by {
      assert c2[1..] == [] && o2[1..] == [];
      assert Accepted(o2[0]) && ResultFor(Lost, "N", c2[0].id, o2[0].value) == m3;
    }
    var c1, o1 := cands[1..], outcomes[1..];
    assert Accept(Lost, "N", c1, o1) == [m2, m3] by {
      assert c1[1..] == c2 && o1[1..] == o2;
      assert Accepted(o1[0]) && ResultFor(Lost, "N", c1[0].id, o1[0].value) == m2;
    }
    assert Accept(Lost, "N", cands, outcomes) == [m2, m3] by {
      assert !Accepted(outcomes[0]);
    }
    assert SortByConfidence([m2, m3]) == [m3, m2] by {
      assert SortByConfidence([m3]) == [m3] by {
        assert [m3][1..] == [];
      }
      assert [m2, m3][1..] == [m3];
      assert Insert(m2, [m3]) == [m3] + Insert(m2, []);
    }
  }

  /**
    Boundaries: 70 is returned and stored, 69 is returned but not stored,
    59 is not returned.
   */
  const KeyReports := [Report("F1", "o1", Found, "Keys", "Keys"),
                       Report("F2", "o2", Found, "Key ring", "Keys"),
                       Report("F3", "o3", Found, "Car key", "Keys")]

  lemma ThresholdBoundaries()
    ensures
      var valid := Evaluate(Found, "N", KeyReports,
                            [Some(Outcome(70, "")), Some(Outcome(69, "")), Some(Outcome(59, ""))]);
      && valid == [MatchResult("F1", "N", 70, ""), MatchResult("F2", "N", 69, "")]
      && PersistAll(Store(KeyReports, [], []), valid).matches == [MatchRecord(0, "F1", "N", 70, Pending)]
  {
    var m1 := MatchResult("F1", "N", 70, "");
    var m2 := MatchResult("F2", "N", 69, "");
    KeyEvaluation();
    SeventyStoredSixtyNineNot(Store(KeyReports, [], []), m1, m2);
  }

  /** 70 and 69 pass the acceptance threshold, 59 does not; 70 comes first. */
  lemma KeyEvaluation()
    ensures Evaluate(Found, "N", KeyReports, [Some(Outcome(70, "")), Some(Outcome(69, "")), Some(Outcome(59, ""))])
              == [MatchResult("F1", "N", 70, ""), MatchResult("F2", "N", 69, "")]
  {
    var cands := KeyReports;
    var outcomes := [Some(Outcome(70, "")), Some(Outcome(69, "")), Some(Outcome(59, ""))];
    var m1 := MatchResult("F1", "N", 70, "");
    var m2 := MatchResult("F2", "N", 69, "");
    var c2, o2 := cands[2..], outcomes[2..];
    assert Accept(Found, "N", c2, o2) == [] by {
      assert c2[1..] == [] && o2[1..] == [];
      assert !Accepted(o2[0]);
    }
    var c1, o1 := cands[1..], outcomes[1..];
    assert Accept(Found, "N", c1, o1) == [m2] by {
      assert c1[1..] == c2 && o1[1..] == o2;
      assert Accepted(o1[0]) && ResultFor(Found, "N", c1[0].id, o1[0].value) == m2;
    }
    assert Accept(Found, "N", cands, outcomes) == [m1, m2] by {
      assert Accepted(outcomes[0]) && ResultFor(Found, "N", cands[0].id, outcomes[0].value) == m1;
    }
    assert SortByConfidence([m1, m2]) == [m1, m2] by {
      assert SortByConfidence([m2]) == [m2] by {
        assert [m2][1..] == [];
      }
      assert [m1, m2][1..] == [m2];
      assert Insert(m1, [m2]) == [m1, m2];
    }
  }

  /** On a store without records, a 70 result is stored and a following 69 result is not. */
  lemma SeventyStoredSixtyNineNot(s: Store, m1: MatchResult, m2: MatchResult)
    requires s.matches == [] && m1.confidence == 70 && m2.confidence == 69
    ensures PersistAll(s, [m1, m2]).matches == [MatchRecord(0, m1.lostItemId, m1.foundItemId, 70, Pending)]
  {
    var s1 := PersistOne(s, m1);
    assert s1.matches == [MatchRecord(0, m1.lostItemId, m1.foundItemId, 70, Pending)] by {
      assert Inserts(s, m1);
      PersistOneMatches(s, m1);
      assert NextMatchId([]) == 0;
    }
    assert PersistAll(s1, [m2]).matches == s1.matches by {
      assert !Inserts(s1, m2);
      assert [m2][1..] == [];
    }
    assert PersistAll(s, [m1, m2]) == PersistAll(s1, [m2]) by {
      assert [m1, m2][1..] == [m2];
    }
  }

  /** A found "Keys" report with no open lost "Keys" report: nothing to compare, nothing written. */
  lemma NoCandidatesWritesNothing()
    ensures
      var s := Store([Report("K", "o", Found, "Keys", "Keys"), Report("W", "p", Lost, "Wallet", "Wallet")], [], []);
      HandleMatchRequest(s, Request(Some("K"), Some("found")), Always(Outcome(99, ""))) ==
        (s, Matches([], NoItemsMessage))
  {
    var k := Report("K", "o", Found, "Keys", "Keys");
    var w := Report("W", "p", Lost, "Wallet", "Wallet");
    var s := Store([k, w], [], []);
    assert Validate(Request(Some("K"), Some("found"))) == Some(("K", Found));
    assert FindSingle(s.items, "K") == Some(k) by {
      assert s.items[1..] == [w] && s.items[1..][1..] == [];
      assert RowsWithId(s.items, "K") == [k];
    }
    assert SelectCandidates(s.items, Lost, "Keys") == [] by {
      assert s.items[1..] == [w] && s.items[1..][1..] == [];
      assert !IsCandidate(k, Lost, "Keys") && !IsCandidate(w, Lost, "Keys");
      assert EligibleItems(s.items, Lost, "Keys") == [];
    }
  }
}
