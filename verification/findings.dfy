/**
  How the deployed `match-items` handler treats the request's `itemType`.
  It only checks that the field is truthy, then tests it against `"lost"` and
  `"found"` separately when it picks the opposite side and when it fills the
  two ids of a result. Any other spelling, such as `"Lost"`, selects lost
  candidates and puts the candidate's id on both sides, so every stored match
  pairs an item with itself. `MatchItems.Validate` is the corrected check, and
  `MatchItems.ResultFor` is the corrected id assignment.
 */
module Findings {
  import opened Records
  import opened MatchSort
  import opened MatchItems
  import opened MatchProperties
  import opened MatchScenarios

  /** The `!itemId || !itemType` test: both fields truthy, the type unchecked. */
  function ValidateAsWritten(req: Request): (r: Option<(string, string)>)
    ensures r.Some? <==> Truthy(req.itemId) && Truthy(req.itemType)
    ensures r.Some? ==> r.value == (req.itemId.value, req.itemType.value)
  {
    if Truthy(req.itemId) && Truthy(req.itemType) then Some((req.itemId.value, req.itemType.value)) else None
  }

  /** `itemType === "lost" ? "found" : "lost"` */
  function OppositeAsWritten(itemType: string): (r: string)
    ensures r == "lost" || r == "found"
    ensures r == "found" <==> itemType == "lost"
  {
    if itemType == "lost" then "found" else "lost"
  }

  /**
    The `lostItemId` and `foundItemId` of a result:
    `itemType === "lost" ? newItem.id : compareItem.id` and
    `itemType === "found" ? newItem.id : compareItem.id`.
   */
  function ResultIdsAsWritten(itemType: string, newId: string, candId: string): (r: (string, string))
    ensures r.0 == newId <==> itemType == "lost" || candId == newId
    ensures r.1 == newId <==> itemType == "found" || candId == newId
    ensures r.0 == candId || r.1 == candId
  {
    (if itemType == "lost" then newId else candId, if itemType == "found" then newId else candId)
  }

  /** On the two spellings the database uses, the deployed code and the corrected model agree. */
  lemma AsWrittenAgreesOnTypeNames(t: ItemType, id: string, newId: string, candId: string, o: Outcome)
    requires id != ""
    ensures ValidateAsWritten(Request(Some(id), Some(TypeName(t)))) == Some((id, TypeName(t)))
    ensures Validate(Request(Some(id), Some(TypeName(t)))) == Some((id, t))
    ensures OppositeAsWritten(TypeName(t)) == TypeName(Opposite(t))
    ensures ResultIdsAsWritten(TypeName(t), newId, candId) ==
              (ResultFor(t, newId, candId, o).lostItemId, ResultFor(t, newId, candId, o).foundItemId)
  {
    ParseTypeName(t);
  }

  /**
    Any other non-empty type passes the deployed check, makes it compare
    against lost items, and yields results whose two ids are both the
    candidate's; the corrected check rejects the request.
   */
  lemma UnknownTypeMakesSelfPair(itemType: string, id: string, candId: string)
    requires id != "" && itemType != ""
    requires itemType != "lost" && itemType != "found"
    ensures ValidateAsWritten(Request(Some(id), Some(itemType))).Some?
    ensures Validate(Request(Some(id), Some(itemType))).None?
    ensures OppositeAsWritten(itemType) == "lost"
    ensures ResultIdsAsWritten(itemType, id, candId) == (candId, candId)
  {
  }

  /** The request `{ itemId: "A", itemType: "Lost" }` against a lost candidate `"C"`. */
  lemma CapitalisedLostPairsCandidateWithItself()
    ensures ValidateAsWritten(Request(Some("A"), Some("Lost"))) == Some(("A", "Lost"))
    ensures OppositeAsWritten("Lost") == "lost"
    ensures ResultIdsAsWritten("Lost", "A", "C") == ("C", "C")
    ensures Validate(Request(Some("A"), Some("Lost"))) == None
  {
    UnknownTypeMakesSelfPair("Lost", "A", "C");
  }

  /** In the corrected model a result places the new item and the candidate on different sides. */
  lemma CorrectedResultPairsTwoItems(side: ItemType, newId: string, candId: string, o: Outcome)
    requires newId != candId
    ensures ResultFor(side, newId, candId, o).lostItemId != ResultFor(side, newId, candId, o).foundItemId
    ensures {ResultFor(side, newId, candId, o).lostItemId, ResultFor(side, newId, candId, o).foundItemId} == {newId, candId}
  {
  }

  /** A row of the other type than the looked-up item does not carry its id. */
  lemma OtherKindOtherId(items: seq<Item>, id: string, c: Item)
    requires FindSingle(items, id).Some? && c in items && c.kind != FindSingle(items, id).value.kind
    ensures c.id != id
  {
  }

  /**
    With the corrected check, a request whose type is the stored type of the
    item it names (as the app's own trigger sends) gets back only results that
    pair two different items: the new item and a candidate of the other type.
   */
  lemma CorrectedHandlerPairsTwoItems(s: Store, req: Request, oracle: Oracle)
    requires ConsistentRequest(s, req)
    ensures var r := HandleMatchRequest(s, req, oracle).1;
            r.Matches? ==> forall m :: m in r.matches ==> m.lostItemId != m.foundItemId
  {
    HandleNormalForm(s, req, oracle);
    if Validate(req).Some? && FindSingle(s.items, Validate(req).value.0).Some? {
      var (id, side) := Validate(req).value;
      var n := FindSingle(s.items, id).value;
      RunResultsMembers(s, req, oracle);
      forall m | m in RunResults(s, req, oracle)
        ensures m.lostItemId != m.foundItemId
      {
        var c :| c in RunCandidates(s, req) && Accepted(Answer(oracle, side, n, c)) &&
                 m == ResultFor(side, n.id, c.id, Answer(oracle, side, n, c).value);
        OtherKindOtherId(s.items, id, c);
        CorrectedResultPairsTwoItems(side, n.id, c.id, Answer(oracle, side, n, c).value);
      }
    }
  }

  /**
    The consistency premise is needed: a found item `"A"` requested as
    `"lost"` is compared with the active found items of its category, itself
    among them, and is paired with itself.
   */
  lemma MislabelledRequestPairsItemWithItself()
    ensures var a := Report("A", "o", Found, "Umbrella", "Misc");
            RunResults(Store([a], [], []), Request(Some("A"), Some("lost")), Always(Outcome(80, ""))) ==
              [MatchResult("A", "A", 80, "")]
  {
    var a := Report("A", "o", Found, "Umbrella", "Misc");
    var outcomes := [Some(Outcome(80, ""))];
    assert Validate(Request(Some("A"), Some("lost"))) == Some(("A", Lost)) by {
      ParseTypeName(Lost);
    }
    assert FindSingle([a], "A") == Some(a) by {
      assert [a][1..] == [];
    }
    assert SelectCandidates([a], Found, "Misc") == [a] by {
      assert [a][1..] == [];
    }
    assert Accept(Lost, "A", [a], outcomes) == [MatchResult("A", "A", 80, "")] by {
      assert [a][1..] == [] && outcomes[1..] == [];
    }
    assert SortByConfidence([MatchResult("A", "A", 80, "")]) == [MatchResult("A", "A", 80, "")] by {
      assert [MatchResult("A", "A", 80, "")][1..] == [];
    }
  }
}
