/** The penalty classifier of both transforms: the first entry of a severity-ordered list
    that the lower-cased first Decision line contains, folded to its canonical name. */
module Penalty {
  import opened JsText

  /** Most severe first. */
  const PenaltyList: seq<string> := [
    "disqualified", "drive through", "drive-through", "pit lane", "pit-lane", "grid",
    "drop of one position", "stop and go", "stop & go", "time", "seconds", "fine",
    "warning", "reprimand"
  ]

  /** Every value the classifier can return. */
  const Categories: set<string> := {
    "disqualified", "drive through", "drive-through", "pit lane", "pit-lane", "grid",
    "stop and go", "time", "fine", "warning", "reprimand", "no penalty"
  }

  /** The three synonyms that are folded; every other entry is its own name. */
  function Canonical(entry: string): string {
    if entry == "drop of one position" then "grid"
    else if entry == "stop & go" then "stop and go"
    else if entry == "seconds" then "time"
    else entry
  }

  /** The classification of `text` (already lower-cased) against `list` from entry `k` on. */
  function ClassifyFrom(text: string, list: seq<string>, k: nat): string
    requires k <= |list|
    decreases |list| - k
  {
    if k == |list| then "no penalty"
    else if Contains(text, list[k]) then Canonical(list[k])
    else ClassifyFrom(text, list, k + 1)
  }

  /** The classification is "no penalty" or the canonical name of an entry from `k` on. */
  lemma {:induction false} ClassifyFromValues(text: string, list: seq<string>, k: nat) returns (j: int)
    requires k <= |list|
    ensures var r := ClassifyFrom(text, list, k);
      (j == -1 && r == "no penalty") || (k <= j < |list| && r == Canonical(list[j]))
    decreases |list| - k
  {
    if k == |list| {
      j := -1;
    } else if Contains(text, list[k]) {
      j := k;
    } else {
      j := ClassifyFromValues(text, list, k + 1);
    }
  }

  /** Every entry of the list folds to one of the categories. */
  lemma CanonicalInCategories(j: nat)
    requires j < |PenaltyList|
    ensures Canonical(PenaltyList[j]) in Categories
  {
  }

  /** The penalty type of a decision whose first line is `decision`. */
  function Classify(decision: string): (r: string)
    ensures r in Categories
  {
    var r := ClassifyFrom(Lower(decision), PenaltyList, 0);
    assert r in Categories by {
      var j := ClassifyFromValues(Lower(decision), PenaltyList, 0);
      if j >= 0 {
        CanonicalInCategories(j);
      }
    }
    r
  }

  /** The `for`/`break` scan over the list. */
  method ScanPenalty(decision: string) returns (penalty: string)
    ensures penalty == Classify(decision)
  {
    var text := Lower(decision);
    penalty := "no penalty";
    var i := 0;
    while i < |PenaltyList|
      invariant 0 <= i <= |PenaltyList|
      invariant penalty == "no penalty"
      invariant ClassifyFrom(text, PenaltyList, i) == ClassifyFrom(text, PenaltyList, 0)
    {
      if Contains(text, PenaltyList[i]) {
        if PenaltyList[i] == "drop of one position" {
          penalty := "grid";
          break;
        }
        if PenaltyList[i] == "stop & go" {
          penalty := "stop and go";
          break;
        }
        if PenaltyList[i] == "seconds" {
          penalty := "time";
          break;
        }
        penalty := PenaltyList[i];
        break;
      }
      i := i + 1;
    }
  }

  /** The classifier answers with the most severe matching entry: when entry `k` is
      contained and no earlier one is, the result is entry `k`'s canonical name. */
  lemma {:induction false} ClassifyPicksFirstMatch(text: string, list: seq<string>, from: nat, k: nat)
    requires from <= k < |list|
    requires Contains(text, list[k])
    requires forall j :: from <= j < k ==> !Contains(text, list[j])
    ensures ClassifyFrom(text, list, from) == Canonical(list[k])
    decreases k - from
  {
    if from < k {
      ClassifyPicksFirstMatch(text, list, from + 1, k);
    }
  }

  lemma CanonicalNotNone(entry: string)
    requires entry != "no penalty"
    ensures Canonical(entry) != "no penalty"
  {
  }

  /** "no penalty" is returned exactly when no entry of the list is contained. */
  lemma {:induction false} ClassifyNoPenalty(text: string, list: seq<string>, from: nat)
    requires from <= |list| && "no penalty" !in list
    ensures ClassifyFrom(text, list, from) == "no penalty" <==>
      forall j :: from <= j < |list| ==> !Contains(text, list[j])
    decreases |list| - from
  {
    if from < |list| {
      ClassifyNoPenalty(text, list, from + 1);
      CanonicalNotNone(list[from]);
    }
  }

  /** Severity beats position in the text: a decision mentioning "disqualified" is
      classified as such, whatever else it mentions. */
  lemma DisqualifiedWins(decision: string)
    requires Contains(Lower(decision), "disqualified")
    ensures Classify(decision) == "disqualified"
  {
    ClassifyPicksFirstMatch(Lower(decision), PenaltyList, 0, 0);
  }

  /** A decision is classified by the first entry of the list its lower-cased first line
      contains. */
  lemma ClassifyIsFirstEntry(decision: string, k: nat)
    requires k < |PenaltyList| && Contains(Lower(decision), PenaltyList[k])
    requires forall j :: 0 <= j < k ==> !Contains(Lower(decision), PenaltyList[j])
    ensures Classify(decision) == Canonical(PenaltyList[k])
  {
    ClassifyPicksFirstMatch(Lower(decision), PenaltyList, 0, k);
  }

  /** A decision is classified "no penalty" exactly when its lower-cased first line contains
      no entry of the list. */
  lemma ClassifyNone(decision: string)
    ensures Classify(decision) == "no penalty" <==>
      forall j :: 0 <= j < |PenaltyList| ==> !Contains(Lower(decision), PenaltyList[j])
  {
    ClassifyNoPenalty(Lower(decision), PenaltyList, 0);
  }
}
