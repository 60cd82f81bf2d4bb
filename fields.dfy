/** The grouping and the key/value pairing that both transforms run over the incident
    fragments, and the record they return. The grouping is parameterised by the label that
    ends a Fact run: "Infringement" in the newer transform, "Offence" in the older one. */
module Fields {
  import opened JsText
  import opened Failures

  /** A grouped incident value: a joined paragraph or a list of lines. */
  datatype Value = Str(s: string) | List(items: seq<string>)

  /** The record both transforms return. */
  datatype TransformedPdfData = TransformedPdfData(
    series: string,
    docType: string,
    docName: string,
    docDate: string,
    grandPrix: string,
    penaltyType: string,
    weekend: string,
    incidentTitle: string,
    documentInfo: map<string, string>,
    incidentInfo: map<string, Value>,
    stewards: seq<string>)

  /** The label ending a Fact run, in each transform. */
  predicate IsTerminator(mid: string) {
    mid == "Infringement" || mid == "Offence"
  }

  /** The three labels that open a grouped value. */
  predicate IsLabel(x: string, mid: string) {
    x == "Fact" || x == mid || x == "Decision"
  }

  /** One item of a Fact list: the fragment at `i`, glued to its successor when that is
      shorter than six characters. */
  function FactItem(data: seq<string>, i: nat): string
    requires i + 1 < |data|
  {
    if |data[i + 1]| < 6 then data[i] + " " + data[i + 1] else data[i]
  }

  /** The Fact list items for the cursor positions `p` up to `q`. */
  function FactItems(data: seq<string>, p: nat, q: nat): (r: seq<string>)
    requires p <= q < |data|
    ensures |r| == q - p
    ensures forall k :: 0 <= k < q - p ==> r[k] == FactItem(data, p + k)
  {
    seq(q - p, k requires 0 <= k < q - p => FactItem(data, p + k))
  }

  /** Where `while (data[i])` stops: the first empty fragment from `p` on, or the end. */
  function DecisionEnd(data: seq<string>, p: nat): (e: nat)
    requires p <= |data|
    ensures p <= e <= |data|
    ensures forall k :: p <= k < e ==> data[k] != ""
    ensures e < |data| ==> data[e] == ""
    decreases |data| - p
  {
    if p == |data| || data[p] == "" then p else DecisionEnd(data, p + 1)
  }

  /** The run that starts at `p` ends at a label that is present, so its `while` loop stops. */
  predicate StopsAt(data: seq<string>, mid: string, p: nat) {
    && (p > 0 && p - 1 < |data| && data[p - 1] == "Fact" ==> IndexOfFrom(data, mid, p) >= 0)
    && (p > 0 && p - 1 < |data| && data[p - 1] == mid ==> IndexOfFrom(data, "Decision", p) >= 0)
  }

  /** The index the grouping visits after emitting the value at `p`. */
  function NextAt(data: seq<string>, mid: string, p: nat): (q: nat)
    requires p < |data| && StopsAt(data, mid, p)
    ensures p < q <= |data|
  {
    var j :=
      if p > 0 && data[p - 1] == "Fact" then IndexOfFrom(data, mid, p)
      else if p > 0 && data[p - 1] == mid then IndexOfFrom(data, "Decision", p)
      else if p > 0 && data[p - 1] == "Decision" then DecisionEnd(data, p)
      else p;
    if j > p then j else p + 1
  }

  /** The value the grouping emits at a visited index `p`. */
  function ValueAt(data: seq<string>, mid: string, p: nat): Value
    requires p < |data| && StopsAt(data, mid, p)
  {
    if p > 0 && data[p - 1] == "Fact" then
      var j := IndexOfFrom(data, mid, p);
      if !EndsWith(data[p], ':') then Str(Join(data[p..j], " "))
      else List(FactItems(data, p, j))
    else if p > 0 && data[p - 1] == mid then
      Str(Join(data[p..IndexOfFrom(data, "Decision", p)], " "))
    else if p > 0 && data[p - 1] == "Decision" then
      var e := DecisionEnd(data, p);
      if EndsWith(data[p], ':') then List(data[p..e]) else List([Join(data[p..e], " ")])
    else Str(data[p])
  }

  /** The ':'-list run after a "Fact" label at `p` has no terminating label after it: its
      loop reaches the last fragment and reads the length of the one past the end, a
      TypeError. */
  predicate GlueFails(data: seq<string>, mid: string, p: nat) {
    && 0 < p < |data| && data[p - 1] == "Fact" && EndsWith(data[p], ':')
    && IndexOfFrom(data, mid, p) < 0
  }

  /** Every run the grouping starts from `p` on stops or throws. The two runs excluded are
      the ones whose loops never end: a prose Fact run without its terminating label, and
      the run after that label without a "Decision" label. */
  predicate Finishes(data: seq<string>, mid: string, p: nat)
    decreases |data| - p
  {
    || p >= |data|
    || GlueFails(data, mid, p)
    || (StopsAt(data, mid, p) && Finishes(data, mid, NextAt(data, mid, p)))
  }

  /** `out` put in front of the values of `r`, or the error of `r`. */
  function Prefixed(out: seq<Value>, r: Result<seq<Value>>): Result<seq<Value>> {
    if r.Ok? then Ok(out + r.value) else r
  }

  /** The values the grouping emits from index `p` on, or the TypeError of the first run
      that throws. */
  function GroupsOf(data: seq<string>, mid: string, p: nat): (r: Result<seq<Value>>)
    requires p <= |data| && Finishes(data, mid, p)
    ensures r.Err? ==> r.error == UndefinedAccess
    decreases |data| - p
  {
    if p == |data| then Ok([])
    else if GlueFails(data, mid, p) then Err(UndefinedAccess)
    else Prefixed([ValueAt(data, mid, p)], GroupsOf(data, mid, NextAt(data, mid, p)))
  }

  /** Every run the grouping starts from `p` on stops without throwing. */
  predicate Defined(data: seq<string>, mid: string, p: nat)
    decreases |data| - p
  {
    p >= |data| || (StopsAt(data, mid, p) && Defined(data, mid, NextAt(data, mid, p)))
  }

  /** The values the grouping emits from index `p` on. */
  function Groups(data: seq<string>, mid: string, p: nat): seq<Value>
    requires p <= |data| && Defined(data, mid, p)
    decreases |data| - p
  {
    if p == |data| then [] else [ValueAt(data, mid, p)] + Groups(data, mid, NextAt(data, mid, p))
  }

  /** A `while (data[i] !== stop)` run from `p`: the fragments up to the label, each index
      pushed onto the skip list. */
  method JoinRun(data: seq<string>, p: nat, stop: string, skip: seq<int>)
    returns (arr: seq<string>, skip': seq<int>)
    requires p <= |data| && IndexOfFrom(data, stop, p) >= 0
    ensures arr == data[p..IndexOfFrom(data, stop, p)]
    ensures forall k :: k in skip' <==> k in skip || p <= k < IndexOfFrom(data, stop, p)
  {
    ghost var j := IndexOfFrom(data, stop, p);
    arr, skip' := [], skip;
    var i := p;
    while data[i] != stop
      invariant p <= i <= j
      invariant arr == data[p..i]
      invariant forall k :: k in skip' <==> k in skip || p <= k < i
      decreases j - i
    {
      arr := arr + [data[i]];
      skip' := skip' + [i];
      i := i + 1;
    }
  }

  /** The list form of a Fact run: one item per cursor position, a short successor glued
      on and pushed onto the skip list with it. Without the label the cursor reaches the
      last fragment, and measuring the fragment after it throws. */
  method GlueRun(data: seq<string>, p: nat, stop: string, skip: seq<int>)
    returns (r: Result<seq<string>>, skip': seq<int>)
    requires |stop| >= 6 && p < |data|
    ensures r.Ok? <==> IndexOfFrom(data, stop, p) >= 0
    ensures r.Ok? ==> r.value == FactItems(data, p, IndexOfFrom(data, stop, p))
    ensures r.Ok? ==> forall k :: k in skip' <==> k in skip || p <= k < IndexOfFrom(data, stop, p)
    ensures r.Err? ==> r.error == UndefinedAccess
  {
    var arr := [];
    skip' := skip;
    var i := p;
    while data[i] != stop
      invariant p <= i < |data|
      invariant forall k :: p <= k < i ==> data[k] != stop
      invariant arr == FactItems(data, p, i)
      invariant forall k :: k in skip' <==> k in skip || p <= k < i || (k == i && p < i && |data[i]| < 6)
      decreases |data| - i
    {
      if i + 1 == |data| {
        return Err(UndefinedAccess), skip';
      }
      if |data[i + 1]| < 6 {
        arr := arr + [data[i] + " " + data[i + 1]];
        skip' := skip' + [i, i + 1];
      } else {
        arr := arr + [data[i]];
        skip' := skip' + [i];
      }
      i := i + 1;
    }
    IndexOfFromIs(data, stop, p, i);
    r := Ok(arr);
  }

  /** A `while (data[i])` run from `p`: the fragments up to the first empty one or the end. */
  method DecisionRun(data: seq<string>, p: nat, skip: seq<int>)
    returns (arr: seq<string>, skip': seq<int>)
    requires p <= |data|
    ensures arr == data[p..DecisionEnd(data, p)]
    ensures forall k :: k in skip' <==> k in skip || p <= k < DecisionEnd(data, p)
  {
    arr, skip' := [], skip;
    var i := p;
    while i < |data| && data[i] != ""
      invariant p <= i <= DecisionEnd(data, p)
      invariant arr == data[p..i]
      invariant forall k :: k in skip' <==> k in skip || p <= k < i
    {
      arr := arr + [data[i]];
      skip' := skip' + [i];
      i := i + 1;
    }
  }

  /** One visit of the outer map at an index not in the skip list: the value it returns,
      with the indices its run consumed added to the skip list, or the TypeError its run
      throws. */
  method GroupAt(data: seq<string>, mid: string, index: nat, skip: seq<int>)
    returns (value: Result<Value>, skip': seq<int>)
    requires IsTerminator(mid) && index < |data|
    requires StopsAt(data, mid, index) || GlueFails(data, mid, index)
    requires forall k :: k in skip ==> k < index
    ensures value.Ok? <==> !GlueFails(data, mid, index)
    ensures value.Err? ==> value.error == UndefinedAccess
    ensures value.Ok? ==> value.value == ValueAt(data, mid, index)
    ensures value.Ok? ==> forall k :: index < k < NextAt(data, mid, index) ==> k in skip'
    ensures value.Ok? ==> forall k :: k in skip' ==> k < NextAt(data, mid, index)
  {
    var arr: seq<string>;
    skip' := skip;
    if index > 0 && data[index - 1] == "Fact" {
      if !EndsWith(data[index], ':') {
        arr, skip' := JoinRun(data, index, mid, skip);
        value := Ok(Str(Join(arr, " ")));
      } else {
        var items;
        items, skip' := GlueRun(data, index, mid, skip);
        if items.Err? {
          return Err(items.error), skip';
        }
        value := Ok(List(items.value));
      }
    } else if index > 0 && data[index - 1] == mid {
      arr, skip' := JoinRun(data, index, "Decision", skip);
      value := Ok(Str(Join(arr, " ")));
    } else if index > 0 && data[index - 1] == "Decision" {
      arr, skip' := DecisionRun(data, index, skip);
      if EndsWith(data[index], ':') {
        value := Ok(List(arr));
      } else {
        value := Ok(List([Join(arr, " ")]));
      }
    } else {
      value := Ok(Str(data[index]));
    }
  }

  /** One step of the grouping with its error, unfolded. */
  lemma GroupsOfStep(data: seq<string>, mid: string, p: nat)
    requires p < |data| && Finishes(data, mid, p)
    ensures GlueFails(data, mid, p) ==> GroupsOf(data, mid, p) == Err(UndefinedAccess)
    ensures !GlueFails(data, mid, p) ==>
      && StopsAt(data, mid, p) && Finishes(data, mid, NextAt(data, mid, p))
      && GroupsOf(data, mid, p) == Prefixed([ValueAt(data, mid, p)], GroupsOf(data, mid, NextAt(data, mid, p)))
  {
  }

  /** Emitting one more value in front of what is left keeps the whole grouping. */
  lemma PrefixedSnoc(out: seq<Value>, v: Value, rest: Result<seq<Value>>)
    ensures Prefixed(out, Prefixed([v], rest)) == Prefixed(out + [v], rest)
  {
    if rest.Ok? {
      assert out + ([v] + rest.value) == (out + [v]) + rest.value;
    }
  }

  /** The grouping succeeds exactly when no run throws, and then it yields `Groups`. */
  lemma {:induction false} GroupsOfDefined(data: seq<string>, mid: string, p: nat)
    requires p <= |data| && Finishes(data, mid, p)
    ensures GroupsOf(data, mid, p).Ok? <==> Defined(data, mid, p)
    ensures Defined(data, mid, p) ==> GroupsOf(data, mid, p) == Ok(Groups(data, mid, p))
    decreases |data| - p
  {
    if p < |data| && !GlueFails(data, mid, p) {
      GroupsOfDefined(data, mid, NextAt(data, mid, p));
    }
  }

  /** Runs that stop without throwing also finish. */
  lemma {:induction false} DefinedFinishes(data: seq<string>, mid: string, p: nat)
    requires Defined(data, mid, p)
    ensures Finishes(data, mid, p)
    decreases |data| - p
  {
    if p < |data| {
      DefinedFinishes(data, mid, NextAt(data, mid, p));
    }
  }

  /** A throw after plain fragments from `q` up to the throwing index `t` is the result of
      the grouping from `q`. */
  lemma {:induction false} PlainKeepsErr(data: seq<string>, mid: string, q: nat, t: nat)
    requires q <= t < |data| && Finishes(data, mid, t) && GroupsOf(data, mid, t).Err?
    requires forall k :: q <= k && k + 1 < t ==> !IsLabel(data[k], mid)
    requires q == 0 || !IsLabel(data[q - 1], mid)
    ensures Finishes(data, mid, q) && GroupsOf(data, mid, q) == Err(UndefinedAccess)
    decreases t - q
  {
    if q < t {
      if q + 1 < t {
        PlainKeepsErr(data, mid, q + 1, t);
      }
      assert NextAt(data, mid, q) == q + 1;
    }
  }

  /** A ':'-list after a "Fact" label that no terminating label follows throws, whatever
      plain fragments come before the label. */
  lemma UnterminatedListThrows(data: seq<string>, mid: string, f: nat)
    requires IsTerminator(mid)
    requires f + 1 < |data| && data[f] == "Fact" && EndsWith(data[f + 1], ':')
    requires forall k :: 0 <= k < f ==> !IsLabel(data[k], mid)
    requires forall k :: f + 1 < k < |data| ==> data[k] != mid
    ensures Finishes(data, mid, 0) && GroupsOf(data, mid, 0) == Err(UndefinedAccess)
  {
    assert !EndsWith(mid, ':');
    assert data[f + 1] != mid;
    assert GlueFails(data, mid, f + 1);
    PlainKeepsErr(data, mid, 0, f + 1);
  }

  /** One step of the grouping, unfolded. */
  lemma GroupsStep(data: seq<string>, mid: string, p: nat)
    requires p < |data| && Defined(data, mid, p)
    ensures StopsAt(data, mid, p) && Defined(data, mid, NextAt(data, mid, p))
    ensures Groups(data, mid, p) == [ValueAt(data, mid, p)] + Groups(data, mid, NextAt(data, mid, p))
  {
  }

  /** One step of the grouping, folded back. */
  lemma GroupsFold(data: seq<string>, mid: string, p: nat)
    requires p < |data| && StopsAt(data, mid, p) && Defined(data, mid, NextAt(data, mid, p))
    ensures Defined(data, mid, p)
    ensures Groups(data, mid, p) == [ValueAt(data, mid, p)] + Groups(data, mid, NextAt(data, mid, p))
  {
  }

  /** `splitIncidentStrings`: the outer map visits every index in order and drops those in
      the skip list, which every grouped run extends by the indices it consumed. A run that
      throws ends the whole map with its error. */
  method SplitIncidentStrings(data: seq<string>, mid: string) returns (r: Result<seq<Value>>)
    requires IsTerminator(mid) && Finishes(data, mid, 0)
    ensures r == GroupsOf(data, mid, 0)
  {
    var skip: seq<int> := [];
    var out := [];
    ghost var next: nat := 0;
    ghost var all := GroupsOf(data, mid, 0);
    assert all.Ok? ==> [] + all.value == all.value;
    var index := 0;
    while index < |data|
      invariant index <= next <= |data| && Finishes(data, mid, next)
      invariant forall k :: index <= k < next ==> k in skip
      invariant forall k :: k in skip ==> k < next
      invariant Prefixed(out, GroupsOf(data, mid, next)) == GroupsOf(data, mid, 0)
    {
      if IndexOf(skip, index) != -1 {
        assert skip[IndexOf(skip, index)] == index;
        assert index in skip;
        index := index + 1;
        continue;
      }
      assert index !in skip;
      assert index == next;
      GroupsOfStep(data, mid, index);
      var value;
      value, skip := GroupAt(data, mid, index, skip);
      if value.Err? {
        return Err(value.error);
      }
      PrefixedSnoc(out, value.value, GroupsOf(data, mid, NextAt(data, mid, index)));
      out := out + [value.value];
      next := NextAt(data, mid, index);
      index := index + 1;
    }
    assert out + [] == out;
    r := Ok(out);
  }

  /** A Fact list of car parts cut off before its "Offence" label throws. */
  lemma UnterminatedListExample()
    ensures Finishes(["Driver", "Fact", "parts:", "engine"], "Offence", 0)
    ensures GroupsOf(["Driver", "Fact", "parts:", "engine"], "Offence", 0) == Err(UndefinedAccess)
  {
    var data := ["Driver", "Fact", "parts:", "engine"];
    assert EndsWith(data[2], ':');
    UnterminatedListThrows(data, "Offence", 1);
  }

  /** Each fragment as a one-line value. */
  function Strs(s: seq<string>): (r: seq<Value>)
    ensures |r| == |s| && forall i :: 0 <= i < |s| ==> r[i] == Str(s[i])
  {
    seq(|s|, i requires 0 <= i < |s| => Str(s[i]))
  }

  /** The grouping never emits more values than there are fragments. */
  lemma {:induction false} GroupsLength(data: seq<string>, mid: string, p: nat)
    requires p <= |data| && Defined(data, mid, p)
    ensures |Groups(data, mid, p)| <= |data| - p
    decreases |data| - p
  {
    if p < |data| {
      GroupsLength(data, mid, NextAt(data, mid, p));
    }
  }

  /** The value of a Fact run whose fragments are `facts` (the terminator follows them). */
  function FactValue(facts: seq<string>, mid: string): Value
    requires |facts| > 0
  {
    if !EndsWith(facts[0], ':') then Str(Join(facts, " "))
    else List(FactItems(facts + [mid], 0, |facts|))
  }

  /** The value of a Decision run whose fragments are `decision`, none of them empty. */
  function DecisionValue(decision: seq<string>): Value
    requires |decision| > 0
  {
    if EndsWith(decision[0], ':') then List(decision) else List([Join(decision, " ")])
  }

  /** The lines after a "Decision" label that run to the end without an empty fragment. */
  lemma DecisionTail(data: seq<string>, mid: string, d: nat)
    requires IsTerminator(mid) && d + 1 < |data| && data[d] == "Decision"
    requires forall k :: d < k < |data| ==> data[k] != ""
    ensures Defined(data, mid, d + 1)
    ensures Groups(data, mid, d + 1) == [DecisionValue(data[d + 1..])]
  {
    var decision := data[d + 1..];
    assert DecisionEnd(data, d + 1) == |data|;
    assert data[d + 1..DecisionEnd(data, d + 1)] == decision;
    assert data[d + 1] == decision[0];
    assert ValueAt(data, mid, d + 1) == DecisionValue(decision);
    assert NextAt(data, mid, d + 1) == |data|;
    GroupsFold(data, mid, d + 1);
  }

  /** `indexOf` finds the first occurrence from where it starts. */
  lemma IndexOfFromIs(s: seq<string>, x: string, i: nat, r: nat)
    requires i <= r < |s| && s[r] == x
    requires forall k :: i <= k < r ==> s[k] != x
    ensures IndexOfFrom(s, x, i) == r
  {
  }

  /** A fragment whose predecessor is no label is emitted as it is. */
  lemma PlainThen(data: seq<string>, mid: string, p: nat)
    requires p < |data| && (p == 0 || !IsLabel(data[p - 1], mid)) && Defined(data, mid, p + 1)
    ensures Defined(data, mid, p)
    ensures Groups(data, mid, p) == [Str(data[p])] + Groups(data, mid, p + 1)
  {
    assert NextAt(data, mid, p) == p + 1;
    GroupsFold(data, mid, p);
  }

  /** The run after the terminating label `data[j]`, up to the "Decision" label at `d`. */
  lemma ReasonRun(data: seq<string>, mid: string, j: nat, d: nat)
    requires IsTerminator(mid) && j + 1 < d < |data| && data[j] == mid
    requires IndexOfFrom(data, "Decision", j + 1) == d && Defined(data, mid, d)
    ensures Defined(data, mid, j + 1)
    ensures Groups(data, mid, j + 1) == [Str(Join(data[j + 1..d], " "))] + Groups(data, mid, d)
  {
    assert NextAt(data, mid, j + 1) == d;
    GroupsFold(data, mid, j + 1);
  }

  /** The list items of a run read from the run itself, with its terminating label after it. */
  lemma FactItemsShift(data: seq<string>, mid: string, p: nat, j: nat)
    requires p < j < |data| && data[j] == mid
    ensures FactItems(data, p, j) == FactItems(data[p..j] + [mid], 0, j - p)
  {
    var facts := data[p..j] + [mid];
    var items, want := FactItems(data, p, j), FactItems(facts, 0, j - p);
    forall k | 0 <= k < j - p ensures items[k] == want[k] {
      assert facts[k] == data[p + k];
      assert facts[k + 1] == data[p + k + 1];
    }
  }

  /** The value emitted after a "Fact" label is the value of its run. */
  lemma FactValueAt(data: seq<string>, mid: string, f: nat, j: nat)
    requires IsTerminator(mid) && f + 1 < j < |data| && data[f] == "Fact" && data[j] == mid
    requires IndexOfFrom(data, mid, f + 1) == j
    ensures StopsAt(data, mid, f + 1) && NextAt(data, mid, f + 1) == j
    ensures ValueAt(data, mid, f + 1) == FactValue(data[f + 1..j], mid)
  {
    var facts := data[f + 1..j];
    assert facts[0] == data[f + 1];
    assert NextAt(data, mid, f + 1) == j;
    if EndsWith(facts[0], ':') {
      assert ValueAt(data, mid, f + 1) == List(FactItems(data, f + 1, j));
      FactItemsShift(data, mid, f + 1, j);
    }
  }

  /** The run after the "Fact" label at `f`, up to the terminating label at `j`. */
  lemma FactRun(data: seq<string>, mid: string, f: nat, j: nat)
    requires IsTerminator(mid) && f + 1 < j < |data| && data[f] == "Fact"
    requires IndexOfFrom(data, mid, f + 1) == j && Defined(data, mid, j)
    ensures Defined(data, mid, f + 1)
    ensures Groups(data, mid, f + 1) == [FactValue(data[f + 1..j], mid)] + Groups(data, mid, j)
  {
    FactValueAt(data, mid, f, j);
    GroupsFold(data, mid, f + 1);
  }

  /** The shape of a well-formed incident span: single fragments up to the "Fact" label at
      `f`, its run up to the terminating label at `j`, that label's run up to the "Decision"
      label at `d`, and the Decision lines to the end, none of them empty. */
  predicate WellFormedSpan(data: seq<string>, mid: string, f: nat, j: nat, d: nat) {
    && f + 1 < j && j + 1 < d && d + 1 < |data|
    && data[f] == "Fact" && data[j] == mid && data[d] == "Decision"
    && (forall k :: 0 <= k < f ==> !IsLabel(data[k], mid))
    && (forall k :: f < k < j ==> !IsLabel(data[k], mid))
    && (forall k :: j < k < d ==> !IsLabel(data[k], mid))
    && (forall k :: d < k < |data| ==> data[k] != "")
  }

  /** From the terminating label on: the label, its run, the "Decision" label, its lines. */
  lemma TailGroups(data: seq<string>, mid: string, j: nat, d: nat)
    requires IsTerminator(mid) && j + 1 < d && d + 1 < |data|
    requires data[j] == mid && data[d] == "Decision" && (j == 0 || !IsLabel(data[j - 1], mid))
    requires forall k :: j < k < d ==> !IsLabel(data[k], mid)
    requires forall k :: d < k < |data| ==> data[k] != ""
    ensures Defined(data, mid, j)
    ensures Groups(data, mid, j) ==
      [Str(mid), Str(Join(data[j + 1..d], " ")), Str("Decision"), DecisionValue(data[d + 1..])]
  {
    DecisionTail(data, mid, d);
    PlainThen(data, mid, d);
    IndexOfFromIs(data, "Decision", j + 1, d);
    ReasonRun(data, mid, j, d);
    PlainThen(data, mid, j);
  }

  /** From the "Fact" label on: the label, then its run up to the terminating label. */
  lemma FactGroups(data: seq<string>, mid: string, f: nat, j: nat)
    requires IsTerminator(mid) && f + 1 < j < |data| && data[f] == "Fact" && data[j] == mid
    requires f == 0 || !IsLabel(data[f - 1], mid)
    requires forall k :: f < k < j ==> data[k] != mid
    requires Defined(data, mid, j)
    ensures Defined(data, mid, f)
    ensures Groups(data, mid, f) == [Str("Fact"), FactValue(data[f + 1..j], mid)] + Groups(data, mid, j)
  {
    IndexOfFromIs(data, mid, f + 1, j);
    FactRun(data, mid, f, j);
    PlainThen(data, mid, f);
  }

  /** On a well-formed span the grouping yields the leading fragments one by one, then each
      label followed by its grouped value. */
  lemma GroupsOfWellFormed(data: seq<string>, mid: string, f: nat, j: nat, d: nat)
    requires IsTerminator(mid) && WellFormedSpan(data, mid, f, j, d)
    ensures Defined(data, mid, 0)
    ensures Groups(data, mid, 0) == Strs(data[..f]) + [Str("Fact"), FactValue(data[f + 1..j], mid),
      Str(mid), Str(Join(data[j + 1..d], " ")), Str("Decision"), DecisionValue(data[d + 1..])]
  {
    TailGroups(data, mid, j, d);
    assert forall k :: f < k < j ==> data[k] != mid;
    FactGroups(data, mid, f, j);
    HeadIsPlain(data, mid, f);
    assert data[..f] == data[0..f];
    Regroup(Groups(data, mid, 0), Strs(data[..f]), Groups(data, mid, f), Groups(data, mid, j),
      Str("Fact"), FactValue(data[f + 1..j], mid), Str(mid), Str(Join(data[j + 1..d], " ")),
      Str("Decision"), DecisionValue(data[d + 1..]));
  }

  lemma Regroup<T>(all: seq<T>, head: seq<T>, fromFact: seq<T>, fromMid: seq<T>, a: T, b: T, c: T, d: T, e: T, f: T)
    requires all == head + fromFact && fromFact == [a, b] + fromMid && fromMid == [c, d, e, f]
    ensures all == head + [a, b, c, d, e, f]
  {
    assert [a, b] + [c, d, e, f] == [a, b, c, d, e, f];
  }

  /** No fragment before `f` is a label. */
  predicate PlainBefore(data: seq<string>, mid: string, f: nat)
    requires f <= |data|
    decreases f
  {
    f == 0 || (!IsLabel(data[f - 1], mid) && PlainBefore(data, mid, f - 1))
  }

  lemma {:induction false} PlainBeforeOf(data: seq<string>, mid: string, f: nat)
    requires f <= |data| && forall k :: 0 <= k < f ==> !IsLabel(data[k], mid)
    ensures PlainBefore(data, mid, f)
    decreases f
  {
    if f > 0 {
      PlainBeforeOf(data, mid, f - 1);
    }
  }

  /** A plain fragment emitted after a run of plain fragments extends that run. */
  lemma StrsSnoc(s: seq<string>, f: nat, rest: seq<Value>, whole: seq<Value>, last: seq<Value>)
    requires 0 < f <= |s| && whole == Strs(s[0..f - 1]) + last && last == [Str(s[f - 1])] + rest
    ensures whole == Strs(s[0..f]) + rest
  {
    var l, r := Strs(s[0..f]), Strs(s[0..f - 1]) + [Str(s[f - 1])];
    forall i | 0 <= i < f ensures l[i] == r[i] {
      if i < f - 1 {
        assert s[0..f][i] == s[0..f - 1][i];
      }
    }
    assert l == r;
  }

  /** Every index up to `f` is visited on its own when no fragment before `f` is a label. */
  lemma {:induction false} PlainPrefix(data: seq<string>, mid: string, f: nat)
    requires f <= |data| && Defined(data, mid, f) && PlainBefore(data, mid, f)
    ensures Defined(data, mid, 0)
    ensures Groups(data, mid, 0) == Strs(data[0..f]) + Groups(data, mid, f)
    decreases f
  {
    if f > 0 {
      assert f - 1 == 0 || !IsLabel(data[f - 2], mid);
      PlainThen(data, mid, f - 1);
      PlainPrefix(data, mid, f - 1);
      StrsSnoc(data, f, Groups(data, mid, f), Groups(data, mid, 0), Groups(data, mid, f - 1));
    }
  }

  /** Every index up to `f` is visited on its own when no fragment before `f` is a label. */
  lemma HeadIsPlain(data: seq<string>, mid: string, f: nat)
    requires f <= |data| && Defined(data, mid, f)
    requires forall k :: 0 <= k < f ==> !IsLabel(data[k], mid)
    ensures Defined(data, mid, 0)
    ensures Groups(data, mid, 0) == Strs(data[0..f]) + Groups(data, mid, f)
  {
    PlainBeforeOf(data, mid, f);
    PlainPrefix(data, mid, f);
  }

  /** Every list the grouping emits has at least one line. */
  lemma {:induction false} GroupsListsNonEmpty(data: seq<string>, mid: string, p: nat)
    requires IsTerminator(mid) && p <= |data| && Defined(data, mid, p)
    ensures forall v :: v in Groups(data, mid, p) && v.List? ==> |v.items| > 0
    decreases |data| - p
  {
    if p < |data| {
      GroupsListsNonEmpty(data, mid, NextAt(data, mid, p));
      var v := ValueAt(data, mid, p);
      if v.List? && p > 0 && data[p - 1] == "Fact" {
        assert EndsWith(data[p], ':');
        assert data[p] != mid;
      }
    }
  }

  // ---------------------------------------------------------------------------------------
  // Key/value pairing.

  /** The value paired with the key at `i`: its successor, or the empty value JavaScript's
      `|| ''` substitutes when there is none. */
  function ValueAfter<V>(data: seq<V>, i: nat, empty: V): V {
    if i + 1 < |data| then data[i + 1] else empty
  }

  /** The object the stride-2 loop builds from `acc`, starting at the key at `i`. */
  function Pairs<V>(data: seq<V>, keyOf: V -> string, empty: V, acc: map<string, V>, i: nat): map<string, V>
    decreases |data| - i
  {
    if i >= |data| then acc
    else Pairs(data, keyOf, empty, acc[keyOf(data[i]) := ValueAfter(data, i, empty)], i + 2)
  }

  /** The `for (let i = 0; i < data.length; i += 2)` loop of the source. */
  method PairUp<V>(data: seq<V>, keyOf: V -> string, empty: V, init: map<string, V>)
    returns (m: map<string, V>)
    ensures m == Pairs(data, keyOf, empty, init, 0)
  {
    m := init;
    var i := 0;
    while i < |data|
      invariant Pairs(data, keyOf, empty, m, i) == Pairs(data, keyOf, empty, init, 0)
    {
      var key := keyOf(data[i]);
      var value := if i + 1 < |data| then data[i + 1] else empty;
      m := m[key := value];
      i := i + 2;
    }
  }

  /** A key at an even offset from `i`. */
  predicate KeyAt<V>(data: seq<V>, keyOf: V -> string, i: nat, t: nat, k: string) {
    i <= t < |data| && (t - i) % 2 == 0 && keyOf(data[t]) == k
  }

  /** A key that appears at no even offset keeps the value it had before the loop. */
  lemma {:induction false} PairsAbsent<V>(data: seq<V>, keyOf: V -> string, empty: V,
                                          acc: map<string, V>, i: nat, k: string)
    requires forall t :: !KeyAt(data, keyOf, i, t, k)
    ensures (k in Pairs(data, keyOf, empty, acc, i)) == (k in acc)
    ensures k in acc ==> Pairs(data, keyOf, empty, acc, i)[k] == acc[k]
    decreases |data| - i
  {
    if i < |data| {
      var i2 := i + 2;
      assert !KeyAt(data, keyOf, i, i, k);
      forall t ensures !KeyAt(data, keyOf, i2, t, k) {
        assert !KeyAt(data, keyOf, i, t, k);
      }
      PairsAbsent(data, keyOf, empty, acc[keyOf(data[i]) := ValueAfter(data, i, empty)], i + 2, k);
    }
  }

  /** The last occurrence of a key wins: its value is the fragment after that occurrence. */
  lemma {:induction false} PairsLast<V>(data: seq<V>, keyOf: V -> string, empty: V,
                                        acc: map<string, V>, i: nat, t: nat, k: string)
    requires KeyAt(data, keyOf, i, t, k)
    requires forall u :: t < u ==> !KeyAt(data, keyOf, i, u, k)
    ensures k in Pairs(data, keyOf, empty, acc, i)
    ensures Pairs(data, keyOf, empty, acc, i)[k] == ValueAfter(data, t, empty)
    decreases |data| - i
  {
    var acc' := acc[keyOf(data[i]) := ValueAfter(data, i, empty)];
    var i2 := i + 2;
    if t == i {
      forall u ensures !KeyAt(data, keyOf, i2, u, k) {
        assert !KeyAt(data, keyOf, i, u, k) || u == t;
      }
      PairsAbsent(data, keyOf, empty, acc', i + 2, k);
    } else {
      assert KeyAt(data, keyOf, i2, t, k);
      forall u | t < u ensures !KeyAt(data, keyOf, i2, u, k) {
        assert !KeyAt(data, keyOf, i, u, k);
      }
      PairsLast(data, keyOf, empty, acc', i + 2, t, k);
    }
  }

  // ---------------------------------------------------------------------------------------
  // Reading the paired incident record.

  /** The property name JavaScript makes of a grouped key: a list becomes its comma join. */
  function KeyOf(v: Value): string {
    match v
    case Str(s) => s
    case List(items) => Join(items, ",")
  }

  /** `Decision[0]`: the first line of a Decision list, the first character of a Decision
      paragraph, or a TypeError when there is none. */
  function DecisionHead(info: map<string, Value>): (r: Result<string>)
    ensures r.Ok? ==> "Decision" in info
    ensures r.Ok? && info["Decision"].List? ==>
      |info["Decision"].items| > 0 && r.value == info["Decision"].items[0]
    ensures r.Err? ==> r.error == UndefinedAccess
  {
    if "Decision" !in info then Err(UndefinedAccess)
    else match info["Decision"]
      case List(items) => if |items| > 0 then Ok(items[0]) else Err(UndefinedAccess)
      case Str(s) => if |s| > 0 then Ok(s[..1]) else Err(UndefinedAccess)
  }

  /** The steward count: `series === 'f1' ? 4 : 3`. */
  function StewardCount(series: string): (n: nat)
    ensures n == 3 || n == 4
  {
    if series == "f1" then 4 else 3
  }
}
