/**
 Confirmed facts: an append-only table in which a new fact may supersede an old one.
 */
module KnowledgeStore {
  import opened Wrappers

  /** The columns that the immutability trigger freezes, besides `supersedes_fact_id`. */
  datatype Content = Content(
    tenantId: string, corpusChunkId: string, subjectEntityId: string, subjectEntityType: string,
    attribute: string, value: string, confidence: Option<real>)

  datatype Fact = Fact(id: string, content: Content, supersedes: Option<string>, supersededBy: Option<string>)

  /** The table in insertion order. */
  type Facts = seq<Fact>

  /** What a call is given, with the id the database draws for the new row. */
  datatype Input = Input(id: string, content: Content, supersedes: Option<string>)

  predicate HasId(facts: Facts, id: string) {
    exists i :: 0 <= i < |facts| && facts[i].id == id
  }

  /** `UPDATE ... SET superseded_by_id = newId WHERE id = target AND superseded_by_id IS NULL` */
  function Patch(facts: Facts, target: string, newId: string): (r: Facts)
    ensures |r| == |facts|
    ensures forall i :: 0 <= i < |facts| ==>
      var patched := facts[i].id == target && facts[i].supersededBy.None?;
      r[i] == if patched then facts[i].(supersededBy := Some(newId)) else facts[i]
  {
    seq(|facts|, i requires 0 <= i < |facts| =>
      if facts[i].id == target && facts[i].supersededBy.None? then facts[i].(supersededBy := Some(newId)) else facts[i])
  }

  /** The call names a target; the empty string counts as none. */
  predicate NamesTarget(input: Input) {
    input.supersedes.Some? && input.supersedes.value != ""
  }

  /** The table after one call; a taken id makes the insert fail and changes nothing. */
  function Insert(facts: Facts, input: Input): Facts {
    if HasId(facts, input.id) then facts
    else
      var inserted := facts + [Fact(input.id, input.content, input.supersedes, None)];
      if NamesTarget(input) then Patch(inserted, input.supersedes.value, input.id) else inserted
  }

  class ConfirmedFactStore {
    var facts: Facts

    constructor ()
      ensures facts == []
    {
      facts := [];
    }

    method InsertConfirmedFact(input: Input) returns (r: Result<Fact, string>)
      modifies this
      ensures facts == Insert(old(facts), input)
      ensures r.Failure? <==> HasId(old(facts), input.id)
      ensures r.Success? ==> r.value == Fact(input.id, input.content, input.supersedes, None)
    {
      if HasId(facts, input.id) {
        return Failure("duplicate key");
      }
      var newFact := Fact(input.id, input.content, input.supersedes, None);
      facts := facts + [newFact];
      if input.supersedes.Some? && input.supersedes.value != "" {
        facts := Patch(facts, input.supersedes.value, newFact.id);
      }
      return Success(newFact);
    }
  }

  // ---------------------------------------------------------------------------
  // The supersession forest
  // ---------------------------------------------------------------------------

  ghost predicate DistinctIds(facts: Facts) {
    forall i, j :: 0 <= i < j < |facts| ==> facts[i].id != facts[j].id
  }

  /** Row `j` is the later row that row `i` names as its successor, and it names row `i` back. */
  ghost predicate LinksTo(facts: Facts, i: int, j: int) {
    && 0 <= i < j < |facts|
    && facts[i].supersededBy == Some(facts[j].id)
    && facts[j].supersedes == Some(facts[i].id)
  }

  ghost predicate LinkedForward(facts: Facts, i: int) {
    exists j :: LinksTo(facts, i, j)
  }

  ghost predicate Forest(facts: Facts) {
    && DistinctIds(facts)
    && forall i :: 0 <= i < |facts| && facts[i].supersededBy.Some? ==> LinkedForward(facts, i)
  }

  /** The call supersedes row `i`: it is the target and has no successor yet. */
  ghost predicate Supersedes(facts: Facts, input: Input, i: int) {
    && 0 <= i < |facts| && NamesTarget(input)
    && facts[i].id == input.supersedes.value && facts[i].supersededBy.None?
  }

  lemma InsertKeepsForest(facts: Facts, input: Input)
    requires Forest(facts) && input.supersedes != Some(input.id)
    ensures Forest(Insert(facts, input))
  {
    var after := Insert(facts, input);
    if !HasId(facts, input.id) {
      var n := |facts|;
      assert |after| == n + 1 && after[n] == Fact(input.id, input.content, input.supersedes, None);
      forall i | 0 <= i < |after| && after[i].supersededBy.Some?
        ensures LinkedForward(after, i)
      {
        if facts[i].supersededBy.Some? {
          var j :| LinksTo(facts, i, j);
          assert LinksTo(after, i, j);
        } else {
          assert LinksTo(after, i, n);
        }
      }
    }
  }

  function Exec(inputs: seq<Input>): Facts {
    if inputs == [] then [] else Insert(Exec(inputs[..|inputs| - 1]), inputs[|inputs| - 1])
  }

  /** The calls whose id no earlier call had. */
  ghost function FirstUses(inputs: seq<Input>): seq<Input> {
    if inputs == [] then []
    else
      var front, last := inputs[..|inputs| - 1], inputs[|inputs| - 1];
      FirstUses(front) + (if exists i :: 0 <= i < |front| && front[i].id == last.id then [] else [last])
  }

  /** The row holds what the call was given. */
  ghost predicate IsRowOf(f: Fact, input: Input) {
    f.id == input.id && f.content == input.content && f.supersedes == input.supersedes
  }

  /** The rows are those of the calls that came first with their id, in order. */
  lemma {:induction false} RowsAreCalls(inputs: seq<Input>)
    ensures |Exec(inputs)| == |FirstUses(inputs)|
    ensures forall i :: 0 <= i < |Exec(inputs)| ==> IsRowOf(Exec(inputs)[i], FirstUses(inputs)[i])
    ensures forall id :: HasId(Exec(inputs), id) <==> exists i :: 0 <= i < |inputs| && inputs[i].id == id
  {
    if inputs != [] {
      var front, last := inputs[..|inputs| - 1], inputs[|inputs| - 1];
      var facts, after := Exec(front), Exec(inputs);
      RowsAreCalls(front);
      InsertAddsRow(facts, last);
      forall id ensures HasId(after, id) <==> exists i :: 0 <= i < |inputs| && inputs[i].id == id {
        if HasId(after, id) && id != last.id {
          var i :| 0 <= i < |front| && front[i].id == id;
          assert inputs[i].id == id;
        }
        if i :| 0 <= i < |inputs| && inputs[i].id == id {
          assert i < |front| ==> front[i].id == id;
        }
      }
    }
  }

  lemma InsertAddsRow(facts: Facts, input: Input)
    ensures var after := Insert(facts, input);
      && |after| == |facts| + (if HasId(facts, input.id) then 0 else 1)
      && (forall i :: 0 <= i < |facts| ==> after[i] == facts[i].(supersededBy := after[i].supersededBy))
      && (!HasId(facts, input.id) ==> IsRowOf(after[|facts|], input))
      && (forall id :: HasId(after, id) <==> HasId(facts, id) || id == input.id)
  {
    var after := Insert(facts, input);
    if !HasId(facts, input.id) { assert after[|facts|].id == input.id; }
    forall id | HasId(facts, id) ensures HasId(after, id) {
      var i :| 0 <= i < |facts| && facts[i].id == id;
      assert after[i].id == id;
    }
  }

  /** No call names the id that its own row is about to draw. */
  ghost predicate FreshTargets(inputs: seq<Input>) {
    forall k :: 0 <= k < |inputs| ==> inputs[k].supersedes != Some(inputs[k].id)
  }

  /**
   After any sequence of calls every `superseded_by_id` points to a row inserted later that
   names the pointing row in `supersedes_fact_id`.
   */
  lemma {:induction false} RunIsForest(inputs: seq<Input>)
    requires FreshTargets(inputs)
    ensures Forest(Exec(inputs))
  {
    if inputs != [] {
      RunIsForest(inputs[..|inputs| - 1]);
      InsertKeepsForest(Exec(inputs[..|inputs| - 1]), inputs[|inputs| - 1]);
    }
  }

  /** No row has two predecessors: the links are injective. */
  lemma LinksAreInjective(facts: Facts, i: nat, k: nat)
    requires Forest(facts) && i < |facts| && k < |facts|
    requires facts[i].supersededBy.Some? && facts[i].supersededBy == facts[k].supersededBy
    ensures i == k
  {
    var j :| LinksTo(facts, i, j);
    var m :| LinksTo(facts, k, m);
    SameIdSameRow(facts, j, m);
  }

  lemma SameIdSameRow(facts: Facts, j: int, k: int)
    requires DistinctIds(facts) && 0 <= j < |facts| && 0 <= k < |facts| && facts[j].id == facts[k].id
    ensures j == k
  {
  }

  /** A row that names its own fresh id as target becomes its own successor. */
  lemma SelfTargetBreaksForest(facts: Facts, input: Input)
    requires Forest(facts) && !HasId(facts, input.id) && input.id != "" && input.supersedes == Some(input.id)
    ensures !Forest(Insert(facts, input))
  {
    var after, n := Insert(facts, input), |facts|;
    assert after[n].supersededBy == Some(input.id) && after[n].id == input.id;
    assert forall j :: !LinksTo(after, n, j);
  }

  // ---------------------------------------------------------------------------
  // Following the links
  // ---------------------------------------------------------------------------

  /** The row that row `i` names as its successor. */
  ghost function Successor(facts: Facts, i: nat): (j: nat)
    requires Forest(facts) && i < |facts| && facts[i].supersededBy.Some?
    ensures LinksTo(facts, i, j)
  {
    assert LinkedForward(facts, i);
    var j: int :| LinksTo(facts, i, j);
    j
  }

  /** The current fact reached from row `i`. */
  ghost function CurrentOf(facts: Facts, i: nat): (c: nat)
    requires Forest(facts) && i < |facts|
    ensures i <= c < |facts| && facts[c].supersededBy.None?
    decreases |facts| - i
  {
    if facts[i].supersededBy.None? then i else CurrentOf(facts, Successor(facts, i))
  }

  /** Row `c` is reached from row `i` along a path of links. */
  ghost predicate IsPath(facts: Facts, path: seq<nat>, i: nat, c: nat) {
    && path != [] && path[0] == i && path[|path| - 1] == c
    && forall k :: 0 <= k < |path| - 1 ==> LinksTo(facts, path[k], path[k + 1])
  }

  lemma {:induction false} PathToCurrent(facts: Facts, i: nat) returns (path: seq<nat>)
    requires Forest(facts) && i < |facts|
    ensures IsPath(facts, path, i, CurrentOf(facts, i))
    decreases |facts| - i
  {
    if facts[i].supersededBy.None? {
      path := [i];
    } else {
      var rest := PathToCurrent(facts, Successor(facts, i));
      path := [i] + rest;
      forall k | 0 <= k < |path| - 1 ensures LinksTo(facts, path[k], path[k + 1]) {
        if k > 0 { assert path[k] == rest[k - 1] && path[k + 1] == rest[k]; }
      }
    }
  }

  lemma SuccessorIsUnique(facts: Facts, i: nat, j: int)
    requires Forest(facts) && LinksTo(facts, i, j)
    ensures j == Successor(facts, i)
  {
    SameIdSameRow(facts, j, Successor(facts, i));
  }

  lemma {:induction false} PathsMeet(facts: Facts, path: seq<nat>, i: nat, c: nat)
    requires Forest(facts) && i < |facts| && c < |facts| && facts[c].supersededBy.None?
    requires IsPath(facts, path, i, c)
    ensures c == CurrentOf(facts, i)
    decreases |path|
  {
    if |path| > 1 {
      assert LinksTo(facts, path[0], path[1]);
      SuccessorIsUnique(facts, i, path[1]);
      var rest := path[1..];
      assert forall k :: 0 <= k < |rest| - 1 ==> LinksTo(facts, rest[k], rest[k + 1]) by {
        forall k | 0 <= k < |rest| - 1 ensures LinksTo(facts, rest[k], rest[k + 1]) {
          assert LinksTo(facts, path[k + 1], path[k + 2]);
        }
      }
      PathsMeet(facts, rest, path[1], c);
    }
  }

  /** From any fact the links end at exactly one current fact. */
  lemma ExactlyOneCurrent(facts: Facts, i: nat)
    requires Forest(facts) && i < |facts|
    ensures exists path :: IsPath(facts, path, i, CurrentOf(facts, i))
    ensures facts[CurrentOf(facts, i)].supersededBy.None?
    ensures forall path, c: nat :: c < |facts| && facts[c].supersededBy.None? && IsPath(facts, path, i, c) ==>
      c == CurrentOf(facts, i)
  {
    var path := PathToCurrent(facts, i);
    forall path, c: nat | c < |facts| && facts[c].supersededBy.None? && IsPath(facts, path, i, c)
      ensures c == CurrentOf(facts, i)
    {
      PathsMeet(facts, path, i, c);
    }
  }

  // ---------------------------------------------------------------------------
  // Counting current facts
  // ---------------------------------------------------------------------------

  function CurrentCount(facts: Facts): nat {
    if facts == [] then 0
    else CurrentCount(facts[..|facts| - 1]) + (if facts[|facts| - 1].supersededBy.None? then 1 else 0)
  }

  lemma {:induction false} PatchMisses(facts: Facts, target: string, newId: string)
    requires forall i :: 0 <= i < |facts| ==> facts[i].id != target || facts[i].supersededBy.Some?
    ensures Patch(facts, target, newId) == facts
  {
  }

  lemma {:induction false} PatchRetiresOne(facts: Facts, target: string, newId: string, i: nat)
    requires DistinctIds(facts) && i < |facts| && facts[i].id == target && facts[i].supersededBy.None?
    ensures CurrentCount(Patch(facts, target, newId)) == CurrentCount(facts) - 1
  {
    var n := |facts| - 1;
    var front := facts[..n];
    assert Patch(facts, target, newId)[..n] == Patch(front, target, newId);
    if i < n {
      PatchRetiresOne(front, target, newId, i);
    } else {
      PatchMisses(front, target, newId);
    }
  }

  /**
   A call adds one current fact, and retires one when its target is there and current; so a
   second supersession of the same fact, or one of a missing fact, only adds.
   */
  lemma InsertCountsCurrent(facts: Facts, input: Input)
    requires Forest(facts) && !HasId(facts, input.id) && input.supersedes != Some(input.id)
    ensures CurrentCount(Insert(facts, input))
         == CurrentCount(facts) + 1 - (if exists i :: Supersedes(facts, input, i) then 1 else 0)
  {
    var row := Fact(input.id, input.content, input.supersedes, None);
    var inserted := facts + [row];
    assert CurrentCount(inserted) == CurrentCount(facts) + 1 by { assert inserted[..|facts|] == facts; }
    if i :| Supersedes(facts, input, i) {
      DistinctAppend(facts, row);
      PatchRetiresOne(inserted, input.supersedes.value, input.id, i);
    } else if NamesTarget(input) {
      forall i | 0 <= i < |inserted|
        ensures inserted[i].id != input.supersedes.value || inserted[i].supersededBy.Some?
      {
        if i < |facts| { assert !Supersedes(facts, input, i); }
      }
      PatchMisses(inserted, input.supersedes.value, input.id);
    }
  }

  lemma DistinctAppend(facts: Facts, row: Fact)
    requires DistinctIds(facts) && !HasId(facts, row.id)
    ensures DistinctIds(facts + [row])
  {
  }

  // ---------------------------------------------------------------------------
  // Nothing else ever changes
  // ---------------------------------------------------------------------------

  /** What the immutability trigger lets an update do, and that a link is set once. */
  ghost predicate OnlyLinked(before: Fact, after: Fact) {
    && after.id == before.id && after.content == before.content && after.supersedes == before.supersedes
    && (before.supersededBy.Some? ==> after.supersededBy == before.supersededBy)
  }

  /** Rows are never deleted or moved, and at most their missing link is filled in. */
  lemma {:induction false} RowsAreImmutable(inputs: seq<Input>, n: nat)
    requires n <= |inputs|
    ensures |Exec(inputs[..n])| <= |Exec(inputs)|
    ensures forall i :: 0 <= i < |Exec(inputs[..n])| ==> OnlyLinked(Exec(inputs[..n])[i], Exec(inputs)[i])
    decreases |inputs|
  {
    if n == |inputs| {
      assert inputs[..n] == inputs;
    } else {
      var m := |inputs| - 1;
      assert inputs[..m][..n] == inputs[..n];
      RowsAreImmutable(inputs[..m], n);
      forall i | 0 <= i < |Exec(inputs[..n])|
        ensures OnlyLinked(Exec(inputs[..n])[i], Exec(inputs)[i])
      {
        assert OnlyLinked(Exec(inputs[..n])[i], Exec(inputs[..m])[i]);
      }
    }
  }

  // ---------------------------------------------------------------------------
  // Listing current facts
  // ---------------------------------------------------------------------------

  predicate HasKey(f: Fact, tenantId: string, subjectEntityId: string, attribute: string) {
    f.content.tenantId == tenantId && f.content.subjectEntityId == subjectEntityId && f.content.attribute == attribute
  }

  /** The current facts with the key, newest first. */
  function ListCurrentFacts(facts: Facts, tenantId: string, subjectEntityId: string, attribute: string): seq<Fact> {
    if facts == [] then []
    else
      var last := facts[|facts| - 1];
      (if HasKey(last, tenantId, subjectEntityId, attribute) && last.supersededBy.None? then [last] else [])
      + ListCurrentFacts(facts[..|facts| - 1], tenantId, subjectEntityId, attribute)
  }

  lemma {:induction false} ListHolds(
      facts: Facts, tenantId: string, subjectEntityId: string, attribute: string, f: Fact)
    ensures f in ListCurrentFacts(facts, tenantId, subjectEntityId, attribute)
      <==> f in facts && HasKey(f, tenantId, subjectEntityId, attribute) && f.supersededBy.None?
  {
    if facts != [] {
      var n := |facts| - 1;
      assert facts == facts[..n] + [facts[n]];
      ListHolds(facts[..n], tenantId, subjectEntityId, attribute, f);
    }
  }

  /** Fact `g` was inserted before fact `f`. */
  ghost predicate IsOlder(facts: Facts, g: Fact, f: Fact) {
    exists p, q :: 0 <= q < p < |facts| && facts[p] == f && facts[q] == g
  }

  lemma OlderInFront(facts: Facts, n: nat, g: Fact, f: Fact)
    requires n <= |facts| && IsOlder(facts[..n], g, f)
    ensures IsOlder(facts, g, f)
  {
    var p, q :| 0 <= q < p < n && facts[..n][p] == f && facts[..n][q] == g;
    assert facts[p] == f && facts[q] == g;
  }

  lemma OlderThanLast(facts: Facts, g: Fact)
    requires facts != [] && g in facts[..|facts| - 1]
    ensures IsOlder(facts, g, facts[|facts| - 1])
  {
    var q :| 0 <= q < |facts| - 1 && facts[..|facts| - 1][q] == g;
    assert facts[q] == g;
  }

  /** The list descends: what is listed later was inserted earlier. */
  lemma {:induction false} ListDescends(
      facts: Facts, tenantId: string, subjectEntityId: string, attribute: string, i: nat, j: nat)
    requires i < j < |ListCurrentFacts(facts, tenantId, subjectEntityId, attribute)|
    ensures var list := ListCurrentFacts(facts, tenantId, subjectEntityId, attribute);
      IsOlder(facts, list[j], list[i])
  {
    var n := |facts| - 1;
    var list := ListCurrentFacts(facts, tenantId, subjectEntityId, attribute);
    var rest := ListCurrentFacts(facts[..n], tenantId, subjectEntityId, attribute);
    var m := |list| - |rest|;
    if i >= m {
      ListDescends(facts[..n], tenantId, subjectEntityId, attribute, i - m, j - m);
      OlderInFront(facts, n, list[j], list[i]);
    } else {
      assert list[j] == rest[j - m] && list[i] == facts[n];
      ListHolds(facts[..n], tenantId, subjectEntityId, attribute, list[j]);
      OlderThanLast(facts, list[j]);
    }
  }

  ghost predicate SameKey(f: Fact, g: Fact) {
    HasKey(g, f.content.tenantId, f.content.subjectEntityId, f.content.attribute)
  }

  /** The current fact reached from row `i` is listed under row `i`'s own key. */
  ghost predicate ReplacementIsListed(facts: Facts, i: nat)
    requires Forest(facts) && i < |facts|
  {
    var key := facts[i].content;
    facts[CurrentOf(facts, i)] in ListCurrentFacts(facts, key.tenantId, key.subjectEntityId, key.attribute)
  }

  lemma ListedIsSameKey(facts: Facts, i: nat)
    requires Forest(facts) && i < |facts|
    ensures ReplacementIsListed(facts, i) <==> SameKey(facts[i], facts[CurrentOf(facts, i)])
  {
    var key := facts[i].content;
    ListHolds(facts, key.tenantId, key.subjectEntityId, key.attribute, facts[CurrentOf(facts, i)]);
  }

  ghost predicate LinksKeepKey(facts: Facts) {
    forall j, k :: LinksTo(facts, j, k) ==> SameKey(facts[j], facts[k])
  }

  lemma {:induction false} ChainKeepsKey(facts: Facts, i: nat)
    requires Forest(facts) && i < |facts| && LinksKeepKey(facts)
    ensures SameKey(facts[i], facts[CurrentOf(facts, i)])
    decreases |facts| - i
  {
    if facts[i].supersededBy.Some? {
      assert LinksTo(facts, i, Successor(facts, i));
      ChainKeepsKey(facts, Successor(facts, i));
    }
  }

  /** Both ends of a link have one current fact. */
  lemma LinkedFactsMeet(facts: Facts, j: int, k: int)
    requires Forest(facts) && LinksTo(facts, j, k)
    ensures CurrentOf(facts, j) == CurrentOf(facts, k)
  {
    SuccessorIsUnique(facts, j, k);
  }

  /** If the call supersedes a row, it carries that row's tenant, subject and attribute. */
  ghost predicate CallKeepsKey(facts: Facts, input: Input) {
    forall i :: Supersedes(facts, input, i) && !HasId(facts, input.id) ==>
      HasKey(facts[i], input.content.tenantId, input.content.subjectEntityId, input.content.attribute)
  }

  ghost predicate CallsKeepKey(inputs: seq<Input>) {
    inputs == [] ||
    var front, last := inputs[..|inputs| - 1], inputs[|inputs| - 1];
    CallsKeepKey(front) && CallKeepsKey(Exec(front), last)
  }

  /** A call adds links from the rows it supersedes to its own row, and keeps the others. */
  lemma InsertLinks(facts: Facts, input: Input, i: int, j: int)
    requires Forest(facts) && input.supersedes != Some(input.id) && !HasId(facts, input.id)
    ensures LinksTo(Insert(facts, input), i, j) <==>
      LinksTo(facts, i, j) || (Supersedes(facts, input, i) && j == |facts|)
  {
    var after := Insert(facts, input);
    assert after[|facts|] == Fact(input.id, input.content, input.supersedes, None);
    if LinksTo(after, i, j) && j == |facts| && facts[i].supersededBy.Some? {
      var k :| LinksTo(facts, i, k);
      assert HasId(facts, facts[k].id);
    }
  }

  lemma InsertKeepsKeys(facts: Facts, input: Input)
    requires Forest(facts) && input.supersedes != Some(input.id)
    ensures LinksKeepKey(Insert(facts, input)) <==> LinksKeepKey(facts) && CallKeepsKey(facts, input)
  {
    var after, n := Insert(facts, input), |facts|;
    if !HasId(facts, input.id) {
      forall i, j ensures LinksTo(after, i, j) <==> LinksTo(facts, i, j) || (Supersedes(facts, input, i) && j == n) {
        InsertLinks(facts, input, i, j);
      }
      if LinksKeepKey(after) {
        forall i | Supersedes(facts, input, i)
          ensures HasKey(facts[i], input.content.tenantId, input.content.subjectEntityId, input.content.attribute)
        {
          assert LinksTo(after, i, n);
        }
        forall i, j | LinksTo(facts, i, j) ensures SameKey(facts[i], facts[j]) {
          assert LinksTo(after, i, j);
        }
      }
    }
  }

  lemma {:induction false} LinksComeFromCalls(inputs: seq<Input>)
    requires FreshTargets(inputs)
    ensures LinksKeepKey(Exec(inputs)) <==> CallsKeepKey(inputs)
  {
    if inputs != [] {
      var front := inputs[..|inputs| - 1];
      RunIsForest(front);
      LinksComeFromCalls(front);
      InsertKeepsKeys(Exec(front), inputs[|inputs| - 1]);
    }
  }

  /**
   Every fact's replacement is listed under the fact's own key exactly when each call that superseded
   a row carried that row's tenant, subject and attribute: nothing in the insert checks it.
   */
  lemma ReplacementsAreListed(inputs: seq<Input>)
    requires FreshTargets(inputs)
    ensures Forest(Exec(inputs))
    ensures (forall i: nat :: i < |Exec(inputs)| ==> ReplacementIsListed(Exec(inputs), i)) <==> CallsKeepKey(inputs)
  {
    var facts := Exec(inputs);
    RunIsForest(inputs);
    LinksComeFromCalls(inputs);
    forall i: nat | i < |facts|
      ensures ReplacementIsListed(facts, i) <==> SameKey(facts[i], facts[CurrentOf(facts, i)])
    {
      ListedIsSameKey(facts, i);
    }
    if LinksKeepKey(facts) {
      forall i: nat | i < |facts| ensures ReplacementIsListed(facts, i) { ChainKeepsKey(facts, i); }
    }
    if forall i: nat :: i < |facts| ==> ReplacementIsListed(facts, i) {
      forall j, k | LinksTo(facts, j, k) ensures SameKey(facts[j], facts[k]) {
        LinkedFactsMeet(facts, j, k);
        assert ReplacementIsListed(facts, j) && ReplacementIsListed(facts, k);
      }
    }
  }

  /** Two calls, the second superseding the first under another key: the first key's listing is empty. */
  lemma ReplacementIsLost(a: Content, b: Content)
    requires a.attribute != b.attribute
    ensures var facts := Exec([Input("1", a, None), Input("2", b, Some("1"))]);
      ListCurrentFacts(facts, a.tenantId, a.subjectEntityId, a.attribute) == []
  {
    var first, second := Input("1", a, None), Input("2", b, Some("1"));
    var one, two := Fact("1", a, None, None), Fact("2", b, Some("1"), None);
    assert [first][..0] == [] && [first, second][..1] == [first];
    assert Exec([first]) == [one];
    var facts := Exec([first, second]);
    assert facts == [one.(supersededBy := Some("2")), two] by {
      assert !HasId([one], "2");
      assert [one] + [two] == [one, two];
    }
    assert facts[..1] == [one.(supersededBy := Some("2"))] && facts[..1][..0] == [];
    assert ListCurrentFacts(facts[..1], a.tenantId, a.subjectEntityId, a.attribute) == [];
  }
}
