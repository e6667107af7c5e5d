/**
 Fetching mail in batches behind a UID checkpoint: the landing and classifying loops, and runs of
 polls and arriving mail.
 */
module ImapWorker {

  datatype Message = Message(uid: nat, hasSource: bool, parses: bool)

  /** A mailbox: UIDs are positive and strictly ascending (section 2.3.1.1 of RFC 3501). */
  ghost predicate Mailbox(mailbox: seq<Message>) {
    && (forall i :: 0 <= i < |mailbox| ==> mailbox[i].uid >= 1)
    && (forall i, j :: 0 <= i < j < |mailbox| ==> mailbox[i].uid < mailbox[j].uid)
  }

  // ---------------------------------------------------------------------------
  // One fetch
  // ---------------------------------------------------------------------------

  function Above(mailbox: seq<Message>, since: nat): seq<Message> {
    if mailbox == [] then []
    else (if mailbox[0].uid > since then [mailbox[0]] else []) + Above(mailbox[1..], since)
  }

  /**
   The server's answer to `since+1:*`. When there is no such message the range may be read
   backwards and give the last one (section 6.4.8 of RFC 3501).
   */
  function Response(mailbox: seq<Message>, since: nat, backwards: bool): seq<Message> {
    var above := Above(mailbox, since);
    if above == [] && backwards && mailbox != [] then [mailbox[|mailbox| - 1]] else above
  }

  /** What the landing loop's guards let through. */
  function Fresh(response: seq<Message>, since: nat): seq<Message> {
    if response == [] then []
    else
      var m := response[0];
      (if m.uid != 0 && m.hasSource && m.uid > since then [m] else []) + Fresh(response[1..], since)
  }

  /** The loop tests its bound after a message has landed, so a bound of 0 lets one through. */
  function Bound(batchSize: nat): nat {
    if batchSize == 0 then 1 else batchSize
  }

  function Take(messages: seq<Message>, n: nat): seq<Message> {
    if |messages| <= n then messages else messages[..n]
  }

  /** The loop of `landMessages`. */
  method LandMessages(response: seq<Message>, since: nat, batchSize: nat) returns (landed: seq<Message>)
    ensures landed == Take(Fresh(response, since), Bound(batchSize))
    ensures |landed| <= batchSize || (batchSize == 0 && |landed| == 1)
    ensures |landed| < batchSize ==> landed == Fresh(response, since)
  {
    landed := [];
    assert response[0..] == response;
    for i := 0 to |response|
      invariant landed + Fresh(response[i..], since) == Fresh(response, since)
      invariant landed != [] ==> |landed| < batchSize
    {
      var msg := response[i];
      FreshStep(landed, response, i, since);
      if msg.uid == 0 || !msg.hasSource {
        continue;
      }
      if msg.uid <= since {
        continue;
      }
      landed := landed + [msg];
      if |landed| >= batchSize {
        return;
      }
    }
    assert landed + [] == landed;
  }

  lemma FreshStep(landed: seq<Message>, response: seq<Message>, i: nat, since: nat)
    requires i < |response|
    ensures var m, all := response[i], landed + Fresh(response[i..], since);
      var next := if m.uid != 0 && m.hasSource && m.uid > since then landed + [m] else landed;
      all == next + Fresh(response[i + 1..], since)
  {
    assert response[i..][1..] == response[i + 1..];
  }

  datatype FetchResult = FetchResult(messages: seq<nat>, highestUid: nat, failedUids: seq<nat>)

  function Uids(landed: seq<Message>, parses: bool): seq<nat> {
    if landed == [] then []
    else
      var last := |landed| - 1;
      Uids(landed[..last], parses) + (if landed[last].parses == parses then [landed[last].uid] else [])
  }

  function Max(a: nat, b: nat): nat {
    if a >= b then a else b
  }

  /** The highest UID, or 0. */
  function HighestUid(landed: seq<Message>): nat {
    if landed == [] then 0 else Max(HighestUid(landed[..|landed| - 1]), landed[|landed| - 1].uid)
  }

  lemma {:induction false} HighestIsMaximum(landed: seq<Message>)
    ensures forall m :: m in landed ==> m.uid <= HighestUid(landed)
    ensures HighestUid(landed) != 0 ==> exists m :: m in landed && m.uid == HighestUid(landed)
  {
    if landed != [] {
      var front, last := landed[..|landed| - 1], landed[|landed| - 1];
      HighestIsMaximum(front);
      assert landed == front + [last];
    }
  }

  /** The UID of the last message, or 0. */
  function LastUid(landed: seq<Message>): nat {
    if landed == [] then 0 else landed[|landed| - 1].uid
  }

  /** The classifying loop of `fetchNewMessages`: parsed and failed messages in order, and the highest UID. */
  method FetchNewMessages(response: seq<Message>, since: nat, batchSize: nat) returns (r: FetchResult)
    ensures var landed := Take(Fresh(response, since), Bound(batchSize));
      r == FetchResult(Uids(landed, true), HighestUid(landed), Uids(landed, false))
  {
    var landed := LandMessages(response, since, batchSize);
    if |landed| == 0 {
      return FetchResult([], 0, []);
    }
    var messages, failedUids, highestUid := [], [], 0;
    for i := 0 to |landed|
      invariant messages == Uids(landed[..i], true) && failedUids == Uids(landed[..i], false)
      invariant highestUid == HighestUid(landed[..i])
    {
      assert landed[..i + 1][..i] == landed[..i];
      var uid := landed[i].uid;
      if uid > highestUid {
        highestUid := uid;
      }
      if landed[i].parses {
        messages := messages + [uid];
      } else {
        failedUids := failedUids + [uid];
      }
    }
    assert landed[..|landed|] == landed;
    return FetchResult(messages, highestUid, failedUids);
  }

  /** UIDs that ascend end in the highest. */
  lemma HighestIsLast(landed: seq<Message>)
    requires Mailbox(landed)
    ensures HighestUid(landed) == LastUid(landed)
  {
    HighestIsMaximum(landed);
    if landed != [] {
      var m :| m in landed && m.uid == HighestUid(landed);
      assert landed[|landed| - 1] in landed;
    }
  }

  /** Parsed and failed messages partition the batch. */
  lemma {:induction false} UidsPartition(landed: seq<Message>, uid: nat)
    ensures |Uids(landed, true)| + |Uids(landed, false)| == |landed|
    ensures uid in Uids(landed, true) <==> Message(uid, true, true) in landed || Message(uid, false, true) in landed
    ensures uid in Uids(landed, false) <==> Message(uid, true, false) in landed || Message(uid, false, false) in landed
  {
    if landed != [] {
      var front, last := landed[..|landed| - 1], landed[|landed| - 1];
      UidsPartition(front, uid);
      assert landed == front + [last];
    }
  }

  lemma UidsIdentify(mailbox: seq<Message>)
    requires Mailbox(mailbox)
    ensures forall m, m' :: m in mailbox && m' in mailbox && m.uid == m'.uid ==> m == m'
  {
  }

  /** No UID of a batch is both parsed and failed. */
  lemma PartitionIsDisjoint(landed: seq<Message>, uid: nat)
    requires Mailbox(landed)
    ensures !(uid in Uids(landed, true) && uid in Uids(landed, false))
  {
    UidsPartition(landed, uid);
    UidsIdentify(landed);
  }

  // ---------------------------------------------------------------------------
  // What there is to deliver
  // ---------------------------------------------------------------------------

  /** The messages that carry source. */
  function Sourced(mailbox: seq<Message>): seq<Message> {
    if mailbox == [] then []
    else (if mailbox[0].hasSource then [mailbox[0]] else []) + Sourced(mailbox[1..])
  }

  lemma {:induction false} FreshOfAbove(mailbox: seq<Message>, since: nat)
    ensures Fresh(Above(mailbox, since), since) == Fresh(mailbox, since)
  {
    if mailbox != [] {
      var rest := Above(mailbox[1..], since);
      FreshOfAbove(mailbox[1..], since);
      if mailbox[0].uid > since {
        assert ([mailbox[0]] + rest)[1..] == rest;
      } else {
        assert Above(mailbox, since) == rest;
        assert Fresh(mailbox, since) == Fresh(mailbox[1..], since);
      }
    }
  }

  /** The guards undo the backwards reading: a fetch sees exactly the new messages with source. */
  lemma FreshOfResponse(mailbox: seq<Message>, since: nat, backwards: bool)
    ensures Fresh(Response(mailbox, since, backwards), since) == Fresh(mailbox, since)
  {
    FreshOfAbove(mailbox, since);
    var above := Above(mailbox, since);
    if above == [] && backwards && mailbox != [] {
      var last := mailbox[|mailbox| - 1];
      AboveMembers(mailbox, since, last);
      assert [last][1..] == [];
    }
  }

  lemma {:induction false} AboveMembers(mailbox: seq<Message>, since: nat, m: Message)
    ensures m in Above(mailbox, since) <==> m in mailbox && m.uid > since
  {
    if mailbox != [] {
      AboveMembers(mailbox[1..], since, m);
      assert mailbox == [mailbox[0]] + mailbox[1..];
    }
  }

  lemma {:induction false} AllFresh(mailbox: seq<Message>, since: nat)
    requires forall i :: 0 <= i < |mailbox| ==> mailbox[i].uid > since
    ensures Fresh(mailbox, since) == Sourced(mailbox)
  {
    if mailbox != [] { AllFresh(mailbox[1..], since); }
  }

  lemma {:induction false} SourcedMembers(mailbox: seq<Message>, m: Message)
    ensures m in Sourced(mailbox) <==> m in mailbox && m.hasSource
  {
    if mailbox != [] {
      SourcedMembers(mailbox[1..], m);
      assert mailbox == [mailbox[0]] + mailbox[1..];
    }
  }

  /** With the checkpoint at the last of the first `n` messages, the fresh ones are the others. */
  lemma {:induction false} FreshIsRest(mailbox: seq<Message>, n: nat)
    requires Mailbox(mailbox) && n <= |Sourced(mailbox)|
    ensures Fresh(mailbox, LastUid(Sourced(mailbox)[..n])) == Sourced(mailbox)[n..]
  {
    var all := Sourced(mailbox);
    if n == 0 {
      AllFresh(mailbox, 0);
    } else {
      var head, tail := mailbox[0], mailbox[1..];
      var rest := Sourced(tail);
      var k := if head.hasSource then n - 1 else n;
      assert all == (if head.hasSource then [head] else []) + rest;
      if k > 0 {
        FreshIsRest(tail, k);
        SourcedMembers(tail, rest[k - 1]);
        assert LastUid(all[..n]) == rest[k - 1].uid == LastUid(rest[..k]);
      } else {
        AllFresh(tail, head.uid);
      }
    }
  }

  // ---------------------------------------------------------------------------
  // Runs
  // ---------------------------------------------------------------------------

  /** The mailbox, the saved checkpoint, and everything delivered so far, in order. */
  datatype State = State(mailbox: seq<Message>, checkpoint: nat, delivered: seq<Message>)

  datatype Event = Arrive(message: Message) | Poll(batchSize: nat, backwards: bool)

  const Initial := State([], 0, [])

  /** What a poll lands. */
  function Batch(s: State, batchSize: nat, backwards: bool): seq<Message> {
    Take(Fresh(Response(s.mailbox, s.checkpoint, backwards), s.checkpoint), Bound(batchSize))
  }

  /** The caller saves the highest UID of the fetch if it is higher than the one it has. */
  function Step(s: State, e: Event): State {
    match e
    case Arrive(m) => s.(mailbox := s.mailbox + [m])
    case Poll(b, backwards) =>
      var batch := Batch(s, b, backwards);
      s.(checkpoint := Max(s.checkpoint, HighestUid(batch)), delivered := s.delivered + batch)
  }

  /** A message arrives with a UID above all others. */
  ghost predicate Allowed(s: State, e: Event) {
    e.Arrive? ==> Mailbox(s.mailbox + [e.message])
  }

  function Run(events: seq<Event>): State {
    if events == [] then Initial else Step(Run(events[..|events| - 1]), events[|events| - 1])
  }

  ghost predicate ValidRun(events: seq<Event>) {
    events == [] ||
    (ValidRun(events[..|events| - 1]) && Allowed(Run(events[..|events| - 1]), events[|events| - 1]))
  }

  /** Delivered are the first messages with source, once each, and the checkpoint is the last of them. */
  ghost predicate ExactlyOnce(s: State) {
    && Mailbox(s.mailbox)
    && s.delivered <= Sourced(s.mailbox)
    && s.checkpoint == LastUid(s.delivered)
  }

  /** The messages with source that are still to be delivered. */
  function Remaining(s: State): nat {
    |Fresh(s.mailbox, s.checkpoint)|
  }

  lemma BatchIsNext(s: State, batchSize: nat, backwards: bool)
    requires ExactlyOnce(s)
    ensures var n, batch := |s.delivered|, Batch(s, batchSize, backwards);
      && n + |batch| <= |Sourced(s.mailbox)| && batch == Sourced(s.mailbox)[n..n + |batch|]
      && Remaining(s) == |Sourced(s.mailbox)| - n
      && |batch| == (if Remaining(s) <= Bound(batchSize) then Remaining(s) else Bound(batchSize))
  {
    FreshOfResponse(s.mailbox, s.checkpoint, backwards);
    assert Sourced(s.mailbox)[..|s.delivered|] == s.delivered;
    FreshIsRest(s.mailbox, |s.delivered|);
  }

  lemma PartOfMailbox(all: seq<Message>, n: nat, m: nat)
    requires Mailbox(all) && n <= m <= |all|
    ensures Mailbox(all[n..m])
  {
  }

  /** The checkpoint goes up to the last message of the batch. */
  lemma BatchEndsHighest(s: State, batchSize: nat, backwards: bool)
    requires ExactlyOnce(s)
    ensures var batch := Batch(s, batchSize, backwards); HighestUid(batch) == LastUid(batch)
  {
    var n, batch := |s.delivered|, Batch(s, batchSize, backwards);
    BatchIsNext(s, batchSize, backwards);
    SourcedIsMailbox(s.mailbox);
    PartOfMailbox(Sourced(s.mailbox), n, n + |batch|);
    HighestIsLast(batch);
  }

  lemma {:induction false} SourcedAppend(mailbox: seq<Message>, m: Message)
    ensures Sourced(mailbox + [m]) == Sourced(mailbox) + (if m.hasSource then [m] else [])
  {
    if mailbox == [] {
      assert mailbox + [m] == [m] && [m][1..] == [];
    } else {
      SourcedAppend(mailbox[1..], m);
      assert (mailbox + [m])[1..] == mailbox[1..] + [m];
    }
  }

  lemma {:induction false} SourcedIsMailbox(mailbox: seq<Message>)
    requires Mailbox(mailbox)
    ensures Mailbox(Sourced(mailbox))
  {
    if mailbox != [] {
      var head, rest := mailbox[0], Sourced(mailbox[1..]);
      SourcedIsMailbox(mailbox[1..]);
      forall i | 0 <= i < |rest| ensures head.uid < rest[i].uid {
        SourcedMembers(mailbox[1..], rest[i]);
      }
    }
  }

  lemma LastOfParts(all: seq<Message>, n: nat, m: nat)
    requires Mailbox(all) && n + m <= |all|
    ensures all[..n] + all[n..n + m] == all[..n + m]
    ensures LastUid(all[..n + m]) == Max(LastUid(all[..n]), LastUid(all[n..n + m]))
  {
    assert m > 0 ==> all[n..n + m][m - 1] == all[n + m - 1];
    assert n > 0 && m > 0 ==> all[n - 1].uid < all[n + m - 1].uid;
  }

  lemma PollKeepsExactlyOnce(s: State, batchSize: nat, backwards: bool)
    requires ExactlyOnce(s)
    ensures ExactlyOnce(Step(s, Poll(batchSize, backwards)))
  {
    BatchIsNext(s, batchSize, backwards);
    BatchEndsHighest(s, batchSize, backwards);
    DeliveringKeepsExactlyOnce(s, Batch(s, batchSize, backwards));
  }

  lemma DeliveringKeepsExactlyOnce(s: State, batch: seq<Message>)
    requires ExactlyOnce(s) && |s.delivered| + |batch| <= |Sourced(s.mailbox)|
    requires batch == Sourced(s.mailbox)[|s.delivered|..|s.delivered| + |batch|]
    ensures ExactlyOnce(s.(checkpoint := Max(s.checkpoint, LastUid(batch)), delivered := s.delivered + batch))
  {
    var n, all := |s.delivered|, Sourced(s.mailbox);
    SourcedIsMailbox(s.mailbox);
    assert all[..n] == s.delivered;
    LastOfParts(all, n, |batch|);
  }

  lemma StepKeepsExactlyOnce(s: State, e: Event)
    requires ExactlyOnce(s) && Allowed(s, e)
    ensures ExactlyOnce(Step(s, e))
  {
    match e
    case Arrive(m) => SourcedAppend(s.mailbox, m);
    case Poll(b, backwards) => PollKeepsExactlyOnce(s, b, backwards);
  }

  lemma {:induction false} RunKeepsExactlyOnce(events: seq<Event>)
    requires ValidRun(events)
    ensures ExactlyOnce(Run(events))
  {
    if events != [] {
      var front := events[..|events| - 1];
      RunKeepsExactlyOnce(front);
      StepKeepsExactlyOnce(Run(front), events[|events| - 1]);
    }
  }

  /** Over every run: delivered are exactly the messages with source up to the checkpoint, none twice. */
  lemma DeliveredExactlyOnce(events: seq<Event>)
    requires ValidRun(events)
    ensures var s := Run(events);
      && (forall m :: m in s.delivered <==> m in s.mailbox && m.hasSource && m.uid <= s.checkpoint)
      && (forall i, j :: 0 <= i < j < |s.delivered| ==> s.delivered[i].uid < s.delivered[j].uid)
  {
    var s := Run(events);
    RunKeepsExactlyOnce(events);
    SourcedIsMailbox(s.mailbox);
    assert s.delivered == Sourced(s.mailbox)[..|s.delivered|];
    FreshIsRest(s.mailbox, |s.delivered|);
    forall m ensures m in s.delivered <==> m in s.mailbox && m.hasSource && m.uid <= s.checkpoint {
      DeliveredIsUpToCheckpoint(s, m);
    }
  }

  lemma DeliveredIsUpToCheckpoint(s: State, m: Message)
    requires ExactlyOnce(s)
    ensures m in s.delivered <==> m in s.mailbox && m.hasSource && m.uid <= s.checkpoint
  {
    var n, all := |s.delivered|, Sourced(s.mailbox);
    SourcedIsMailbox(s.mailbox);
    SourcedMembers(s.mailbox, m);
    assert s.delivered == all[..n];
    if m in s.delivered {
      var i :| 0 <= i < n && all[i] == m;
      assert i < n - 1 ==> all[i].uid < all[n - 1].uid;
    } else if m in all {
      var i :| 0 <= i < |all| && all[i] == m;
      assert n > 0 ==> all[n - 1].uid < all[i].uid;
    }
  }

  /** A poll delivers its bound, or all that remains. */
  lemma PollDelivers(s: State, batchSize: nat, backwards: bool)
    requires ExactlyOnce(s)
    ensures var s' := Step(s, Poll(batchSize, backwards));
      && ExactlyOnce(s')
      && |s'.delivered| + Remaining(s') == |s.delivered| + Remaining(s)
      && Remaining(s') == Less(Remaining(s), Bound(batchSize))
      && |s'.delivered| - |s.delivered| ==
         (if Remaining(s) == 0 then 0
          else if batchSize <= 1 then 1
          else if Remaining(s) <= batchSize then Remaining(s)
          else batchSize)
  {
    BatchIsNext(s, batchSize, backwards);
    PollKeepsExactlyOnce(s, batchSize, backwards);
    BatchIsNext(Step(s, Poll(batchSize, backwards)), batchSize, backwards);
  }

  function Polls(s: State, batchSize: nat, k: nat): State
    decreases k
  {
    if k == 0 then s else Polls(Step(s, Poll(batchSize, true)), batchSize, k - 1)
  }

  /** What is left of `r` after `q` are taken away. */
  function Less(r: nat, q: int): nat {
    if r <= q then 0 else r - q
  }

  /** While no mail arrives, enough polls deliver everything. */
  lemma PollsDrain(s: State, batchSize: nat, k: nat)
    requires ExactlyOnce(s)
    ensures ExactlyOnce(Polls(s, batchSize, k))
    ensures Remaining(Polls(s, batchSize, k)) == Less(Remaining(s), k * Bound(batchSize))
  {
    PollsDrainInTurn(s, batchSize, k);
    DrainedIsLess(Remaining(s), Bound(batchSize), k);
  }

  /** What is left of `r` after `b` are taken away `k` times. */
  function Drained(r: nat, b: nat, k: nat): nat
    decreases k
  {
    if k == 0 then r else Drained(Less(r, b), b, k - 1)
  }

  lemma {:induction false} PollsDrainInTurn(s: State, batchSize: nat, k: nat)
    requires ExactlyOnce(s)
    ensures ExactlyOnce(Polls(s, batchSize, k))
    ensures Remaining(Polls(s, batchSize, k)) == Drained(Remaining(s), Bound(batchSize), k)
    decreases k
  {
    if k > 0 {
      PollDelivers(s, batchSize, true);
      PollsDrainInTurn(Step(s, Poll(batchSize, true)), batchSize, k - 1);
    }
  }

  lemma {:induction false} DrainedIsLess(r: nat, b: nat, k: nat)
    ensures Drained(r, b, k) == Less(r, k * b)
    decreases k
  {
    if k > 0 {
      DrainedIsLess(Less(r, b), b, k - 1);
      assert k * b == (k - 1) * b + b;
    }
  }

  // ---------------------------------------------------------------------------
  // Saving the highest UID as it is
  // ---------------------------------------------------------------------------

  /** The caller saves the highest UID of the fetch, whatever it is. */
  function SaveDirectly(s: State, batchSize: nat, backwards: bool): State {
    var batch := Batch(s, batchSize, backwards);
    s.(checkpoint := HighestUid(batch), delivered := s.delivered + batch)
  }

  /** That is the same as a poll unless the fetch is empty and something was delivered before. */
  lemma DirectSaveIsPoll(s: State, batchSize: nat, backwards: bool)
    requires ExactlyOnce(s)
    ensures SaveDirectly(s, batchSize, backwards) == Step(s, Poll(batchSize, backwards)) <==>
      Remaining(s) > 0 || s.delivered == []
    ensures SaveDirectly(s, batchSize, backwards) == Step(s, Poll(batchSize, backwards)) <==>
      ExactlyOnce(SaveDirectly(s, batchSize, backwards))
  {
    BatchIsNext(s, batchSize, backwards);
    PollKeepsExactlyOnce(s, batchSize, backwards);
    SourcedIsMailbox(s.mailbox);
    assert Batch(s, batchSize, backwards) == [] ==> s.delivered + Batch(s, batchSize, backwards) == s.delivered;
    assert s.delivered == Sourced(s.mailbox)[..|s.delivered|];
    assert s.delivered != [] ==> s.checkpoint >= 1;
  }

  /** Otherwise the next fetch delivers the first message a second time. */
  lemma DirectSaveDeliversTwice(s: State, batchSize: nat, backwards: bool)
    requires ExactlyOnce(s) && Remaining(s) == 0 && s.delivered != []
    ensures var s' := SaveDirectly(s, batchSize, backwards);
      Batch(s', batchSize, backwards) != [] && Batch(s', batchSize, backwards)[0] == s.delivered[0]
  {
    BatchIsNext(s, batchSize, backwards);
    var s' := SaveDirectly(s, batchSize, backwards);
    assert s'.checkpoint == 0;
    FreshOfResponse(s.mailbox, 0, backwards);
    AllFresh(s.mailbox, 0);
  }
}
