/**
  The bridge relayer: a cursor over the source chain, advanced before the block
  is fetched, with every fetch able to raise. The chain maps block numbers to
  their contents; each round's head, and whether each fetch raises, are arbitrary.
 */
module Relayer {
  import opened Prelude

  /** An event log of the bridge; `isSend` marks `SendRemoteMessage`. */
  datatype Log = Log(isSend: bool, targetChainId: nat, targetAddress: nat, sourceAddress: nat,
                     msgValue: nat, msgNonce: nat, msgData: seq<byte>)

  /** Transaction recipients, and the bridge's logs by event kind in ABI order. */
  datatype Block = Block(recipients: seq<nat>, events: seq<seq<Log>>)

  /** The arguments of a `relayMessage` call. */
  datatype Message = Message(targetAddress: nat, sourceChainId: nat, sourceAddress: nat,
                             value: nat, nonce: nat, data: seq<byte>)

  /** A call, labelled with where its log came from. */
  datatype Submission = Submission(block: nat, event: nat, position: nat, message: Message)

  datatype Bridge = Bridge(chain: nat -> Block, contract: nat, srcChainId: nat, dstChainId: nat)

  // ---- What a block asks for ----

  function MessageOf(bridge: Bridge, log: Log): Message {
    Message(log.targetAddress, bridge.srcChainId, log.sourceAddress, log.msgValue, log.msgNonce, log.msgData)
  }

  function Select(bridge: Bridge, b: nat, e: nat, logs: seq<Log>): seq<Submission> {
    if logs == [] then []
    else
      var n := |logs| - 1;
      Select(bridge, b, e, logs[..n]) +
      (if logs[n].isSend && logs[n].targetChainId == bridge.dstChainId
       then [Submission(b, e, n, MessageOf(bridge, logs[n]))] else [])
  }

  function SelectAll(bridge: Bridge, b: nat, events: seq<seq<Log>>): seq<Submission> {
    if events == [] then []
    else
      var n := |events| - 1;
      SelectAll(bridge, b, events[..n]) + Select(bridge, b, n, events[n])
  }

  /** Only blocks with a direct transaction to the bridge are searched for logs. */
  function Wanted(bridge: Bridge, b: nat): seq<Submission> {
    if bridge.contract in bridge.chain(b).recipients
    then SelectAll(bridge, b, bridge.chain(b).events) else []
  }

  /**
    What the relayer is for, said of one submission: its log is a message event for
    the destination chain, in a block with a direct transaction to the bridge, and
    the call carries that log's data under the source chain's id.
   */
  ghost predicate Due(bridge: Bridge, s: Submission) {
    var block := bridge.chain(s.block);
    && bridge.contract in block.recipients
    && s.event < |block.events| && s.position < |block.events[s.event]|
    && var log := block.events[s.event][s.position];
       && log.isSend
       && log.targetChainId == bridge.dstChainId
       && s.message.targetAddress == log.targetAddress
       && s.message.sourceChainId == bridge.srcChainId
       && s.message.sourceAddress == log.sourceAddress
       && s.message.value == log.msgValue
       && s.message.nonce == log.msgNonce
       && s.message.data == log.msgData
  }

  lemma {:induction false} SelectExactly(bridge: Bridge, b: nat, e: nat, logs: seq<Log>, s: Submission)
    ensures s in Select(bridge, b, e, logs) <==>
              && s.block == b && s.event == e && s.position < |logs|
              && logs[s.position].isSend && logs[s.position].targetChainId == bridge.dstChainId
              && s.message == MessageOf(bridge, logs[s.position])
  {
    if logs != [] {
      SelectExactly(bridge, b, e, logs[..|logs| - 1], s);
    }
  }

  lemma {:induction false} SelectAllExactly(bridge: Bridge, b: nat, events: seq<seq<Log>>, s: Submission)
    ensures s in SelectAll(bridge, b, events) <==>
              && s.event < |events| && s in Select(bridge, b, s.event, events[s.event])
  {
    if events != [] {
      hide Select;
      var n := |events| - 1;
      SelectAllExactly(bridge, b, events[..n], s);
      if s in Select(bridge, b, n, events[n]) {
        SelectEvent(bridge, b, n, events[n], s);
      }
    }
  }

  lemma SelectEvent(bridge: Bridge, b: nat, e: nat, logs: seq<Log>, s: Submission)
    requires s in Select(bridge, b, e, logs)
    ensures s.event == e
  {
    SelectExactly(bridge, b, e, logs, s);
  }

  /** A block wants exactly the submissions due for it. */
  lemma WantedExactly(bridge: Bridge, b: nat, s: Submission)
    ensures s in Wanted(bridge, b) <==> s.block == b && Due(bridge, s)
  {
    hide Select, SelectAll;
    var events := bridge.chain(b).events;
    SelectAllExactly(bridge, b, events, s);
    if s.event < |events| {
      SelectExactly(bridge, b, s.event, events[s.event], s);
    }
  }

  // ---- What a run did ----

  /** One pass over a block: the fetches it made, by number, and what was submitted. */
  datatype Visit = Visit(block: nat, first: nat, end: nat, sent: seq<Submission>) {
    ghost predicate Clean(raises: nat -> bool) { Quiet(raises, first, end) }
  }

  ghost predicate Quiet(raises: nat -> bool, first: nat, end: nat) {
    forall f :: first <= f < end ==> !raises(f)
  }

  function AllSent(visits: seq<Visit>): seq<Submission> {
    if visits == [] then [] else AllSent(visits[..|visits| - 1]) + visits[|visits| - 1].sent
  }

  ghost predicate NothingRaises(raises: nat -> bool) {
    forall f :: !raises(f)
  }

  /**
    One round from cursor `was` to `now`: without a head nothing happens, a head
    behind the cursor only moves it back, and otherwise the blocks after the
    cursor are visited one by one, to the head at most.
   */
  ghost predicate Advanced(before: seq<Visit>, after: seq<Visit>, head: Option<nat>, was: int, now: int) {
    && before <= after
    && (head.None? ==> now == was && after == before)
    && (head.Some? && was > head.value ==> now == head.value && after == before)
    && (head.Some? && was <= head.value ==>
          && was <= now <= head.value && |after| - |before| == now - was
          && (forall k :: |before| <= k < |after| ==> after[k].block == was + 1 + (k - |before|)))
  }

  /** The transactions fetched: up to the first that goes to the bridge, or all. */
  function Searched(contract: nat, recipients: seq<nat>): nat {
    if recipients == [] then 0
    else if recipients[0] == contract then 1
    else 1 + Searched(contract, recipients[1..])
  }

  /** All the fetches a block takes: itself, transactions, and its logs by event kind. */
  function FetchesFor(bridge: Bridge, b: nat): nat {
    var block := bridge.chain(b);
    1 + Searched(bridge.contract, block.recipients) +
    (if bridge.contract in block.recipients then |block.events| else 0)
  }

  /** What is out after k fetches of block b have succeeded. */
  function SentAfter(bridge: Bridge, b: nat, k: nat): seq<Submission> {
    var block := bridge.chain(b);
    var search := 1 + Searched(bridge.contract, block.recipients);
    if k <= search || k - search > |block.events| then []
    else SelectAll(bridge, b, block.events[..k - search])
  }

  /**
    A clean visit makes all fetches and submits all that is wanted; otherwise the
    visit ends with its first raising fetch, having submitted what the fetches
    before it brought.
   */
  ghost predicate Honest(bridge: Bridge, raises: nat -> bool, v: Visit) {
    && v.first < v.end
    && v.sent <= Wanted(bridge, v.block)
    && (v.Clean(raises) ==>
          v.sent == Wanted(bridge, v.block) && v.end - v.first == FetchesFor(bridge, v.block))
    && (!v.Clean(raises) ==>
          && Quiet(raises, v.first, v.end - 1) && v.end - v.first <= FetchesFor(bridge, v.block)
          && v.sent == SentAfter(bridge, v.block, v.end - 1 - v.first))
  }

  /** The visits divide the fetches among themselves, in order. */
  ghost predicate Chained(visits: seq<Visit>, fetches: nat) {
    && (visits == [] ==> fetches == 0)
    && (visits != [] ==> visits[0].first == 0 && visits[|visits| - 1].end == fetches)
    && (forall k :: 0 <= k < |visits| ==> visits[k].first < visits[k].end)
    && (forall j, k :: 0 <= j < k < |visits| && k == j + 1 ==> visits[k].first == visits[j].end)
  }

  class Relayer {
    const bridge: Bridge
    const raises: nat -> bool
    var fetches: nat
    var lastProcessed: int
    var sent: seq<Submission>
    ghost var visits: seq<Visit>

    ghost predicate Valid()
      reads this
    {
      && sent == AllSent(visits)
      && Chained(visits, fetches)
      && forall k :: 0 <= k < |visits| ==> Honest(bridge, raises, visits[k])
    }

    /** `_init`: the cursor starts at the current head. */
    constructor (bridge: Bridge, raises: nat -> bool, head: nat)
      ensures Valid() && lastProcessed == head && sent == [] && visits == []
      ensures this.bridge == bridge && this.raises == raises
    {
      this.bridge, this.raises, fetches := bridge, raises, 0;
      lastProcessed, sent, visits := head, [], [];
    }

    method Fetch() returns (ok: bool)
      modifies this`fetches
      ensures fetches == old(fetches) + 1 && ok == !raises(old(fetches))
    {
      ok := !raises(fetches);
      fetches := fetches + 1;
    }

    /** `event_log_handler`: errors of the submission itself are swallowed. */
    method HandleLogs(b: nat, e: nat, logs: seq<Log>)
      modifies this`sent
      ensures sent == old(sent) + Select(bridge, b, e, logs)
      ensures forall s :: s in sent[|old(sent)|..] <==>
                && s.block == b && s.event == e && s.position < |logs|
                && logs[s.position].isSend && logs[s.position].targetChainId == bridge.dstChainId
                && s.message == MessageOf(bridge, logs[s.position])
    {
      for j := 0 to |logs|
        invariant sent == old(sent) + Select(bridge, b, e, logs[..j])
      {
        assert logs[..j + 1][..j] == logs[..j];
        if logs[j].isSend {
          if bridge.dstChainId == logs[j].targetChainId {
            sent := sent + [Submission(b, e, j, MessageOf(bridge, logs[j]))];
          }
        }
      }
      assert logs[..|logs|] == logs;
      assert sent[|old(sent)|..] == Select(bridge, b, e, logs);
      forall s
        ensures s in Select(bridge, b, e, logs) <==>
                  && s.block == b && s.event == e && s.position < |logs|
                  && logs[s.position].isSend && logs[s.position].targetChainId == bridge.dstChainId
                  && s.message == MessageOf(bridge, logs[s.position])
      {
        SelectExactly(bridge, b, e, logs, s);
      }
    }

    /** Looks for a transaction to the bridge, stopping at the first. */
    method FindDirect(recipients: seq<nat>) returns (ok: bool, found: bool)
      modifies this`fetches
      ensures old(fetches) <= fetches && ok == Quiet(raises, old(fetches), fetches)
      ensures ok ==> (found <==> bridge.contract in recipients)
      ensures ok ==> fetches == old(fetches) + Searched(bridge.contract, recipients)
      ensures !ok ==> !found && old(fetches) < fetches <= old(fetches) + Searched(bridge.contract, recipients)
      ensures !ok ==> Quiet(raises, old(fetches), fetches - 1)
    {
      found := false;
      for j := 0 to |recipients|
        invariant bridge.contract !in recipients[..j]
        invariant fetches == old(fetches) + j && Quiet(raises, old(fetches), fetches)
        invariant Searched(bridge.contract, recipients) == j + Searched(bridge.contract, recipients[j..])
      {
        assert recipients[j..][1..] == recipients[j + 1..];
        ok := Fetch();
        if !ok { return; }
        if recipients[j] == bridge.contract { return true, true; }
      }
      ok := true;
    }

    /** Fetches the logs of one event kind after the other. */
    method HandleEvents(b: nat, events: seq<seq<Log>>) returns (ok: bool, ghost piece: seq<Submission>)
      modifies this`fetches, this`sent
      ensures old(fetches) <= fetches && ok == Quiet(raises, old(fetches), fetches)
      ensures sent == old(sent) + piece && piece <= SelectAll(bridge, b, events)
      ensures ok ==> piece == SelectAll(bridge, b, events) && fetches == old(fetches) + |events|
      ensures !ok ==> old(fetches) < fetches <= old(fetches) + |events|
      ensures !ok ==> Quiet(raises, old(fetches), fetches - 1)
      ensures !ok ==> piece == SelectAll(bridge, b, events[..fetches - 1 - old(fetches)])
    {
      hide SelectAll, Select;
      SelectAllNothing(bridge, b, events);
      piece := [];
      for e := 0 to |events|
        invariant piece == SelectAll(bridge, b, events[..e]) && sent == old(sent) + piece
        invariant fetches == old(fetches) + e && Quiet(raises, old(fetches), fetches)
      {
        ok := Fetch();
        if !ok {
          SelectAllPrefix(bridge, b, events, e);
          return;
        }
        SelectAllStep(bridge, b, events, e);
        HandleLogs(b, e, events[e]);
        ghost var more := Select(bridge, b, e, events[e]);
        assert (old(sent) + piece) + more == old(sent) + (piece + more);
        piece := piece + more;
      }
      ok := true;
      SelectAllPrefix(bridge, b, events, |events|);
    }

    /** Fetches a block and, if a transaction goes to the bridge, its logs. */
    method FetchBlock(b: nat) returns (ok: bool, ghost piece: seq<Submission>)
      modifies this`fetches, this`sent
      ensures sent == old(sent) + piece
      ensures Honest(bridge, raises, Visit(b, old(fetches), fetches, piece))
      ensures ok == Quiet(raises, old(fetches), fetches)
    {
      hide SelectAll, Searched;
      var block := bridge.chain(b);
      piece := [];
      SelectAllNothing(bridge, b, block.events);
      ok := Fetch();
      if ok {
        var found;
        ok, found := FindDirect(block.recipients);
        if found {
          ok, piece := HandleEvents(b, block.events);
        }
      }
    }

    /** The body of the block loop. */
    method ProcessBlock(b: nat) returns (ok: bool)
      requires Valid()
      modifies this
      ensures Valid() && lastProcessed == b && |visits| == |old(visits)| + 1
      ensures visits[..|old(visits)|] == old(visits)
      ensures visits[|old(visits)|].block == b && visits[|old(visits)|].Clean(raises) == ok
    {
      hide AllSent, Chained;
      lastProcessed := b;
      ghost var piece;
      ok, piece := FetchBlock(b);
      ghost var v := Visit(b, old(fetches), fetches, piece);
      AllSentSnoc(visits, v);
      ChainedSnoc(visits, v);
      visits := visits + [v];
    }

    /** One turn of the run loop; `head` is None when asking for it raised. */
    method Round(head: Option<nat>)
      requires Valid() && lastProcessed >= -1
      modifies this
      ensures Valid() && lastProcessed >= -1
      ensures old(visits) <= visits
      ensures Advanced(old(visits), visits, head, old(lastProcessed), lastProcessed)
      ensures forall k :: |old(visits)| <= k < |visits| - 1 ==> visits[k].Clean(raises)
      ensures head.Some? && lastProcessed < head.value ==>
                |old(visits)| < |visits| && !visits[|visits| - 1].Clean(raises)
    {
      hide AllSent, Chained, Honest;
      if head.None? { return; }
      var latest := head.value;
      if lastProcessed > latest {
        lastProcessed := latest;
      }
      ghost var base := lastProcessed;
      var i := lastProcessed + 1;
      while i <= latest
        invariant Valid() && base + 1 <= i <= latest + 1 && lastProcessed == i - 1
        invariant old(visits) <= visits && |visits| - |old(visits)| == lastProcessed - base
        invariant forall k :: |old(visits)| <= k < |visits| ==>
                    visits[k].block == base + 1 + (k - |old(visits)|)
        invariant base == latest ==> visits == old(visits)
        invariant forall k :: |old(visits)| <= k < |visits| ==> visits[k].Clean(raises)
      {
        ghost var before := visits;
        var ok := ProcessBlock(i);
        assert visits == before + [visits[|before|]];
        i := i + 1;
        if !ok { break; }
      }
    }
  }

  // ---- Selections ----

  lemma SelectAllStep(bridge: Bridge, b: nat, events: seq<seq<Log>>, e: nat)
    requires e < |events|
    ensures SelectAll(bridge, b, events[..e + 1]) ==
            SelectAll(bridge, b, events[..e]) + Select(bridge, b, e, events[e])
  {
    assert events[..e + 1][..e] == events[..e];
  }

  lemma {:induction false} SelectAllPrefix(bridge: Bridge, b: nat, events: seq<seq<Log>>, e: nat)
    requires e <= |events|
    ensures SelectAll(bridge, b, events[..e]) <= SelectAll(bridge, b, events)
    ensures e == |events| ==> SelectAll(bridge, b, events[..e]) == SelectAll(bridge, b, events)
  {
    if e == |events| {
      assert events[..e] == events;
    } else {
      var n := |events| - 1;
      SelectAllPrefix(bridge, b, events[..n], e);
      assert events[..n][..e] == events[..e];
    }
  }

  lemma SelectAllNothing(bridge: Bridge, b: nat, events: seq<seq<Log>>)
    ensures SelectAll(bridge, b, events[..0]) == []
  {
  }

  lemma AllSentSnoc(visits: seq<Visit>, v: Visit)
    ensures AllSent(visits + [v]) == AllSent(visits) + v.sent
  {
    assert (visits + [v])[..|visits|] == visits;
  }

  lemma ChainedSnoc(visits: seq<Visit>, v: Visit)
    requires Chained(visits, v.first) && v.first < v.end
    ensures Chained(visits + [v], v.end)
  {
  }

  // ---- Order ----

  predicate Before(s: Submission, t: Submission) {
    || s.block < t.block
    || (s.block == t.block && s.event < t.event)
    || (s.block == t.block && s.event == t.event && s.position < t.position)
  }

  ghost predicate Ordered(ss: seq<Submission>) {
    forall i, j :: 0 <= i < j < |ss| ==> Before(ss[i], ss[j])
  }

  lemma {:induction false} SelectOrdered(bridge: Bridge, b: nat, e: nat, logs: seq<Log>)
    ensures var ss := Select(bridge, b, e, logs);
            Ordered(ss) && forall s :: s in ss ==> s.block == b && s.event == e && s.position < |logs|
  {
    if logs != [] {
      SelectOrdered(bridge, b, e, logs[..|logs| - 1]);
    }
  }

  lemma {:induction false} SelectAllOrdered(bridge: Bridge, b: nat, events: seq<seq<Log>>)
    ensures var ss := SelectAll(bridge, b, events);
            Ordered(ss) && forall s :: s in ss ==> s.block == b && s.event < |events|
  {
    if events != [] {
      var n := |events| - 1;
      SelectAllOrdered(bridge, b, events[..n]);
      SelectOrdered(bridge, b, n, events[n]);
    }
  }

  lemma WantedOrdered(bridge: Bridge, b: nat)
    ensures Ordered(Wanted(bridge, b))
    ensures forall s :: s in Wanted(bridge, b) ==> s.block == b
  {
    SelectAllOrdered(bridge, b, bridge.chain(b).events);
  }

  /** Blocks visited once each, in order, from the one after the start head. */
  ghost predicate Consecutive(visits: seq<Visit>, start: nat) {
    forall k :: 0 <= k < |visits| ==> visits[k].block == start + 1 + k
  }

  lemma {:induction false} SentOrdered(bridge: Bridge, raises: nat -> bool, visits: seq<Visit>, start: nat)
    requires Consecutive(visits, start)
    requires forall k :: 0 <= k < |visits| ==> Honest(bridge, raises, visits[k])
    ensures Ordered(AllSent(visits))
    ensures forall s :: s in AllSent(visits) ==> start < s.block <= start + |visits|
  {
    if visits != [] {
      var n := |visits| - 1;
      var v := visits[n];
      SentOrdered(bridge, raises, visits[..n], start);
      WantedOrdered(bridge, v.block);
      assert forall j :: 0 <= j < |v.sent| ==> v.sent[j] == Wanted(bridge, v.block)[j];
      assert forall s :: s in v.sent ==> s.block == v.block;
    }
  }

  lemma {:induction false} VisitSent(visits: seq<Visit>, k: nat, s: Submission)
    requires k < |visits| && s in visits[k].sent
    ensures s in AllSent(visits)
  {
    var n := |visits| - 1;
    if k < n {
      VisitSent(visits[..n], k, s);
    }
  }

  lemma {:induction false} SentByVisit(visits: seq<Visit>, s: Submission) returns (k: nat)
    requires s in AllSent(visits)
    ensures k < |visits| && s in visits[k].sent
  {
    var n := |visits| - 1;
    if s in visits[n].sent {
      k := n;
    } else {
      k := SentByVisit(visits[..n], s);
    }
  }

  /** The heads seen never go back, and never below the starting one. */
  ghost predicate NeverBack(heads: seq<Option<nat>>, start: nat) {
    && (forall r :: 0 <= r < |heads| && heads[r].Some? ==> start <= heads[r].value)
    && (forall q, r :: 0 <= q < r < |heads| && heads[q].Some? && heads[r].Some? ==>
          heads[q].value <= heads[r].value)
  }

  /** What a block wanted was submitted exactly when its visit got that far. */
  ghost predicate Complete(bridge: Bridge, sent: seq<Submission>, v: Visit) {
    forall s: Submission :: s.block == v.block && Due(bridge, s) ==> (s in sent <==> s in v.sent)
  }

  lemma SentExactly(bridge: Bridge, raises: nat -> bool, visits: seq<Visit>, start: nat, k: nat)
    requires Consecutive(visits, start) && k < |visits|
    requires forall k :: 0 <= k < |visits| ==> Honest(bridge, raises, visits[k])
    ensures Complete(bridge, AllSent(visits), visits[k])
    ensures visits[k].Clean(raises) ==>
              forall s: Submission :: s.block == visits[k].block && Due(bridge, s) ==> s in AllSent(visits)
  {
    var v := visits[k];
    forall s: Submission | s.block == v.block && Due(bridge, s)
      ensures s in AllSent(visits) <==> s in v.sent
      ensures s in Wanted(bridge, v.block)
    {
      WantedExactly(bridge, v.block, s);
      if s in v.sent {
        VisitSent(visits, k, s);
      }
      if s in AllSent(visits) {
        var k' := SentByVisit(visits, s);
        assert s in Wanted(bridge, visits[k'].block);
        WantedExactly(bridge, visits[k'].block, s);
        assert k' == k;
      }
    }
  }

  // ---- How often the heads cross a block ----

  /** Where the cursor stands after these heads if nothing raises: at the last one seen. */
  function Cursor(heads: seq<Option<nat>>, start: nat): nat {
    if heads == [] then start
    else
      var n := |heads| - 1;
      if heads[n].Some? then heads[n].value else Cursor(heads[..n], start)
  }

  /** How many times the heads move from below block b to b or beyond. */
  function Crossings(heads: seq<Option<nat>>, start: nat, b: nat): nat {
    if heads == [] then 0
    else
      var n := |heads| - 1;
      Crossings(heads[..n], start, b) +
      (if heads[n].Some? && Cursor(heads[..n], start) < b <= heads[n].value then 1 else 0)
  }

  lemma CrossingsSnoc(heads: seq<Option<nat>>, head: Option<nat>, start: nat, b: nat)
    ensures Cursor(heads + [head], start) == if head.Some? then head.value else Cursor(heads, start)
    ensures Crossings(heads + [head], start, b) == Crossings(heads, start, b) +
            if head.Some? && Cursor(heads, start) < b <= head.value then 1 else 0
  {
    assert (heads + [head])[..|heads|] == heads;
  }

  /** No block that wants a submission is crossed twice. */
  ghost predicate CrossedOnce(bridge: Bridge, heads: seq<Option<nat>>, start: nat) {
    forall s :: Due(bridge, s) ==> Crossings(heads, start, s.block) <= 1
  }

  lemma {:induction false} PassedIsCrossed(heads: seq<Option<nat>>, start: nat, b: nat)
    requires start < b <= Cursor(heads, start)
    ensures Crossings(heads, start, b) >= 1
  {
    var n := |heads| - 1;
    if b <= Cursor(heads[..n], start) {
      PassedIsCrossed(heads[..n], start, b);
    }
  }

  function VisitCount(visits: seq<Visit>, b: nat): nat {
    if visits == [] then 0
    else
      var n := |visits| - 1;
      VisitCount(visits[..n], b) + (if visits[n].block == b then 1 else 0)
  }

  /** A block the heads have crossed and the cursor, held up by raises, has yet to reach. */
  function Owed(cursor: int, ideal: int, b: nat): nat {
    if cursor < b <= ideal then 1 else 0
  }

  lemma {:induction false} CountConsecutive(visits: seq<Visit>, n: nat, was: int, b: nat)
    requires n <= |visits|
    requires forall k :: n <= k < |visits| ==> visits[k].block == was + 1 + (k - n)
    ensures VisitCount(visits, b) ==
            VisitCount(visits[..n], b) + (if was < b <= was + (|visits| - n) then 1 else 0)
  {
    if n == |visits| {
      assert visits[..n] == visits;
    } else {
      var last := |visits| - 1;
      CountConsecutive(visits[..last], n, was, b);
      assert visits[..last][..n] == visits[..n];
    }
  }

  /** A round visits b or comes to owe it only against a crossing of b. */
  lemma RoundCounts(before: seq<Visit>, after: seq<Visit>, heads: seq<Option<nat>>, head: Option<nat>,
                    start: nat, was: int, now: int, b: nat)
    requires Advanced(before, after, head, was, now) && was <= Cursor(heads, start)
    ensures var next := heads + [head];
            var ideal, ideal' := Cursor(heads, start), Cursor(next, start);
            var gained := Crossings(next, start, b) - Crossings(heads, start, b);
            && now <= ideal'
            && VisitCount(after, b) + Owed(now, ideal', b)
               <= VisitCount(before, b) + Owed(was, ideal, b) + gained
            && (was == ideal && now == ideal' ==> VisitCount(after, b) == VisitCount(before, b) + gained)
  {
    CrossingsSnoc(heads, head, start, b);
    if head.Some? && was <= head.value {
      CountConsecutive(after, |before|, was, b);
      assert after[..|before|] == before;
    }
  }

  ghost predicate Counted(visits: seq<Visit>, heads: seq<Option<nat>>, start: nat, cursor: int) {
    && cursor <= Cursor(heads, start)
    && forall b: nat ::
         VisitCount(visits, b) + Owed(cursor, Cursor(heads, start), b) <= Crossings(heads, start, b)
  }

  ghost predicate UpToDate(visits: seq<Visit>, heads: seq<Option<nat>>, start: nat, cursor: int) {
    && cursor == Cursor(heads, start)
    && forall b: nat :: VisitCount(visits, b) == Crossings(heads, start, b)
  }

  lemma CountedStep(before: seq<Visit>, after: seq<Visit>, heads: seq<Option<nat>>, head: Option<nat>,
                    start: nat, was: int, now: int)
    requires Advanced(before, after, head, was, now) && Counted(before, heads, start, was)
    ensures Counted(after, heads + [head], start, now)
    ensures UpToDate(before, heads, start, was) && now == Cursor(heads + [head], start) ==>
              UpToDate(after, heads + [head], start, now)
  {
    hide VisitCount, Crossings, Advanced;
    RoundCounts(before, after, heads, head, start, was, now, 0);
    var next := heads + [head];
    forall b: nat
      ensures VisitCount(after, b) + Owed(now, Cursor(next, start), b) <= Crossings(next, start, b)
      ensures UpToDate(before, heads, start, was) && now == Cursor(next, start) ==>
                VisitCount(after, b) == Crossings(next, start, b)
    {
      RoundCounts(before, after, heads, head, start, was, now, b);
    }
  }

  // ---- How often a log is submitted ----

  ghost predicate NoRepeats(ss: seq<Submission>) {
    forall i, j :: 0 <= i < j < |ss| ==> ss[i] != ss[j]
  }

  lemma {:induction false} NoRepeatsTimes(ss: seq<Submission>)
    requires NoRepeats(ss)
    ensures forall s :: multiset(ss)[s] == if s in ss then 1 else 0
  {
    if ss != [] {
      var n := |ss| - 1;
      NoRepeatsTimes(ss[..n]);
      assert ss == ss[..n] + [ss[n]];
    }
  }

  lemma RepeatTimes(ss: seq<Submission>, i: nat, j: nat)
    requires i < j < |ss| && ss[i] == ss[j]
    ensures multiset(ss)[ss[i]] >= 2
  {
    assert ss == ss[..j] + ss[j..];
    assert ss[i] in ss[..j] && ss[j..][0] == ss[i];
  }

  lemma VisitTimes(bridge: Bridge, raises: nat -> bool, v: Visit, s: Submission)
    requires Honest(bridge, raises, v)
    ensures multiset(v.sent)[s] <= if v.block == s.block then 1 else 0
    ensures s in v.sent ==> Due(bridge, s)
    ensures v.Clean(raises) && s.block == v.block && Due(bridge, s) ==> multiset(v.sent)[s] == 1
  {
    WantedOrdered(bridge, v.block);
    WantedExactly(bridge, v.block, s);
    assert forall j :: 0 <= j < |v.sent| ==> v.sent[j] == Wanted(bridge, v.block)[j];
    NoRepeatsTimes(v.sent);
  }

  /** A log goes out at most once per visit of its block, and exactly so without raises. */
  lemma {:induction false} TimesSent(bridge: Bridge, raises: nat -> bool, visits: seq<Visit>, s: Submission)
    requires forall k :: 0 <= k < |visits| ==> Honest(bridge, raises, visits[k])
    ensures multiset(AllSent(visits))[s] <= VisitCount(visits, s.block)
    ensures s in AllSent(visits) ==> Due(bridge, s)
    ensures NothingRaises(raises) && Due(bridge, s) ==>
              multiset(AllSent(visits))[s] == VisitCount(visits, s.block)
  {
    if visits != [] {
      hide Honest, Wanted, Due;
      var n := |visits| - 1;
      TimesSent(bridge, raises, visits[..n], s);
      VisitTimes(bridge, raises, visits[n], s);
      assert multiset(AllSent(visits))[s] == multiset(AllSent(visits[..n]))[s] + multiset(visits[n].sent)[s];
    }
  }

  /** Submissions counted against the heads alone. */
  ghost predicate SentPerCrossing(bridge: Bridge, raises: nat -> bool, sent: seq<Submission>,
                                  heads: seq<Option<nat>>, start: nat) {
    forall s ::
      && multiset(sent)[s] <= Crossings(heads, start, s.block)
      && (s in sent ==> Due(bridge, s))
      && (NothingRaises(raises) && Due(bridge, s) ==>
            multiset(sent)[s] == Crossings(heads, start, s.block))
  }

  /** The condition on heads and chain under which no log goes out twice. */
  lemma RepeatsExactly(bridge: Bridge, raises: nat -> bool, sent: seq<Submission>,
                       heads: seq<Option<nat>>, start: nat)
    requires SentPerCrossing(bridge, raises, sent, heads, start)
    ensures CrossedOnce(bridge, heads, start) ==> NoRepeats(sent)
    ensures NothingRaises(raises) ==> (NoRepeats(sent) <==> CrossedOnce(bridge, heads, start))
  {
    hide Crossings, Due;
    if CrossedOnce(bridge, heads, start) {
      forall i, j | 0 <= i < j < |sent|
        ensures sent[i] != sent[j]
      {
        if sent[i] == sent[j] {
          RepeatTimes(sent, i, j);
        }
      }
    }
    if NothingRaises(raises) && NoRepeats(sent) {
      NoRepeatsTimes(sent);
      forall s | Due(bridge, s)
        ensures Crossings(heads, start, s.block) <= 1
      {
        assert multiset(sent)[s] <= 1;
      }
    }
  }

  // ---- Whole runs ----

  /**
    Every run, with fetches raising anywhere. A wanted log goes out at most as
    often as the heads cross its block, and exactly as often when nothing raises;
    so none goes out twice if no block that wants one is crossed twice, and only
    then unless fetches raise. Over heads that never go back, submissions are in
    block order, each block from the start head to the cursor was visited once, a
    clean visit submitted everything the block asked for, and a raising fetch cost
    logs of its own block only.
   */
  method Run(bridge: Bridge, raises: nat -> bool, start: nat, heads: seq<Option<nat>>)
    returns (r: Relayer)
    ensures r.Valid() && r.bridge == bridge && r.raises == raises
    ensures SentPerCrossing(bridge, raises, r.sent, heads, start)
    ensures CrossedOnce(bridge, heads, start) ==> NoRepeats(r.sent)
    ensures NothingRaises(raises) ==> (NoRepeats(r.sent) <==> CrossedOnce(bridge, heads, start))
    ensures NothingRaises(raises) ==> r.lastProcessed == Cursor(heads, start)
    ensures NothingRaises(raises) ==>
              forall s: Submission :: start < s.block <= Cursor(heads, start) && Due(bridge, s) ==> s in r.sent
    ensures NeverBack(heads, start) ==>
              && Consecutive(r.visits, start) && r.lastProcessed == start + |r.visits|
              && Ordered(r.sent)
              && (forall k :: 0 <= k < |r.visits| ==> Complete(bridge, r.sent, r.visits[k]))
              && (forall k :: 0 <= k < |r.visits| && r.visits[k].Clean(raises) ==>
                    forall s: Submission :: s.block == r.visits[k].block && Due(bridge, s) ==> s in r.sent)
              && (forall s :: s in r.sent ==> start < s.block <= r.lastProcessed)
  {
    r := RunRounds(bridge, raises, start, heads);
    hide Honest, Chained, AllSent, Crossings, VisitCount;
    forall s: Submission
      ensures multiset(r.sent)[s] <= Crossings(heads, start, s.block)
      ensures s in r.sent ==> Due(bridge, s)
      ensures NothingRaises(raises) && Due(bridge, s) ==>
                multiset(r.sent)[s] == Crossings(heads, start, s.block)
    {
      TimesSent(bridge, raises, r.visits, s);
    }
    RepeatsExactly(bridge, raises, r.sent, heads, start);
    forall s: Submission | NothingRaises(raises) && start < s.block <= Cursor(heads, start) && Due(bridge, s)
      ensures s in r.sent
    {
      PassedIsCrossed(heads, start, s.block);
      assert multiset(r.sent)[s] >= 1;
    }
    if NeverBack(heads, start) {
      SentOrdered(bridge, raises, r.visits, start);
      forall k | 0 <= k < |r.visits|
        ensures Complete(bridge, r.sent, r.visits[k])
        ensures r.visits[k].Clean(raises) ==>
                  forall s: Submission :: s.block == r.visits[k].block && Due(bridge, s) ==> s in r.sent
      {
        SentExactly(bridge, raises, r.visits, start, k);
      }
    }
  }

  /** The run loop, one round per head. */
  method RunRounds(bridge: Bridge, raises: nat -> bool, start: nat, heads: seq<Option<nat>>)
    returns (r: Relayer)
    ensures r.Valid() && r.bridge == bridge && r.raises == raises
    ensures Counted(r.visits, heads, start, r.lastProcessed)
    ensures NothingRaises(raises) ==> UpToDate(r.visits, heads, start, r.lastProcessed)
    ensures NeverBack(heads, start) ==>
              Consecutive(r.visits, start) && r.lastProcessed == start + |r.visits|
  {
    hide Honest, Chained, AllSent, Crossings, VisitCount, Counted;
    r := new Relayer(bridge, raises, start);
    CountedNothing(start);
    assert heads[..0] == [];
    for i := 0 to |heads|
      invariant fresh(r) && r.Valid() && r.bridge == bridge && r.raises == raises && r.lastProcessed >= -1
      invariant Counted(r.visits, heads[..i], start, r.lastProcessed)
      invariant NothingRaises(raises) ==> UpToDate(r.visits, heads[..i], start, r.lastProcessed)
      invariant NeverBack(heads, start) ==>
                  && Consecutive(r.visits, start) && r.lastProcessed == start + |r.visits|
                  && forall q :: i <= q < |heads| && heads[q].Some? ==> r.lastProcessed <= heads[q].value
    {
      ghost var before, was := r.visits, r.lastProcessed;
      r.Round(heads[i]);
      CountedStep(before, r.visits, heads[..i], heads[i], start, was, r.lastProcessed);
      assert heads[..i + 1] == heads[..i] + [heads[i]];
      assert heads[..i + 1][..i] == heads[..i];
    }
    assert heads[..|heads|] == heads;
  }

  lemma CountedNothing(start: nat)
    ensures Counted([], [], start, start) && UpToDate([], [], start, start)
  {
  }

  /** A head that goes back and forth again makes a log go out twice. */
  method RewindRepeats(log: Log) returns (r: Relayer)
    requires log.isSend
    ensures r.Valid() && !NoRepeats(r.sent)
  {
    var block := Block([7], [[log]]);
    var bridge := Bridge(_ => block, 7, 1, log.targetChainId);
    var heads := [Some(1), Some(0), Some(1)];
    assert Due(bridge, Submission(1, 0, 0, MessageOf(bridge, log)));
    CrossingsSnoc([], Some(1), 0, 1);
    CrossingsSnoc([Some(1)], Some(0), 0, 1);
    CrossingsSnoc([Some(1), Some(0)], Some(1), 0, 1);
    assert [] + [Some(1)] == [Some(1)] && [Some(1)] + [Some(0)] == [Some(1), Some(0)];
    assert [Some(1), Some(0)] + [Some(1)] == heads;
    r := Run(bridge, _ => false, 0, heads);
  }
}
