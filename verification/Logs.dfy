/**
  Log delivery in `anvil`: `filter_logs`, the pushing `LogsSubscription` and the
  pulled `LogsFilter`. A block listener is a script of poll results, one per
  poll; an exhausted script keeps answering Pending. Each notification carries
  what the storage answers for its block hash.
 */
module Logs {
  import opened Prelude

  type Hash = nat

  datatype Log = Log(address: nat, topics: seq<Hash>, data: seq<byte>)

  datatype Block = Block(number: nat, hash: Hash, transactions: seq<Hash>)

  type Receipts = seq<seq<Log>>

  datatype EthersLog = EthersLog(
    log: Log,
    blockHash: Hash,
    blockNumber: nat,
    transactionHash: Option<Hash>,
    transactionIndex: nat,
    logIndex: nat,
    transactionLogIndex: nat)

  /** The filter's four tests, which live in the `ethers` crate. */
  datatype FilteredParams = FilteredParams(
    hasFilter: bool,
    blockRange: nat -> bool,
    blockHash: Hash -> bool,
    address: Log -> bool,
    topics: Log -> bool)

  const U32_LIMIT: nat := 0x1_0000_0000

  /** `add_log`: without a filter every log passes. */
  predicate Matches(block: Block, params: FilteredParams, log: Log) {
    params.hasFilter ==>
      && params.blockRange(block.number)
      && params.blockHash(block.hash)
      && params.address(log)
      && params.topics(log)
  }

  // ---- Numbering first, filtering afterwards ----

  predicate Within(receipts: Receipts, at: (nat, nat)) {
    at.0 < |receipts| && at.1 < |receipts[at.0]|
  }

  /** Where each log of the block's flattened log list comes from. */
  function Positions(receipts: Receipts): (ps: seq<(nat, nat)>)
    ensures forall k :: 0 <= k < |ps| ==> Within(receipts, ps[k])
  {
    if receipts == [] then []
    else
      var i := |receipts| - 1;
      Positions(receipts[..i]) + seq(|receipts[i]|, j requires 0 <= j < |receipts[i]| => (i, j))
  }

  /** The number of logs in some receipts. */
  function LogCount(receipts: Receipts): nat {
    if receipts == [] then 0 else |receipts[0]| + LogCount(receipts[1..])
  }

  /** `filter_logs` indexes the transactions and counts logs in 32 bits. */
  predicate Indexable(block: Block, receipts: Receipts) {
    && (forall i :: 0 <= i < |receipts| && receipts[i] != [] ==> i < |block.transactions|)
    && LogCount(receipts) < U32_LIMIT
  }

  function Entry(block: Block, receipts: Receipts, at: (nat, nat), k: nat): EthersLog
    requires Within(receipts, at)
  {
    var hash := if at.0 < |block.transactions| then Some(block.transactions[at.0]) else None;
    EthersLog(receipts[at.0][at.1], block.hash, block.number, hash, at.0, k, at.1)
  }

  function Numbered(block: Block, receipts: Receipts): seq<EthersLog> {
    var ps := Positions(receipts);
    seq(|ps|, k requires 0 <= k < |ps| => Entry(block, receipts, ps[k], k))
  }

  function Kept(block: Block, params: FilteredParams, logs: seq<EthersLog>): seq<EthersLog> {
    if logs == [] then []
    else
      var last := |logs| - 1;
      Kept(block, params, logs[..last]) +
      (if Matches(block, params, logs[last].log) then [logs[last]] else [])
  }

  function Filtered(block: Block, receipts: Receipts, params: FilteredParams): seq<EthersLog> {
    Kept(block, params, Numbered(block, receipts))
  }

  /** Log j of receipt i stands after all logs of the earlier receipts. */
  lemma {:induction false} PositionOf(receipts: Receipts, i: nat, j: nat)
    requires i < |receipts| && j < |receipts[i]|
    ensures var k := |Positions(receipts[..i])| + j;
            k < |Positions(receipts)| && Positions(receipts)[k] == (i, j)
  {
    var n := |receipts| - 1;
    if i < n {
      PositionOf(receipts[..n], i, j);
      assert receipts[..n][..i] == receipts[..i];
    }
  }

  lemma {:induction false} PositionsIncrease(receipts: Receipts, k: nat, m: nat)
    requires k < m < |Positions(receipts)|
    ensures var p, q := Positions(receipts)[k], Positions(receipts)[m];
            p.0 < q.0 || (p.0 == q.0 && p.1 < q.1)
  {
    var n := |receipts| - 1;
    if m < |Positions(receipts[..n])| {
      PositionsIncrease(receipts[..n], k, m);
    }
  }

  lemma PositionsStep(receipts: Receipts, i: nat)
    requires i < |receipts|
    ensures |Positions(receipts[..i + 1])| == |Positions(receipts[..i])| + |receipts[i]|
  {
    assert receipts[..i + 1][..i] == receipts[..i];
  }

  ghost predicate Increasing(logs: seq<EthersLog>) {
    forall m, n :: 0 <= m < n < |logs| ==> logs[m].logIndex < logs[n].logIndex
  }

  lemma {:induction false} KeptSound(block: Block, params: FilteredParams, logs: seq<EthersLog>, m: nat)
    requires m < |Kept(block, params, logs)|
    ensures var e := Kept(block, params, logs)[m]; e in logs && Matches(block, params, e.log)
  {
    var last := |logs| - 1;
    if m < |Kept(block, params, logs[..last])| {
      KeptSound(block, params, logs[..last], m);
    }
  }

  lemma {:induction false} KeptIncreasing(block: Block, params: FilteredParams, logs: seq<EthersLog>)
    requires Increasing(logs)
    ensures Increasing(Kept(block, params, logs))
  {
    if logs != [] {
      var last := |logs| - 1;
      KeptIncreasing(block, params, logs[..last]);
      var r := Kept(block, params, logs[..last]);
      forall m | 0 <= m < |r|
        ensures r[m].logIndex < logs[last].logIndex
      {
        KeptSound(block, params, logs[..last], m);
      }
    }
  }

  lemma {:induction false} KeptComplete(block: Block, params: FilteredParams, logs: seq<EthersLog>, k: nat)
    requires k < |logs| && Matches(block, params, logs[k].log)
    ensures logs[k] in Kept(block, params, logs)
  {
    var last := |logs| - 1;
    if k < last {
      KeptComplete(block, params, logs[..last], k);
    }
  }

  /** The counter value and the log's place determine each other. */
  lemma IndexOfPosition(receipts: Receipts, k: nat)
    requires k < |Positions(receipts)|
    ensures var at := Positions(receipts)[k]; k == |Positions(receipts[..at.0])| + at.1
  {
    var at := Positions(receipts)[k];
    PositionOf(receipts, at.0, at.1);
    var k' := |Positions(receipts[..at.0])| + at.1;
    if k < k' {
      PositionsIncrease(receipts, k, k');
    } else if k' < k {
      PositionsIncrease(receipts, k', k);
    }
  }

  /** The filter as a client sees it: absent, or all four of its tests hold. */
  ghost predicate Passes(block: Block, params: FilteredParams, log: Log) {
    || !params.hasFilter
    || (params.blockRange(block.number) && params.blockHash(block.hash) && params.address(log) && params.topics(log))
  }

  lemma {:induction false} LogCountSnoc(receipts: Receipts, logs: seq<Log>)
    ensures LogCount(receipts + [logs]) == LogCount(receipts) + |logs|
  {
    if receipts == [] {
      assert receipts + [logs] == [logs];
    } else {
      LogCountSnoc(receipts[1..], logs);
      assert (receipts + [logs])[1..] == receipts[1..] + [logs];
    }
  }

  lemma {:induction false} PositionsCount(receipts: Receipts)
    ensures |Positions(receipts)| == LogCount(receipts)
  {
    if receipts != [] {
      var n := |receipts| - 1;
      PositionsCount(receipts[..n]);
      LogCountSnoc(receipts[..n], receipts[n]);
      assert receipts[..n] + [receipts[n]] == receipts;
    }
  }

  /** Every field of a returned log is that of its own place in the block. */
  ghost predicate Faithful(block: Block, receipts: Receipts, e: EthersLog)
    requires Indexable(block, receipts)
  {
    && e.transactionIndex < |receipts|
    && e.transactionLogIndex < |receipts[e.transactionIndex]|
    && e.log == receipts[e.transactionIndex][e.transactionLogIndex]
    && e.transactionHash == Some(block.transactions[e.transactionIndex])
    && e.logIndex == LogCount(receipts[..e.transactionIndex]) + e.transactionLogIndex
    && e.blockHash == block.hash && e.blockNumber == block.number
  }

  /** What `filter_logs` returns: matching logs, each faithful, numbers increasing. */
  lemma FilteredSound(block: Block, receipts: Receipts, params: FilteredParams)
    requires Indexable(block, receipts)
    ensures var r := Filtered(block, receipts, params);
            && Increasing(r)
            && (forall m :: 0 <= m < |r| ==>
                  Faithful(block, receipts, r[m]) && Passes(block, params, r[m].log))
  {
    var all := Numbered(block, receipts);
    var r := Filtered(block, receipts, params);
    KeptIncreasing(block, params, all);
    forall m | 0 <= m < |r|
      ensures Faithful(block, receipts, r[m]) && Passes(block, params, r[m].log)
    {
      KeptSound(block, params, all, m);
      var k :| 0 <= k < |all| && all[k] == r[m];
      IndexOfPosition(receipts, k);
      PositionsCount(receipts[..Positions(receipts)[k].0]);
      assert Within(receipts, Positions(receipts)[k]);
    }
  }

  /** ... and no matching log of the block is missing. */
  lemma FilteredComplete(block: Block, receipts: Receipts, params: FilteredParams, i: nat, j: nat)
    requires Indexable(block, receipts)
    requires i < |receipts| && j < |receipts[i]| && Passes(block, params, receipts[i][j])
    ensures exists e :: e in Filtered(block, receipts, params) &&
              e.transactionIndex == i && e.transactionLogIndex == j && Faithful(block, receipts, e)
  {
    var all, k := Numbered(block, receipts), |Positions(receipts[..i])| + j;
    PositionOf(receipts, i, j);
    assert all[k] == Entry(block, receipts, (i, j), k);
    KeptComplete(block, params, all, k);
    PositionsCount(receipts[..i]);
    assert Faithful(block, receipts, all[k]);
  }

  lemma NumberedAt(block: Block, receipts: Receipts, k: nat)
    requires k < |Positions(receipts)|
    ensures |Numbered(block, receipts)| == |Positions(receipts)|
    ensures Numbered(block, receipts)[k] == Entry(block, receipts, Positions(receipts)[k], k)
  {
  }

  lemma KeptSnoc(block: Block, params: FilteredParams, logs: seq<EthersLog>, e: EthersLog)
    ensures Kept(block, params, logs + [e]) ==
            Kept(block, params, logs) + (if Matches(block, params, e.log) then [e] else [])
  {
    assert (logs + [e])[..|logs|] == logs;
  }

  /** The result after the first k logs of the block have been looked at. */
  ghost function Prefix(block: Block, receipts: Receipts, params: FilteredParams, k: nat): seq<EthersLog>
    requires k <= |Positions(receipts)|
  {
    Kept(block, params, Numbered(block, receipts)[..k])
  }

  lemma PrefixStep(block: Block, receipts: Receipts, params: FilteredParams, i: nat, j: nat)
    requires i < |receipts| && j < |receipts[i]|
    ensures var k := |Positions(receipts[..i])| + j;
            && k < |Positions(receipts)|
            && Prefix(block, receipts, params, k + 1) == Prefix(block, receipts, params, k) +
               (if Matches(block, params, receipts[i][j]) then [Entry(block, receipts, (i, j), k)] else [])
  {
    hide Positions, Numbered, Kept, Matches;
    var all, k := Numbered(block, receipts), |Positions(receipts[..i])| + j;
    PositionOf(receipts, i, j);
    NumberedAt(block, receipts, k);
    KeptSnoc(block, params, all[..k], all[k]);
    assert all[..k + 1] == all[..k] + [all[k]];
  }

  lemma PrefixBounds(block: Block, receipts: Receipts, params: FilteredParams)
    ensures Positions(receipts[..0]) == [] && Prefix(block, receipts, params, 0) == []
    ensures Prefix(block, receipts, params, |Positions(receipts)|) == Filtered(block, receipts, params)
  {
    var all := Numbered(block, receipts);
    assert all[..|all|] == all;
  }

  /** `filter_logs`: one running counter over two nested loops. */
  method FilterLogs(block: Block, receipts: Receipts, params: FilteredParams)
    returns (logs: seq<EthersLog>)
    requires Indexable(block, receipts)
    ensures logs == Filtered(block, receipts, params)
  {
    hide Positions, Prefix, Filtered, Matches;
    PrefixBounds(block, receipts, params);
    PositionsCount(receipts);
    logs := [];
    var logIndex := 0;
    for i := 0 to |receipts|
      invariant logIndex == |Positions(receipts[..i])| <= |Positions(receipts)|
      invariant logs == Prefix(block, receipts, params, logIndex)
    {
      PositionsStep(receipts, i);
      var receipt := receipts[i];
      var transactionHash := if receipt != [] then Some(block.transactions[i]) else None;
      ghost var first := logIndex;
      for j := 0 to |receipt|
        invariant logIndex == first + j <= |Positions(receipts)|
        invariant logs == Prefix(block, receipts, params, logIndex)
      {
        PrefixStep(block, receipts, params, i, j);
        if Matches(block, params, receipt[j]) {
          logs := logs + [EthersLog(receipt[j], block.hash, block.number, transactionHash, i, logIndex, j)];
        }
        assert logIndex + 1 < U32_LIMIT;
        logIndex := logIndex + 1;
      }
    }
    assert receipts[..|receipts|] == receipts;
  }

  // ---- Notifications ----

  datatype Notice = Notice(block: Option<Block>, receipts: Option<Receipts>) {
    predicate Stored() { block.Some? && receipts.Some? }

    predicate Sound() { Stored() ==> Indexable(block.value, receipts.value) }
  }

  datatype Poll = Pending | Closed | Next(notice: Notice)

  predicate SoundPolls(polls: seq<Poll>) {
    forall i :: 0 <= i < |polls| && polls[i].Next? ==> polls[i].notice.Sound()
  }

  /** The notifications among some poll results, and the logs they give rise to. */
  function Notices(polls: seq<Poll>): seq<Notice> {
    if polls == [] then []
    else
      var n := |polls| - 1;
      Notices(polls[..n]) + (if polls[n].Next? then [polls[n].notice] else [])
  }

  function NoticeLogs(n: Notice, params: FilteredParams): seq<EthersLog> {
    if n.Stored() then Filtered(n.block.value, n.receipts.value, params) else []
  }

  function LogsOf(ns: seq<Notice>, params: FilteredParams): seq<EthersLog> {
    if ns == [] then []
    else LogsOf(ns[..|ns| - 1], params) + NoticeLogs(ns[|ns| - 1], params)
  }

  ghost function Seen(polls: seq<Poll>, pos: nat, params: FilteredParams): seq<EthersLog>
    requires pos <= |polls|
  {
    LogsOf(Notices(polls[..pos]), params)
  }

  lemma SeenStep(polls: seq<Poll>, pos: nat, params: FilteredParams)
    requires pos < |polls|
    ensures Seen(polls, pos + 1, params) == Seen(polls, pos, params) +
            (if polls[pos].Next? && polls[pos].notice.Stored()
             then NoticeLogs(polls[pos].notice, params) else [])
  {
    assert polls[..pos + 1][..pos] == polls[..pos];
    var ns := Notices(polls[..pos]);
    if polls[pos].Next? {
      assert (ns + [polls[pos].notice])[..|ns|] == ns;
    } else {
      assert Notices(polls[..pos + 1]) == ns;
    }
  }

  lemma SeenNothing(polls: seq<Poll>, params: FilteredParams)
    ensures Seen(polls, 0, params) == []
  {
  }

  lemma {:induction false} NoticesPrefix(polls: seq<Poll>, pos: nat)
    requires pos <= |polls|
    ensures Notices(polls[..pos]) <= Notices(polls)
  {
    if pos == |polls| {
      assert polls[..pos] == polls;
    } else {
      var n := |polls| - 1;
      NoticesPrefix(polls[..n], pos);
      assert polls[..n][..pos] == polls[..pos];
    }
  }

  /** More notifications only extend what is delivered. */
  lemma {:induction false} LogsOfPrefix(ns: seq<Notice>, more: seq<Notice>, params: FilteredParams)
    requires ns <= more
    ensures LogsOf(ns, params) <= LogsOf(more, params)
  {
    if |ns| < |more| {
      LogsOfPrefix(ns, more[..|more| - 1], params);
    } else {
      assert ns == more;
    }
  }

  // ---- The two listeners ----

  /** A stored block none of whose logs matches. */
  predicate Silent(p: Poll, params: FilteredParams) {
    p.Next? && p.notice.Stored() && NoticeLogs(p.notice, params) == []
  }

  method NoticeFilterLogs(n: Notice, params: FilteredParams) returns (logs: seq<EthersLog>)
    requires n.Stored() && n.Sound()
    ensures logs == NoticeLogs(n, params)
  {
    logs := FilterLogs(n.block.value, n.receipts.value, params);
  }

  datatype Response = Waiting | Finished | Emit(log: EthersLog)

  class LogsSubscription {
    const params: FilteredParams
    const polls: seq<Poll>
    var pos: nat
    var queued: seq<EthersLog>
    ghost var emitted: seq<EthersLog>

    /** Nothing is lost, repeated or reordered between listener and client. */
    ghost predicate Valid()
      reads this
    {
      && SoundPolls(polls) && pos <= |polls|
      && emitted + queued == Seen(polls, pos, params)
    }

    constructor (polls: seq<Poll>, params: FilteredParams)
      requires SoundPolls(polls)
      ensures Valid() && pos == 0 && queued == [] && emitted == []
      ensures this.polls == polls && this.params == params
    {
      this.polls, this.params, pos, queued, emitted := polls, params, 0, [], [];
    }

    method Poll() returns (r: Response)
      requires Valid()
      modifies this
      ensures Valid() && old(pos) <= pos
      ensures emitted == old(emitted) + (if r.Emit? then [r.log] else [])
      ensures !r.Emit? ==> queued == [] && emitted == Seen(polls, pos, params)
      ensures r.Emit? || old(pos) < pos || (r == Waiting && pos == |polls|)
      // Everything consumed before the last result is a stored block without matching logs.
      ensures forall k :: old(pos) <= k < pos - 1 ==> Silent(polls[k], params)
      ensures old(queued) != [] ==> pos == old(pos) && r == Emit(old(queued)[0])
      ensures r.Emit? && old(queued) == [] ==>
                && old(pos) < pos && polls[pos - 1].Next? && polls[pos - 1].notice.Stored()
                && NoticeLogs(polls[pos - 1].notice, params) == [r.log] + queued
      ensures r == Finished <==> old(queued) == [] && old(pos) < pos && polls[pos - 1].Closed?
      ensures r == Waiting ==>
                if old(pos) == pos || Silent(polls[pos - 1], params) then pos == |polls|
                else polls[pos - 1].Pending? || (polls[pos - 1].Next? && !polls[pos - 1].notice.Stored())
    {
      hide Indexable, Notices, NoticeLogs, LogsOf;
      while true
        invariant Valid() && old(pos) <= pos && emitted == old(emitted)
        invariant forall k :: old(pos) <= k < pos - 1 ==> Silent(polls[k], params)
        invariant old(pos) == pos ==> queued == old(queued)
        invariant old(queued) != [] ==> old(pos) == pos
        invariant old(pos) < pos && queued == [] ==> Silent(polls[pos - 1], params)
        invariant old(pos) < pos && queued != [] ==>
                    && polls[pos - 1].Next? && polls[pos - 1].notice.Stored()
                    && queued == NoticeLogs(polls[pos - 1].notice, params)
        decreases |polls| - pos
      {
        if queued != [] {
          r := Emit(queued[0]);
          emitted, queued := emitted + [queued[0]], queued[1..];
          return;
        }
        assert emitted + queued == emitted;
        if pos == |polls| { return Waiting; }
        SeenStep(polls, pos, params);
        var p := polls[pos];
        pos := pos + 1;
        if p == Pending { return Waiting; }
        if p == Closed { return Finished; }
        if p.notice.Stored() {
          var logs := NoticeFilterLogs(p.notice, params);
          if logs == [] { continue; }
          queued := queued + logs;
        }
        if queued == [] { return Waiting; }
      }
    }
  }

  class LogsFilter {
    const params: FilteredParams
    const polls: seq<Poll>
    var pos: nat
    var historic: Option<seq<EthersLog>>
    ghost const initial: seq<EthersLog>
    ghost var delivered: seq<EthersLog>

    /** The historic logs come first, and only once. */
    ghost predicate Valid()
      reads this
    {
      && SoundPolls(polls) && pos <= |polls|
      && (historic.Some? ==> historic.value == initial && delivered == [] && pos == 0)
      && (historic.None? ==> delivered == initial + Seen(polls, pos, params))
    }

    constructor (polls: seq<Poll>, params: FilteredParams, historic: Option<seq<EthersLog>>)
      requires SoundPolls(polls)
      ensures Valid() && pos == 0 && delivered == []
      ensures this.polls == polls && this.params == params && this.historic == historic
      ensures initial == if historic.Some? then historic.value else []
    {
      this.polls, this.params, this.historic := polls, params, historic;
      initial := if historic.Some? then historic.value else [];
      pos, delivered := 0, [];
    }

    method Poll() returns (logs: seq<EthersLog>)
      requires Valid()
      modifies this
      ensures Valid() && historic == None && old(pos) <= pos
      ensures delivered == old(delivered) + logs == initial + Seen(polls, pos, params)
      ensures old(pos) < pos || pos == |polls|
      // Notifications are taken until the listener has none.
      ensures forall k :: old(pos) <= k < pos - 1 ==> polls[k].Next?
      ensures pos < |polls| ==> old(pos) < pos && !polls[pos - 1].Next?
    {
      hide Indexable, Notices, NoticeLogs, LogsOf;
      SeenNothing(polls, params);
      logs := if historic.Some? then historic.value else [];
      historic, delivered := None, delivered + logs;
      while pos < |polls|
        invariant Valid() && historic == None && old(pos) <= pos
        invariant delivered == old(delivered) + logs
        invariant forall k :: old(pos) <= k < pos ==> polls[k].Next?
      {
        SeenStep(polls, pos, params);
        ghost var seen := Seen(polls, pos, params);
        var p := polls[pos];
        pos := pos + 1;
        if !p.Next? { break; }
        if p.notice.Stored() {
          var more := NoticeFilterLogs(p.notice, params);
          logs, delivered := logs + more, delivered + more;
          assert (initial + seen) + more == initial + (seen + more);
        }
      }
    }
  }

  /**
    Two listeners to the same notifications deliver the same logs: what each has
    delivered is a prefix of one common sequence, and whichever has seen fewer
    notifications has delivered a prefix of the other.
   */
  lemma ListenersAgree(s: LogsSubscription, f: LogsFilter)
    requires s.Valid() && f.Valid() && f.historic.None?
    requires s.params == f.params && Notices(s.polls) == Notices(f.polls)
    ensures var all := LogsOf(Notices(s.polls), s.params);
            && s.emitted + s.queued <= all
            && f.delivered <= f.initial + all
    ensures f.initial + (s.emitted + s.queued) <= f.delivered
            || f.delivered <= f.initial + (s.emitted + s.queued)
  {
    var ns, nf := Notices(s.polls[..s.pos]), Notices(f.polls[..f.pos]);
    NoticesPrefix(s.polls, s.pos);
    NoticesPrefix(f.polls, f.pos);
    LogsOfPrefix(ns, Notices(s.polls), s.params);
    LogsOfPrefix(nf, Notices(f.polls), s.params);
    if |ns| <= |nf| {
      LogsOfPrefix(ns, nf, s.params);
    } else {
      LogsOfPrefix(nf, ns, s.params);
    }
  }

  /** How many polls of a schedule go to the subscription (true) or to the filter (false). */
  function PollCount(schedule: seq<bool>, which: bool): nat {
    if schedule == [] then 0
    else
      var n := |schedule| - 1;
      PollCount(schedule[..n], which) + (if schedule[n] == which then 1 else 0)
  }

  lemma PollCountStep(schedule: seq<bool>, i: nat, which: bool)
    requires i < |schedule|
    ensures PollCount(schedule[..i + 1], which) ==
            PollCount(schedule[..i], which) + (if schedule[i] == which then 1 else 0)
  {
    assert schedule[..i + 1][..i] == schedule[..i];
  }

  /** Everything its listener brought has been emitted. */
  ghost predicate Drained(s: LogsSubscription)
    reads s
  {
    s.pos == |s.polls| && s.queued == []
  }

  lemma SeenBounds(polls: seq<Poll>, pos: nat, params: FilteredParams)
    requires pos <= |polls|
    ensures Seen(polls, pos, params) <= LogsOf(Notices(polls), params)
    ensures pos == |polls| ==> Seen(polls, pos, params) == LogsOf(Notices(polls), params)
  {
    NoticesPrefix(polls, pos);
    LogsOfPrefix(Notices(polls[..pos]), Notices(polls), params);
    if pos == |polls| {
      assert polls[..pos] == polls;
    }
  }

  /**
    Any interleaving of polls of two listeners created on the same notifications.
    Delivery never disagrees, and enough polls complete it: for the subscription
    one per poll result and per log, for the filter one per poll result.
   */
  method RunSchedule(forPush: seq<Poll>, forPull: seq<Poll>, params: FilteredParams,
                     historic: seq<EthersLog>, schedule: seq<bool>)
    returns (s: LogsSubscription, f: LogsFilter)
    requires SoundPolls(forPush) && SoundPolls(forPull) && Notices(forPush) == Notices(forPull)
    ensures s.Valid() && f.Valid() && s.polls == forPush && f.polls == forPull
    ensures s.params == f.params == params && f.initial == historic
    ensures f.historic.None? ==>
              || historic + (s.emitted + s.queued) <= f.delivered
              || f.delivered <= historic + (s.emitted + s.queued)
    ensures s.pos == |forPush| ==> s.emitted + s.queued == LogsOf(Notices(forPush), params)
    ensures f.pos == |forPull| && f.historic.None? ==>
              f.delivered == historic + LogsOf(Notices(forPush), params)
    ensures PollCount(schedule, true) >= |forPush| + |LogsOf(Notices(forPush), params)| ==>
              s.emitted == LogsOf(Notices(forPush), params)
    ensures PollCount(schedule, false) > 0 && PollCount(schedule, false) >= |forPull| ==>
              f.delivered == historic + LogsOf(Notices(forPush), params)
  {
    hide LogsOf, Notices, PollCount, SoundPolls;
    s := new LogsSubscription(forPush, params);
    f := new LogsFilter(forPull, params, Some(historic));
    PollCountNone(schedule);
    for i := 0 to |schedule|
      invariant fresh(s) && fresh(f) && s.Valid() && f.Valid()
      invariant Drained(s) || s.pos + |s.emitted| >= PollCount(schedule[..i], true)
      invariant f.pos == |f.polls| || f.pos >= PollCount(schedule[..i], false)
      invariant PollCount(schedule[..i], false) > 0 ==> f.historic.None?
    {
      PollCountStep(schedule, i, true);
      PollCountStep(schedule, i, false);
      if schedule[i] {
        var _ := s.Poll();
      } else {
        var _ := f.Poll();
      }
    }
    assert schedule[..|schedule|] == schedule;
    SeenBounds(forPush, s.pos, params);
    SeenBounds(forPull, f.pos, params);
    if f.historic.None? {
      ListenersAgree(s, f);
    }
  }

  lemma PollCountNone(schedule: seq<bool>)
    ensures PollCount(schedule[..0], true) == 0 && PollCount(schedule[..0], false) == 0
  {
  }
}
