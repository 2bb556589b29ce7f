/**
  The background service of `anvil`: a producer that mines one block at a time
  and the event loop that feeds it. The mining future and the miner are scripts
  of poll results; an exhausted script keeps answering Pending. What the k-th
  block mined turns out to be is an arbitrary function of k and its transactions.
 */
module Service {
  import opened Prelude

  type TxSet = seq<nat>

  datatype Outcome = Outcome(blockNumber: nat, included: seq<nat>, invalid: seq<nat>)

  /** The chain state, counting the blocks mined through it. */
  datatype Backend = Backend(id: nat, mined: nat)

  /** The future that owns the backend while a block is mined. */
  datatype Mining = Mining(transactions: TxSet, backend: Backend)

  type Miner = (nat, TxSet) -> Outcome

  /** The outcomes of mining some sets one after the other. */
  function Outcomes(mine: Miner, sets: seq<TxSet>): seq<Outcome> {
    if sets == [] then []
    else Outcomes(mine, sets[..|sets| - 1]) + [mine(|sets| - 1, sets[|sets| - 1])]
  }

  lemma OutcomesSnoc(mine: Miner, sets: seq<TxSet>, s: TxSet)
    ensures Outcomes(mine, sets + [s]) == Outcomes(mine, sets) + [mine(|sets|, s)]
  {
    assert (sets + [s])[..|sets|] == sets;
  }

  lemma {:induction false} OutcomesAt(mine: Miner, sets: seq<TxSet>, k: nat)
    requires k < |sets|
    ensures |Outcomes(mine, sets)| == |sets|
    ensures Outcomes(mine, sets)[k] == mine(k, sets[k])
  {
    var n := |sets| - 1;
    if k < n {
      OutcomesAt(mine, sets[..n], k);
    } else if n > 0 {
      OutcomesAt(mine, sets[..n], 0);
    }
  }

  class BlockProducer {
    var idleBackend: Option<Backend>
    var blockMining: Option<Mining>
    var queued: seq<TxSet>
    var ready: seq<bool>
    const mine: Miner
    ghost const id: nat
    ghost var fed: seq<TxSet>
    ghost var finished: seq<TxSet>
    ghost var registered: bool

    ghost function InFlight(): seq<TxSet>
      reads this
    {
      if blockMining.Some? then [blockMining.value.transactions] else []
    }

    /** The sets fed in and not finished. */
    ghost function Open(): nat
      reads this
    {
      |InFlight()| + |queued|
    }

    /**
      Between polls the one backend is either idle or inside the one future, that
      future has been polled to Pending, and no set fed in is lost or reordered.
     */
    ghost predicate Valid()
      reads this
    {
      && (idleBackend == None <==> blockMining.Some?)
      && (idleBackend.Some? ==> idleBackend.value == Backend(id, |finished|))
      && (blockMining.Some? ==> blockMining.value.backend == Backend(id, |finished|) && registered)
      && finished + InFlight() + queued == fed
    }

    constructor (id: nat, mine: Miner)
      ensures Valid() && queued == [] && fed == [] && finished == [] && blockMining == None
      ensures this.mine == mine && this.id == id
    {
      idleBackend, blockMining, queued, ready := Some(Backend(id, 0)), None, [], [];
      this.id, this.mine, fed, finished, registered := id, mine, [], [], false;
    }

    method PushBack(transactions: TxSet)
      requires Valid()
      modifies this`queued, this`fed
      ensures Valid() && queued == old(queued) + [transactions] && fed == old(fed) + [transactions]
    {
      queued, fed := queued + [transactions], fed + [transactions];
      assert finished + InFlight() + queued == (finished + InFlight() + old(queued)) + [transactions];
    }

    /** Some(outcome) is Ready; None is Pending. */
    method PollNext() returns (r: Option<Outcome>)
      requires Valid()
      modifies this
      ensures Valid() && fed == old(fed)
      // A future is polled when one is in progress or can be started; each poll meets one result.
      ensures var polled := old(blockMining).Some? || old(queued) != [];
              && (r.Some? <==> polled && old(ready) != [] && old(ready)[0])
              && ready == if polled && old(ready) != [] then old(ready)[1..] else old(ready)
      ensures r.Some? ==> |fed| > |old(finished)|
      ensures r.Some? ==> finished == old(finished) + [fed[|old(finished)|]]
      ensures r.Some? ==> r.value == mine(|old(finished)|, fed[|old(finished)|])
      ensures r.Some? ==> blockMining == None
      ensures r.None? ==> finished == old(finished) && (blockMining == None ==> queued == [])
    {
      if queued != [] {
        if idleBackend.Some? {
          blockMining := Some(Mining(queued[0], idleBackend.value));
          idleBackend, queued, registered := None, queued[1..], false;
        }
      }
      assert finished + InFlight() + queued == fed;
      if blockMining.Some? {
        var mining := blockMining.value;
        blockMining := None;
        var isReady := false;
        if ready != [] {
          isReady, ready := ready[0], ready[1..];
        }
        assert fed[|finished|] == mining.transactions;
        if isReady {
          idleBackend := Some(mining.backend.(mined := mining.backend.mined + 1));
          r := Some(mine(mining.backend.mined, mining.transactions));
          finished := finished + [mining.transactions];
          return;
        } else {
          blockMining, registered := Some(mining), true;
        }
      }
      r := None;
    }
  }

  /** The sets the miner hands out before its first Pending. */
  function Offered(offers: seq<Option<TxSet>>): seq<TxSet> {
    if offers == [] || offers[0].None? then [] else [offers[0].value] + Offered(offers[1..])
  }

  lemma OfferedStep(fed: seq<TxSet>, offers: seq<Option<TxSet>>, i: nat)
    requires i <= |offers|
    ensures fed + Offered(offers[i..]) ==
            if i < |offers| && offers[i].Some?
            then (fed + [offers[i].value]) + Offered(offers[i + 1..]) else fed
  {
    if i < |offers| {
      assert offers[i..][1..] == offers[i + 1..];
    }
  }

  // ---- How far a script gets ----

  /** Polls the producer until Pending: each Ready result finishes one of `unfinished` sets. */
  function Drain(unfinished: nat, ready: seq<bool>): (nat, seq<bool>)
    decreases |ready|
  {
    if unfinished == 0 || ready == [] then (unfinished, ready)
    else if ready[0] then Drain(unfinished - 1, ready[1..])
    else (unfinished, ready[1..])
  }

  /** The sets still unfinished after a wake-up. */
  function AfterWake(unfinished: nat, ready: seq<bool>, offers: seq<Option<TxSet>>): nat
    decreases |offers|
  {
    var (left, rest) := Drain(unfinished, ready);
    if offers == [] || offers[0].None? then left else AfterWake(left + 1, rest, offers[1..])
  }

  function Unfinished(wakes: seq<(seq<bool>, seq<Option<TxSet>>)>): nat {
    if wakes == [] then 0
    else
      var n := |wakes| - 1;
      AfterWake(Unfinished(wakes[..n]), wakes[n].0, wakes[n].1)
  }

  function ReadyCount(ready: seq<bool>): nat {
    if ready == [] then 0 else (if ready[0] then 1 else 0) + ReadyCount(ready[1..])
  }

  /** The results before `rest` were met, and `done` of them were Ready. */
  ghost predicate Met(ready: seq<bool>, rest: seq<bool>, done: int) {
    && |rest| <= |ready| && rest == ready[|ready| - |rest|..]
    && ReadyCount(ready) - ReadyCount(rest) == done
  }

  /** The last result met was Pending, or the script is exhausted. */
  ghost predicate EndedPending(ready: seq<bool>, rest: seq<bool>) {
    rest == [] || (|rest| < |ready| && !ready[|ready| - |rest| - 1])
  }

  /** One set is finished per Ready result met, and polling ends with no set left or on Pending. */
  lemma {:induction false} DrainCounts(unfinished: nat, ready: seq<bool>)
    ensures var (left, rest) := Drain(unfinished, ready);
            && left <= unfinished
            && Met(ready, rest, unfinished - left)
            && (left > 0 ==> EndedPending(ready, rest))
    decreases |ready|
  {
    if unfinished > 0 && ready != [] && ready[0] {
      DrainCounts(unfinished - 1, ready[1..]);
    }
  }

  /**
    The number of sets finished in a wake-up is the number of Ready results its
    polls of a future met: never more than there are, and when all results are
    Ready and suffice, nothing is left unfinished.
   */
  lemma {:induction false} WakeProgress(unfinished: nat, ready: seq<bool>, offers: seq<Option<TxSet>>)
    ensures AfterWake(unfinished, ready, offers) <= unfinished + |Offered(offers)|
    ensures unfinished + |Offered(offers)| - AfterWake(unfinished, ready, offers) <= ReadyCount(ready)
    ensures (forall k :: 0 <= k < |ready| ==> ready[k]) && |ready| >= unfinished + |Offered(offers)|
            ==> AfterWake(unfinished, ready, offers) == 0
    decreases |offers|
  {
    var (left, rest) := Drain(unfinished, ready);
    DrainCounts(unfinished, ready);
    DrainReady(unfinished, ready);
    if offers != [] && offers[0].Some? {
      WakeProgress(left + 1, rest, offers[1..]);
    }
  }

  lemma {:induction false} DrainReady(unfinished: nat, ready: seq<bool>)
    ensures (forall k :: 0 <= k < |ready| ==> ready[k]) && |ready| >= unfinished ==>
              Drain(unfinished, ready) == (0, ready[unfinished..])
    decreases |ready|
  {
    if unfinished > 0 && ready != [] {
      DrainReady(unfinished - 1, ready[1..]);
      assert |ready| >= unfinished ==> ready[1..][unfinished - 1..] == ready[unfinished..];
    }
  }

  class NodeService {
    const producer: BlockProducer
    var pool: seq<Outcome>

    ghost predicate Valid()
      reads this, producer
    {
      producer.Valid() && pool == Outcomes(producer.mine, producer.finished)
    }

    constructor (id: nat, mine: Miner)
      ensures Valid() && fresh(producer) && pool == [] && producer.mine == mine
      ensures producer.fed == [] && producer.finished == [] && producer.queued == []
    {
      producer := new BlockProducer(id, mine);
      pool := [];
    }

    /** Drains every finished block into the pool. */
    method DrainProducer()
      requires Valid()
      modifies this, producer
      ensures Valid() && producer.fed == old(producer.fed)
      ensures old(producer.finished) <= producer.finished
      ensures producer.blockMining == None ==> producer.queued == []
      ensures var (left, rest) := Drain(old(producer.Open()), old(producer.ready));
              producer.Open() == left && producer.ready == rest
      ensures Met(old(producer.ready), producer.ready, |producer.finished| - |old(producer.finished)|)
      ensures producer.Open() > 0 ==> EndedPending(old(producer.ready), producer.ready)
    {
      hide Outcomes, ReadyCount;
      DrainCounts(producer.Open(), producer.ready);
      while true
        invariant Valid() && producer.fed == old(producer.fed)
        invariant old(producer.finished) <= producer.finished
        invariant Drain(producer.Open(), producer.ready) == Drain(old(producer.Open()), old(producer.ready))
        decreases |producer.ready|
      {
        ghost var before := producer.finished;
        var r := producer.PollNext();
        if r.None? { return; }
        OutcomesSnoc(producer.mine, before, producer.fed[|before|]);
        pool := pool + [r.value];
      }
    }

    /** One wake-up of the service, with the poll results it will meet. */
    method Poll(ready: seq<bool>, offers: seq<Option<TxSet>>)
      requires Valid()
      modifies this, producer
      ensures Valid()
      ensures producer.fed == old(producer.fed) + Offered(offers)
      ensures producer.Open() == AfterWake(old(producer.Open()), ready, offers)
      ensures Met(ready, producer.ready, |producer.finished| - |old(producer.finished)|)
      ensures producer.Open() > 0 ==> EndedPending(ready, producer.ready)
      ensures old(producer.finished) <= producer.finished
      ensures producer.queued != [] ==> producer.blockMining.Some? && producer.registered
    {
      hide Outcomes, Offered, Drain, ReadyCount;
      producer.ready := ready;
      var i := 0;
      assert offers[0..] == offers;
      while true
        invariant Valid() && i <= |offers|
        invariant old(producer.finished) <= producer.finished
        invariant producer.fed + Offered(offers[i..]) == old(producer.fed) + Offered(offers)
        invariant AfterWake(producer.Open(), producer.ready, offers[i..])
                  == AfterWake(old(producer.Open()), ready, offers)
        invariant Met(ready, producer.ready, |producer.finished| - |old(producer.finished)|)
        decreases |offers| - i
      {
        DrainProducer();
        OfferedStep(producer.fed, offers, i);
        if i < |offers| && offers[i].Some? {
          producer.PushBack(offers[i].value);
          assert offers[i..][1..] == offers[i + 1..];
          i := i + 1;
        } else {
          return;
        }
      }
    }
  }

  /** The sets handed out over several wake-ups. */
  function AllOffered(wakes: seq<(seq<bool>, seq<Option<TxSet>>)>): seq<TxSet> {
    if wakes == [] then []
    else AllOffered(wakes[..|wakes| - 1]) + Offered(wakes[|wakes| - 1].1)
  }

  /**
    Every run of the service: what the pool has been told is the outcome of the
    first sets in the order they were handed out; then comes the set in flight,
    then the backlog, and nothing waits in the backlog unless a block is being
    mined whose completion will wake the service. How many are unfinished follows
    from the poll results alone.
   */
  method RunService(id: nat, mine: Miner, wakes: seq<(seq<bool>, seq<Option<TxSet>>)>)
    returns (s: NodeService)
    ensures s.Valid() && s.producer.mine == mine
    ensures var p := s.producer;
            && p.finished + p.InFlight() + p.queued == AllOffered(wakes)
            && p.Open() == Unfinished(wakes)
            && s.pool == Outcomes(mine, AllOffered(wakes)[..|p.finished|])
            && (p.idleBackend.Some? <==> p.blockMining.None?)
            && (p.queued != [] ==> p.blockMining.Some? && p.registered)
  {
    s := new NodeService(id, mine);
    for i := 0 to |wakes|
      invariant fresh(s) && fresh(s.producer) && s.Valid() && s.producer.mine == mine
      invariant s.producer.fed == AllOffered(wakes[..i])
      invariant s.producer.Open() == Unfinished(wakes[..i])
      invariant s.producer.queued != [] ==> s.producer.blockMining.Some? && s.producer.registered
    {
      assert wakes[..i + 1][..i] == wakes[..i];
      s.Poll(wakes[i].0, wakes[i].1);
    }
    assert wakes[..|wakes|] == wakes;
    assert s.producer.finished == s.producer.fed[..|s.producer.finished|];
  }
}
