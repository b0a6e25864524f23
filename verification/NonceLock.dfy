/**
 Concurrent transaction submission by one signer: every submitter holds the client's lock while it
 reads the account's transaction count, signs, broadcasts and waits for the receipt. A state machine
 over the awaits of any number of submitters.
 */
module NonceLock {
  import opened Outcomes

  /** A signed transaction; `serial` tells apart transactions that were prepared separately. */
  datatype Tx = Tx(owner: nat, serial: nat, nonce: nat)

  /** Where a submitter is: outside the lock, inside it, with a prepared or with a broadcast transaction. */
  datatype Phase = Idle | Locked | Prepared(tx: Tx) | Sent(tx: Tx)

  /** `chain` is the number of the signer's transactions the chain has passed; `log` is every broadcast. */
  datatype World = World(chain: nat, lock: Option<nat>, phases: map<nat, Phase>, log: seq<Tx>, nextSerial: nat)
  {
    function PhaseOf(i: nat): Phase {
      if i in phases then phases[i] else Idle
    }

    function Set(i: nat, p: Phase): World {
      this.(phases := phases[i := p])
    }

    function Release(i: nat): World {
      Set(i, Idle).(lock := None)
    }
  }

  datatype Action =
    | Acquire(i: nat)
    | ReadNonce(i: nat)
    | Broadcast(i: nat)              // also a second time, when failover repeats the send elsewhere
    | FailBeforeBroadcast(i: nat)
    | Receipt(i: nat)
    | Abandon(i: nat)                // the receipt wait, or a repeated send, ends in an error
    | ChainAdvances

  function Step(w: World, a: Action): Option<World> {
    match a
    case Acquire(i) =>
      if w.lock.None? && w.PhaseOf(i).Idle? then Some(w.Set(i, Locked).(lock := Some(i))) else None
    case ReadNonce(i) =>
      if w.PhaseOf(i).Locked?
      then Some(w.Set(i, Prepared(Tx(i, w.nextSerial, w.chain))).(nextSerial := w.nextSerial + 1)) else None
    case Broadcast(i) =>
      (match w.PhaseOf(i)
       case Prepared(tx) => Some(w.Set(i, Sent(tx)).(log := w.log + [tx]))
       case Sent(tx) => Some(w.(log := w.log + [tx]))
       case _ => None)
    case FailBeforeBroadcast(i) =>
      if w.PhaseOf(i).Locked? || w.PhaseOf(i).Prepared? then Some(w.Release(i)) else None
    case Receipt(i) =>
      if w.PhaseOf(i).Sent? && w.chain > w.PhaseOf(i).tx.nonce then Some(w.Release(i)) else None
    case Abandon(i) =>
      if w.PhaseOf(i).Sent? then Some(w.Release(i)) else None
    case ChainAdvances => Some(w.(chain := w.chain + 1))
  }

  /** The lock is given up after a broadcast although the chain has not passed the transaction. */
  predicate Careless(w: World, a: Action) {
    a.Abandon? && w.PhaseOf(a.i).Sent? && w.chain <= w.PhaseOf(a.i).tx.nonce
  }

  /** The world after a run, None if some action was not possible or was careless. */
  function After(w: World, acts: seq<Action>): Option<World> {
    if acts == [] then Some(w)
    else match After(w, acts[..|acts| - 1])
      case None => None
      case Some(v) => if Careless(v, acts[|acts| - 1]) then None else Step(v, acts[|acts| - 1])
  }

  function Start(chain: nat): World {
    World(chain, None, map[], [], 0)
  }

  /** Two broadcasts with one nonce are broadcasts of one transaction. */
  ghost predicate NonceSafe(w: World) {
    forall a, b :: a in w.log && b in w.log && a.nonce == b.nonce ==> a == b
  }

  /** Only the lock holder is inside, and what is in the log is behind the chain or is the holder's own. */
  ghost predicate Inv(w: World) {
    && (forall i: nat :: w.PhaseOf(i) != Idle <==> w.lock == Some(i))
    && (forall t :: t in w.log ==> t.serial < w.nextSerial)
    && (w.lock.None? || w.PhaseOf(w.lock.value).Locked? ==> forall t :: t in w.log ==> t.nonce < w.chain)
    && (w.lock.Some? && w.PhaseOf(w.lock.value).Prepared? ==>
          var tx := w.PhaseOf(w.lock.value).tx;
          tx.nonce <= w.chain && tx.serial < w.nextSerial && forall t :: t in w.log ==> t.nonce < tx.nonce)
    && (w.lock.Some? && w.PhaseOf(w.lock.value).Sent? ==>
          var tx := w.PhaseOf(w.lock.value).tx;
          tx.nonce <= w.chain && tx in w.log && forall t :: t in w.log ==> t.nonce < tx.nonce || t == tx)
    && NonceSafe(w)
  }

  /** The log is a history: only a broadcast adds to it, and it adds the submitter's own transaction. */
  lemma StepExtendsLog(w: World, a: Action)
    requires Step(w, a).Some?
    ensures a.Broadcast? ==> w.PhaseOf(a.i).Prepared? || w.PhaseOf(a.i).Sent?
    ensures Step(w, a).value.log == w.log + (if a.Broadcast? then [w.PhaseOf(a.i).tx] else [])
  {
  }

  lemma StepKeepsInv(w: World, a: Action)
    requires Inv(w) && !Careless(w, a) && Step(w, a).Some?
    ensures Inv(Step(w, a).value)
  {
    var w' := Step(w, a).value;
    if !a.ChainAdvances? {
      forall j: nat ensures w'.PhaseOf(j) != Idle <==> w'.lock == Some(j) {
        assert w.PhaseOf(j) != Idle <==> w.lock == Some(j);
        assert w.PhaseOf(a.i) != Idle <==> w.lock == Some(a.i);
      }
    }
  }

  lemma {:induction false} RunKeepsInv(w: World, acts: seq<Action>)
    requires Inv(w) && After(w, acts).Some?
    ensures Inv(After(w, acts).value)
  {
    if acts != [] {
      RunKeepsInv(w, acts[..|acts| - 1]);
      StepKeepsInv(After(w, acts[..|acts| - 1]).value, acts[|acts| - 1]);
    }
  }

  /**
   Nonce safety over every interleaving of any number of submitters: as long as no one gives up the
   lock with an unconfirmed broadcast, no two transactions are ever broadcast with the same nonce,
   and at most one submitter is between lock and receipt.
   */
  lemma NoncesNeverCollide(chain: nat, acts: seq<Action>)
    requires After(Start(chain), acts).Some?
    ensures var w := After(Start(chain), acts).value;
            && NonceSafe(w)
            && forall i: nat, j: nat :: w.PhaseOf(i) != Idle && w.PhaseOf(j) != Idle ==> i == j
  {
    RunKeepsInv(Start(chain), acts);
  }

  ghost predicate SafeForever(w: World) {
    forall acts :: After(w, acts).Some? ==> NonceSafe(After(w, acts).value)
  }

  lemma ThreeSteps(w: World, a: Action, b: Action, c: Action)
    ensures After(w, [a, b, c])
         == if Careless(w, a) || Step(w, a).None? then None
            else var u := Step(w, a).value;
              if Careless(u, b) || Step(u, b).None? then None
              else var v := Step(u, b).value;
                if Careless(v, c) then None else Step(v, c)
  {
    assert [a, b, c][..2] == [a, b] && [a, b][..1] == [a] && [a][..0] == [];
    assert After(w, [a]) == if Careless(w, a) then None else Step(w, a);
    assert After(w, [a, b]) == match After(w, [a])
                               case None => None
                               case Some(u) => if Careless(u, b) then None else Step(u, b);
  }

  lemma TwoSteps(w: World, a: Action, b: Action)
    ensures After(w, [a]) == if Careless(w, a) then None else Step(w, a)
    ensures After(w, [a, b]) == match After(w, [a])
                                case None => None
                                case Some(u) => if Careless(u, b) then None else Step(u, b)
  {
    assert [a, b][..1] == [a] && [a][..0] == [];
  }

  /** The lock never gets stuck: its holder can always leave without another broadcast. */
  lemma HolderCanLeave(w: World, i: nat) returns (acts: seq<Action>)
    requires Inv(w) && w.lock == Some(i)
    ensures After(w, acts).Some? && After(w, acts).value.lock == None && After(w, acts).value.log == w.log
  {
    assert w.PhaseOf(i) != Idle;
    if w.PhaseOf(i).Sent? {
      TwoSteps(w, ChainAdvances, Receipt(i));
      acts := [ChainAdvances, Receipt(i)];
    } else {
      TwoSteps(w, FailBeforeBroadcast(i), ChainAdvances);
      acts := [FailBeforeBroadcast(i)];
    }
  }

  /** The next submitter reads the same count and signs a second transaction for it. */
  lemma ReuseAfterCarelessRelease(w: World, i: nat)
    requires Inv(w) && w.PhaseOf(i).Sent? && w.chain <= w.PhaseOf(i).tx.nonce
    ensures var acts := [Acquire(i), ReadNonce(i), Broadcast(i)];
            var released := Step(w, Abandon(i)).value;
            After(released, acts).Some? && !NonceSafe(After(released, acts).value)
  {
    var tx := w.PhaseOf(i).tx;
    var released := Step(w, Abandon(i)).value;
    assert w.lock == Some(i);
    ThreeSteps(released, Acquire(i), ReadNonce(i), Broadcast(i));
    var acts := [Acquire(i), ReadNonce(i), Broadcast(i)];
    var tx' := Tx(i, w.nextSerial, w.chain);
    var last := After(released, acts).value;
    assert last.log == w.log + [tx'];
    assert tx in last.log && tx' in last.log && tx.nonce == tx'.nonce && tx != tx';
  }

  /**
   The exact condition: giving up the lock after a broadcast without a receipt, as the code does on
   a receipt timeout, keeps every continuation safe if and only if the chain has already passed the
   transaction's nonce.
   */
  lemma ReleaseIsSafeIffConfirmed(w: World, i: nat)
    requires Inv(w) && w.PhaseOf(i).Sent?
    ensures SafeForever(Step(w, Abandon(i)).value) <==> w.chain > w.PhaseOf(i).tx.nonce
  {
    var released := Step(w, Abandon(i)).value;
    if w.chain > w.PhaseOf(i).tx.nonce {
      StepKeepsInv(w, Abandon(i));
      forall acts | After(released, acts).Some? ensures NonceSafe(After(released, acts).value) {
        RunKeepsInv(released, acts);
      }
    } else {
      ReuseAfterCarelessRelease(w, i);
      assert After(released, [Acquire(i), ReadNonce(i), Broadcast(i)]).Some?;
    }
  }
}
