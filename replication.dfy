/**
 * The SET and GET coordinators of LeaderNode (handleSetCommand, handleGetCommand),
 * the liveness side effects of storeMessageToMember / retrieveMessageFromMember,
 * and the per-line dispatch of ClientHandler, as functions over the leader's state.
 *
 * A remote call is not made here: the outcome of the i-th Store (or Retrieve)
 * call of one command is supplied by the caller as answers(i) (or replies(i)).
 * The loops of the coordinators are left folds over the selected (or candidate)
 * members, so the imperative LeaderNode can be proved against them step by step.
 */
module Replication {
  import opened Wrappers
  import opened JavaLang
  import opened Commands
  import opened CommandParser
  import opened CommandHandling
  import opened Directory
  import opened MessageIndex
  import opened Selection

  const BAD_ID_FORMAT := "ERROR: Geçersiz ID formatı"
  const PARTIAL_FAILURE := "ERROR: Bazı üyelere kayıt başarısız"

  function LocalStoreFailed(reply: string): string
  {
    "ERROR: Lider diskine kayıt başarısız: " + reply
  }

  /**
   * What one Store call does: the member answers success or not, or the call
   * throws StatusRuntimeException / a connect or IO exception (a transport
   * failure), or it throws any other exception.
   */
  datatype StoreOutcome = Stored(success: bool) | StoreTransportFailure | StoreCallError

  /** What one Retrieve call does: the member answers a text ("" for a message it lacks), or the call throws. */
  datatype RetrieveOutcome = Retrieved(text: string) | RetrieveTransportFailure | RetrieveCallError

  /** The leader's state: the directory, messageToMembers, roundRobinCounter and its own store. */
  datatype Node = Node(dir: Dir, index: Index, counter: nat, storage: map<int, string>)

  // ---------------------------------------------------------------------
  // One remote call and its liveness side effect.

  /** storeMessageToMember: whether the member stored the message, and the directory afterwards. */
  function StoreCall(d: Dir, m: Member, o: StoreOutcome): (bool, Dir)
  {
    match o
    case Stored(success) =>
      if success then (true, if IsDead(d, m.id) then MarkAlive(d, m.id) else d)
      else (false, d)
    case StoreTransportFailure => (false, MarkDead(d, m.id))
    case StoreCallError => (false, d)
  }

  /** retrieveMessageFromMember: the non-empty text, if any, and the directory afterwards (an exception is None). */
  function RetrieveCall(d: Dir, m: Member, o: RetrieveOutcome): (Option<string>, Dir)
  {
    match o
    case Retrieved(text) =>
      (if text == "" then None else Some(text), if IsDead(d, m.id) then MarkAlive(d, m.id) else d)
    case RetrieveTransportFailure => (None, MarkDead(d, m.id))
    case RetrieveCallError => (None, d)
  }

  /**
   * storeMessageToMember on a valid directory: it succeeds exactly on a positive answer;
   * a transport failure leaves the member known but not alive; a success revives a
   * dead member; any other outcome changes nothing; no other member is touched.
   */
  lemma StoreCallSpec(d: Dir, m: Member, o: StoreOutcome)
    requires Valid(d)
    ensures var (ok, d') := StoreCall(d, m, o);
      && Valid(d')
      && (ok <==> o == Stored(true))
      && (forall x :: x != m.id ==> Find(d', x) == Find(d, x))
      && (o.StoreTransportFailure? ==> !IsAlive(d', m.id) && (Find(d', m.id).Some? <==> Find(d, m.id).Some?))
      && (o == Stored(true) && Find(d, m.id).Some? ==>
            IsAlive(d', m.id) && Find(d', m.id) == Some(Find(d, m.id).value.(status := ALIVE)))
      && (o != Stored(true) && !o.StoreTransportFailure? ==> d' == d)
  {
    StatusByList(d, m.id);
    match o {
      case Stored(success) =>
        if success && IsDead(d, m.id) {
          MarkAliveSpec(d, m.id);
          MarkAliveValid(d, m.id);
        }
      case StoreTransportFailure =>
        MarkDeadSpec(d, m.id);
        MarkDeadValid(d, m.id);
      case StoreCallError =>
    }
  }

  /**
   * retrieveMessageFromMember on a valid directory: an empty text counts as no answer;
   * a transport failure leaves the member known but not alive; any reply revives a
   * dead member; no other member is touched.
   */
  lemma RetrieveCallSpec(d: Dir, m: Member, o: RetrieveOutcome)
    requires Valid(d)
    ensures var (t, d') := RetrieveCall(d, m, o);
      && Valid(d')
      && (t.Some? <==> o.Retrieved? && o.text != "")
      && (t.Some? ==> t.value == o.text)
      && (forall x :: x != m.id ==> Find(d', x) == Find(d, x))
      && (o.RetrieveTransportFailure? ==> !IsAlive(d', m.id) && (Find(d', m.id).Some? <==> Find(d, m.id).Some?))
      && (o.Retrieved? && Find(d, m.id).Some? ==>
            IsAlive(d', m.id) && Find(d', m.id) == Some(Find(d, m.id).value.(status := ALIVE)))
      && (o.RetrieveCallError? ==> d' == d)
  {
    StatusByList(d, m.id);
    match o {
      case Retrieved(text) =>
        if IsDead(d, m.id) {
          MarkAliveSpec(d, m.id);
          MarkAliveValid(d, m.id);
        }
      case RetrieveTransportFailure =>
        MarkDeadSpec(d, m.id);
        MarkDeadValid(d, m.id);
      case RetrieveCallError =>
    }
  }

  // ---------------------------------------------------------------------
  // The SET fan-out: the loop over the selected members.

  /** The loop's variables: the directory, the index, successfulMembers and allSuccess. */
  datatype Fanout = Fanout(dir: Dir, index: Index, acked: seq<string>, allSuccess: bool)

  /** The fan-out loop after its first k iterations. */
  function FanoutUpTo(d: Dir, ix: Index, mid: int, sel: seq<Member>, answers: nat -> StoreOutcome, k: nat): Fanout
    requires k <= |sel|
  {
    if k == 0 then Fanout(d, ix, [], true)
    else
      var f := FanoutUpTo(d, ix, mid, sel, answers, k - 1);
      var m := sel[k - 1];
      var (ok, d') := StoreCall(f.dir, m, answers(k - 1));
      if ok then Fanout(d', Add(f.index, mid, m.id), f.acked + [m.id], f.allSuccess)
      else Fanout(d', f.index, f.acked, false)
  }

  /** Reference definition: the ids, in selection order, of the first k members whose answer was a success. */
  function AckedIds(sel: seq<Member>, answers: nat -> StoreOutcome, k: nat): seq<string>
    requires k <= |sel|
  {
    if k == 0 then []
    else AckedIds(sel, answers, k - 1) + (if answers(k - 1) == Stored(true) then [sel[k - 1].id] else [])
  }

  /** Reference definition: the ids, in selection order, of the first k members whose call did not succeed. */
  function NackedIds(sel: seq<Member>, answers: nat -> StoreOutcome, k: nat): seq<string>
    requires k <= |sel|
  {
    if k == 0 then []
    else NackedIds(sel, answers, k - 1) + (if answers(k - 1) == Stored(true) then [] else [sel[k - 1].id])
  }

  /** The ids of a list of members, in order. */
  function Ids(ms: seq<Member>): (r: seq<string>)
    ensures |r| == |ms| && forall i :: 0 <= i < |ms| ==> r[i] == ms[i].id
  {
    if ms == [] then [] else Ids(ms[..|ms| - 1]) + [ms[|ms| - 1].id]
  }

  /** A Store call counts as a success exactly on a positive answer. */
  lemma StoreCallOk(d: Dir, m: Member, o: StoreOutcome)
    ensures StoreCall(d, m, o).0 <==> o == Stored(true)
  {
  }

  /** One iteration of the fan-out, with the success test spelled out. */
  lemma FanoutStep(d: Dir, ix: Index, mid: int, sel: seq<Member>, answers: nat -> StoreOutcome, k: nat)
    requires 0 < k <= |sel|
    ensures var f := FanoutUpTo(d, ix, mid, sel, answers, k - 1);
      var g := FanoutUpTo(d, ix, mid, sel, answers, k);
      var ok := answers(k - 1) == Stored(true);
      && g.dir == StoreCall(f.dir, sel[k - 1], answers(k - 1)).1
      && g.index == (if ok then Add(f.index, mid, sel[k - 1].id) else f.index)
      && g.acked == (if ok then f.acked + [sel[k - 1].id] else f.acked)
      && g.allSuccess == (f.allSuccess && ok)
  {
    var f := FanoutUpTo(d, ix, mid, sel, answers, k - 1);
    StoreCallOk(f.dir, sel[k - 1], answers(k - 1));
  }

  /** The fan-out's successfulMembers are the acknowledging ids, and allSuccess holds exactly while every answer was a success. */
  lemma {:induction false} FanoutAcked(d: Dir, ix: Index, mid: int, sel: seq<Member>, answers: nat -> StoreOutcome, k: nat)
    requires k <= |sel|
    ensures var f := FanoutUpTo(d, ix, mid, sel, answers, k);
      && f.acked == AckedIds(sel, answers, k)
      && (f.allSuccess <==> forall i :: 0 <= i < k ==> answers(i) == Stored(true))
  {
    if k > 0 {
      FanoutAcked(d, ix, mid, sel, answers, k - 1);
      FanoutStep(d, ix, mid, sel, answers, k);
    }
  }

  /** The fan-out appends the acknowledging ids to the message's list and touches no other message. */
  lemma {:induction false} FanoutIndex(d: Dir, ix: Index, mid: int, sel: seq<Member>, answers: nat -> StoreOutcome, k: nat)
    requires k <= |sel|
    ensures var f := FanoutUpTo(d, ix, mid, sel, answers, k);
      && Members(f.index, mid) == Members(ix, mid) + f.acked
      && (forall j :: j != mid ==> Members(f.index, j) == Members(ix, j))
      && (NoEmpty(ix) ==> NoEmpty(f.index))
  {
    if k > 0 {
      FanoutIndex(d, ix, mid, sel, answers, k - 1);
      FanoutStep(d, ix, mid, sel, answers, k);
      var f := FanoutUpTo(d, ix, mid, sel, answers, k - 1);
      var g := FanoutUpTo(d, ix, mid, sel, answers, k);
      var x := sel[k - 1].id;
      if answers(k - 1) == Stored(true) {
        AddSpec(f.index, mid, x);
        assert g.index == Add(f.index, mid, x) && g.acked == f.acked + [x];
        assert Members(ix, mid) + f.acked + [x] == Members(ix, mid) + (f.acked + [x]);
      } else {
        assert g.index == f.index && g.acked == f.acked;
      }
    }
  }

  /**
   * The fan-out records exactly the acknowledging members, in selection order, at the
   * end of the message's list, touches no other message, and keeps allSuccess exactly
   * while every answer so far was a success.
   */
  lemma FanoutSpec(d: Dir, ix: Index, mid: int, sel: seq<Member>, answers: nat -> StoreOutcome, k: nat)
    requires k <= |sel|
    ensures var f := FanoutUpTo(d, ix, mid, sel, answers, k);
      && f.acked == AckedIds(sel, answers, k)
      && Members(f.index, mid) == Members(ix, mid) + AckedIds(sel, answers, k)
      && (forall j :: j != mid ==> Members(f.index, j) == Members(ix, j))
      && (NoEmpty(ix) ==> NoEmpty(f.index))
      && (f.allSuccess <==> forall i :: 0 <= i < k ==> answers(i) == Stored(true))
  {
    FanoutAcked(d, ix, mid, sel, answers, k);
    FanoutIndex(d, ix, mid, sel, answers, k);
  }

  /** Fewer acknowledgements than calls exactly when some answer was not a success; with all successes they are the selection's ids. */
  lemma {:induction false} AckedCount(sel: seq<Member>, answers: nat -> StoreOutcome, k: nat)
    requires k <= |sel|
    ensures |AckedIds(sel, answers, k)| <= k
    ensures |AckedIds(sel, answers, k)| == k <==> forall i :: 0 <= i < k ==> answers(i) == Stored(true)
    ensures (forall i :: 0 <= i < k ==> answers(i) == Stored(true)) ==> AckedIds(sel, answers, k) == Ids(sel[..k])
  {
    if k > 0 {
      AckedCount(sel, answers, k - 1);
      assert sel[..k][..k - 1] == sel[..k - 1];
    }
  }

  /** An id is acknowledged exactly when some selected member with that id answered success. */
  lemma {:induction false} AckedMembership(sel: seq<Member>, answers: nat -> StoreOutcome, k: nat, x: string)
    requires k <= |sel|
    ensures x in AckedIds(sel, answers, k) <==> exists j :: 0 <= j < k && sel[j].id == x && answers(j) == Stored(true)
  {
    if k > 0 {
      AckedMembership(sel, answers, k - 1, x);
      if answers(k - 1) == Stored(true) && sel[k - 1].id == x {
        assert x in AckedIds(sel, answers, k);
      }
    }
  }

  /** The fan-out keeps a valid directory valid. */
  lemma {:induction false} FanoutValid(d: Dir, ix: Index, mid: int, sel: seq<Member>, answers: nat -> StoreOutcome, k: nat)
    requires Valid(d) && k <= |sel|
    ensures Valid(FanoutUpTo(d, ix, mid, sel, answers, k).dir)
  {
    if k > 0 {
      FanoutValid(d, ix, mid, sel, answers, k - 1);
      StoreCallSpec(FanoutUpTo(d, ix, mid, sel, answers, k - 1).dir, sel[k - 1], answers(k - 1));
    }
  }

  /** Iterations k0 .. k-1 do not change a member that none of them calls. */
  lemma {:induction false} FanoutKeeps(d: Dir, ix: Index, mid: int, sel: seq<Member>, answers: nat -> StoreOutcome, k0: nat, k: nat, x: string)
    requires Valid(d) && k0 <= k <= |sel|
    requires forall i :: k0 <= i < k ==> sel[i].id != x
    ensures Find(FanoutUpTo(d, ix, mid, sel, answers, k).dir, x) == Find(FanoutUpTo(d, ix, mid, sel, answers, k0).dir, x)
  {
    if k > k0 {
      FanoutKeeps(d, ix, mid, sel, answers, k0, k - 1, x);
      FanoutValid(d, ix, mid, sel, answers, k - 1);
      StoreCallSpec(FanoutUpTo(d, ix, mid, sel, answers, k - 1).dir, sel[k - 1], answers(k - 1));
    }
  }

  // ---------------------------------------------------------------------
  // The clean-up after a partial failure.

  /** The clean-up loop after its first k iterations: every selected member not acknowledged loses one entry. */
  function PruneUpTo(ix: Index, mid: int, sel: seq<Member>, acked: seq<string>, k: nat): Index
    requires k <= |sel|
  {
    if k == 0 then ix
    else
      var p := PruneUpTo(ix, mid, sel, acked, k - 1);
      if sel[k - 1].id in acked then p else Remove(p, mid, sel[k - 1].id)
  }

  /** Reference definition: the ids among the first k selected members that are not in acked. */
  function FailedIds(sel: seq<Member>, acked: seq<string>, k: nat): seq<string>
    requires k <= |sel|
  {
    if k == 0 then []
    else FailedIds(sel, acked, k - 1) + (if sel[k - 1].id in acked then [] else [sel[k - 1].id])
  }

  /** One iteration of the clean-up, spelled out. */
  lemma PruneStep(ix: Index, mid: int, sel: seq<Member>, acked: seq<string>, k: nat)
    requires 0 < k <= |sel|
    ensures var p := PruneUpTo(ix, mid, sel, acked, k - 1);
      PruneUpTo(ix, mid, sel, acked, k) == if sel[k - 1].id in acked then p else Remove(p, mid, sel[k - 1].id)
    ensures FailedIds(sel, acked, k) ==
      FailedIds(sel, acked, k - 1) + (if sel[k - 1].id in acked then [] else [sel[k - 1].id])
  {
  }

  /**
   * The clean-up takes one entry per failed member, in selection order, out of the
   * message's list: the first entry for that member, which may be one an earlier SET
   * of the same id recorded.
   */
  lemma {:induction false} PruneList(ix: Index, mid: int, sel: seq<Member>, acked: seq<string>, k: nat)
    requires k <= |sel|
    ensures Members(PruneUpTo(ix, mid, sel, acked, k), mid) == RemoveEach(Members(ix, mid), FailedIds(sel, acked, k))
  {
    if k > 0 {
      PruneList(ix, mid, sel, acked, k - 1);
      PruneStep(ix, mid, sel, acked, k);
      var p := PruneUpTo(ix, mid, sel, acked, k - 1);
      var x := sel[k - 1].id;
      var f := FailedIds(sel, acked, k - 1);
      if x !in acked {
        RemoveSpec(p, mid, x);
        assert FailedIds(sel, acked, k) == f + [x];
        assert (f + [x])[..|f|] == f;
        assert RemoveEach(Members(ix, mid), f + [x]) == RemoveOne(RemoveEach(Members(ix, mid), f), x);
      } else {
        assert FailedIds(sel, acked, k) == f;
      }
    }
  }

  /** So the message's list loses exactly one entry per failed member id, where it has one. */
  lemma PruneCounts(ix: Index, mid: int, sel: seq<Member>, acked: seq<string>, k: nat)
    requires k <= |sel|
    ensures multiset(Members(PruneUpTo(ix, mid, sel, acked, k), mid)) == multiset(Members(ix, mid)) - multiset(FailedIds(sel, acked, k))
  {
    PruneList(ix, mid, sel, acked, k);
    RemoveEachCounts(Members(ix, mid), FailedIds(sel, acked, k));
  }

  /** The clean-up touches no other message and leaves no empty list behind. */
  lemma {:induction false} PruneFrame(ix: Index, mid: int, sel: seq<Member>, acked: seq<string>, k: nat)
    requires k <= |sel|
    ensures var p := PruneUpTo(ix, mid, sel, acked, k);
      && (forall j :: j != mid ==> Members(p, j) == Members(ix, j))
      && (NoEmpty(ix) ==> NoEmpty(p))
  {
    if k > 0 {
      PruneFrame(ix, mid, sel, acked, k - 1);
      PruneStep(ix, mid, sel, acked, k);
      RemoveFrame(PruneUpTo(ix, mid, sel, acked, k - 1), mid, sel[k - 1].id);
    }
  }

  /** With distinct selected ids, the ids missing from the acknowledgements are exactly the ones that did not succeed. */
  lemma {:induction false} FailedAreNacked(sel: seq<Member>, answers: nat -> StoreOutcome, k: nat)
    requires k <= |sel|
    requires forall i, j :: 0 <= i < j < |sel| ==> sel[i].id != sel[j].id
    ensures FailedIds(sel, AckedIds(sel, answers, |sel|), k) == NackedIds(sel, answers, k)
  {
    if k > 0 {
      FailedAreNacked(sel, answers, k - 1);
      var x := sel[k - 1].id;
      AckedMembership(sel, answers, |sel|, x);
      if x in AckedIds(sel, answers, |sel|) {
        var j :| 0 <= j < |sel| && sel[j].id == x && answers(j) == Stored(true);
        assert j == k - 1;
      }
    }
  }

  // ---------------------------------------------------------------------
  // handleSetCommand.

  /**
   * handleSetCommand: parse the id, store locally, record the leader, select the
   * replicas, fan out, and on a partial failure clean up and answer an error.
   */
  function SetSpec(n: Node, strategy: LoadBalancingStrategy, tolerance: int, id: string, message: string,
                   fault: Option<string>, answers: nat -> StoreOutcome): (string, Node)
  {
    match ParseInt(id)
    case None => (BAD_ID_FORMAT, n)
    case Some(mid) =>
      var (local, storage') := ExecuteStep(n.storage, Some(SetCommand(id, message)), fault);
      if local != OK then (LocalStoreFailed(local), n.(storage := storage'))
      else
        var ix1 := Add(n.index, mid, LEADER);
        var (sel, counter') := Select(strategy, n.dir.active, tolerance, mid, n.counter);
        if sel == [] then (OK, Node(n.dir, ix1, counter', storage'))
        else
          var f := FanoutUpTo(n.dir, ix1, mid, sel, answers, |sel|);
          if f.allSuccess && |f.acked| == |sel| then (OK, Node(f.dir, f.index, counter', storage'))
          else (PARTIAL_FAILURE, Node(f.dir, PruneUpTo(f.index, mid, sel, f.acked, |sel|), counter', storage'))
  }

  /** A non-integer id is refused before anything is stored, selected or called. */
  lemma SetBadId(n: Node, strategy: LoadBalancingStrategy, tolerance: int, id: string, message: string,
                 fault: Option<string>, answers: nat -> StoreOutcome)
    requires ParseInt(id).None?
    ensures SetSpec(n, strategy, tolerance, id, message, fault, answers) == (BAD_ID_FORMAT, n)
  {
  }

  /** A failed local write is reported with the store's own error, and no replica is contacted: nothing changes. */
  lemma SetLocalFailure(n: Node, strategy: LoadBalancingStrategy, tolerance: int, id: string, message: string,
                        fault: string, answers: nat -> StoreOutcome)
    requires ParseInt(id).Some?
    ensures SetSpec(n, strategy, tolerance, id, message, Some(fault), answers) == (LocalStoreFailed(WriteError(fault)), n)
  {
  }

  /**
   * With a working local disk: the message is stored locally, the counter moves as the
   * selection says, and the answer is OK exactly when every selected member acknowledged
   * (so also when none was selected); otherwise it is the partial-failure error.
   */
  lemma SetOkIff(n: Node, strategy: LoadBalancingStrategy, tolerance: int, id: string, message: string, answers: nat -> StoreOutcome)
    requires ParseInt(id).Some?
    ensures var mid := ParseInt(id).value;
      var (r, n') := SetSpec(n, strategy, tolerance, id, message, None, answers);
      var (sel, counter') := Select(strategy, n.dir.active, tolerance, mid, n.counter);
      && n'.storage == n.storage[mid := message]
      && n'.counter == counter'
      && (r == OK <==> forall i :: 0 <= i < |sel| ==> answers(i) == Stored(true))
      && (r != OK ==> r == PARTIAL_FAILURE)
  {
    var mid := ParseInt(id).value;
    var (sel, counter') := Select(strategy, n.dir.active, tolerance, mid, n.counter);
    if sel != [] {
      var ix1 := Add(n.index, mid, LEADER);
      FanoutSpec(n.dir, ix1, mid, sel, answers, |sel|);
      AckedCount(sel, answers, |sel|);
    }
  }

  /** The shape of a SET with an integer id whose local store succeeded. */
  lemma SetShape(n: Node, strategy: LoadBalancingStrategy, tolerance: int, id: string, message: string, answers: nat -> StoreOutcome)
    requires ParseInt(id).Some?
    ensures var mid := ParseInt(id).value;
      var ix1 := Add(n.index, mid, LEADER);
      var (sel, counter') := Select(strategy, n.dir.active, tolerance, mid, n.counter);
      var f := FanoutUpTo(n.dir, ix1, mid, sel, answers, |sel|);
      var (r, n') := SetSpec(n, strategy, tolerance, id, message, None, answers);
      && n'.counter == counter' && n'.storage == n.storage[mid := message]
      && (sel == [] ==> r == OK && n'.dir == n.dir && n'.index == ix1)
      && (sel != [] && f.allSuccess && |f.acked| == |sel| ==> r == OK && n'.dir == f.dir && n'.index == f.index)
      && (sel != [] && !(f.allSuccess && |f.acked| == |sel|) ==>
            r == PARTIAL_FAILURE && n'.dir == f.dir && n'.index == PruneUpTo(f.index, mid, sel, f.acked, |sel|))
  {
  }

  /**
   * A successful SET records the leader and then every selected member, in selection
   * order, at the end of the message's list.
   */
  lemma SetRecordsReplicas(n: Node, strategy: LoadBalancingStrategy, tolerance: int, id: string, message: string, answers: nat -> StoreOutcome)
    requires ParseInt(id).Some?
    requires SetSpec(n, strategy, tolerance, id, message, None, answers).0 == OK
    ensures var mid := ParseInt(id).value;
      var sel := Select(strategy, n.dir.active, tolerance, mid, n.counter).0;
      Members(SetSpec(n, strategy, tolerance, id, message, None, answers).1.index, mid) == Members(n.index, mid) + [LEADER] + Ids(sel)
  {
    var mid := ParseInt(id).value;
    var sel := Select(strategy, n.dir.active, tolerance, mid, n.counter).0;
    var ix1 := Add(n.index, mid, LEADER);
    AddSpec(n.index, mid, LEADER);
    SetOkIff(n, strategy, tolerance, id, message, answers);
    if sel != [] {
      FanoutSpec(n.dir, ix1, mid, sel, answers, |sel|);
      AckedCount(sel, answers, |sel|);
      assert sel[..|sel|] == sel;
    }
  }

  /**
   * A partially failed SET leaves the message's list as it was, plus the leader and the
   * acknowledging members, and then with one entry taken out for each member whose call
   * did not succeed (in selection order; the first entry for it, so possibly an earlier one).
   */
  lemma SetPartialFailure(n: Node, strategy: LoadBalancingStrategy, tolerance: int, id: string, message: string, answers: nat -> StoreOutcome)
    requires ParseInt(id).Some? && Valid(n.dir)
    requires SetSpec(n, strategy, tolerance, id, message, None, answers).0 != OK
    ensures var mid := ParseInt(id).value;
      var sel := Select(strategy, n.dir.active, tolerance, mid, n.counter).0;
      var grown := Members(n.index, mid) + [LEADER] + AckedIds(sel, answers, |sel|);
      var after := Members(SetSpec(n, strategy, tolerance, id, message, None, answers).1.index, mid);
      && after == RemoveEach(grown, NackedIds(sel, answers, |sel|))
      && multiset(after) == multiset(grown) - multiset(NackedIds(sel, answers, |sel|))
  {
    var mid := ParseInt(id).value;
    var sel := Select(strategy, n.dir.active, tolerance, mid, n.counter).0;
    var ix1 := Add(n.index, mid, LEADER);
    AddSpec(n.index, mid, LEADER);
    SetShape(n, strategy, tolerance, id, message, answers);
    var f := FanoutUpTo(n.dir, ix1, mid, sel, answers, |sel|);
    FanoutSpec(n.dir, ix1, mid, sel, answers, |sel|);
    PruneList(f.index, mid, sel, f.acked, |sel|);
    SelectDistinct(strategy, n.dir, tolerance, mid, n.counter);
    FailedAreNacked(sel, answers, |sel|);
    var grown := Members(n.index, mid) + [LEADER] + AckedIds(sel, answers, |sel|);
    assert Members(f.index, mid) == grown;
    RemoveEachCounts(grown, NackedIds(sel, answers, |sel|));
  }

  /** Every SET leaves other messages' lists alone, never leaves an empty list, and keeps the directory valid. */
  lemma SetPreserves(n: Node, strategy: LoadBalancingStrategy, tolerance: int, id: string, message: string,
                     fault: Option<string>, answers: nat -> StoreOutcome)
    requires Valid(n.dir) && NoEmpty(n.index)
    ensures var n' := SetSpec(n, strategy, tolerance, id, message, fault, answers).1;
      && Valid(n'.dir)
      && NoEmpty(n'.index)
      && (ParseInt(id).Some? ==> forall j :: j != ParseInt(id).value ==> Members(n'.index, j) == Members(n.index, j))
  {
    if ParseInt(id).Some? {
      if fault.Some? {
        SetFaultKeeps(n, strategy, tolerance, id, message, fault, answers);
      } else {
        SetPreservesStored(n, strategy, tolerance, id, message, answers);
      }
    }
  }

  /** A SET whose local store fails changes neither the directory nor the index. */
  lemma SetFaultKeeps(n: Node, strategy: LoadBalancingStrategy, tolerance: int, id: string, message: string,
                      fault: Option<string>, answers: nat -> StoreOutcome)
    requires ParseInt(id).Some? && fault.Some?
    ensures var n' := SetSpec(n, strategy, tolerance, id, message, fault, answers).1;
      n'.dir == n.dir && n'.index == n.index
  {
  }

  /** SetPreserves for a SET whose local store succeeded. */
  lemma SetPreservesStored(n: Node, strategy: LoadBalancingStrategy, tolerance: int, id: string, message: string,
                           answers: nat -> StoreOutcome)
    requires Valid(n.dir) && NoEmpty(n.index) && ParseInt(id).Some?
    ensures var n' := SetSpec(n, strategy, tolerance, id, message, None, answers).1;
      && Valid(n'.dir)
      && NoEmpty(n'.index)
      && forall j :: j != ParseInt(id).value ==> Members(n'.index, j) == Members(n.index, j)
  {
    var mid := ParseInt(id).value;
    var sel := Select(strategy, n.dir.active, tolerance, mid, n.counter).0;
    var ix1 := Add(n.index, mid, LEADER);
    AddSpec(n.index, mid, LEADER);
    SetShape(n, strategy, tolerance, id, message, answers);
    if sel != [] {
      var f := FanoutUpTo(n.dir, ix1, mid, sel, answers, |sel|);
      FanoutSpec(n.dir, ix1, mid, sel, answers, |sel|);
      FanoutValid(n.dir, ix1, mid, sel, answers, |sel|);
      PruneFrame(f.index, mid, sel, f.acked, |sel|);
    }
  }

  /**
   * A selected member whose Store call fails in transport ends the SET dead
   * (no longer in the active list), so no later selection picks it.
   */
  lemma SetTransportMarksDead(n: Node, strategy: LoadBalancingStrategy, tolerance: int, id: string, message: string,
                              answers: nat -> StoreOutcome, i: nat)
    requires ParseInt(id).Some? && Valid(n.dir)
    requires i < |Select(strategy, n.dir.active, tolerance, ParseInt(id).value, n.counter).0|
    requires answers(i).StoreTransportFailure?
    ensures var x := Select(strategy, n.dir.active, tolerance, ParseInt(id).value, n.counter).0[i].id;
      var n' := SetSpec(n, strategy, tolerance, id, message, None, answers).1;
      && !IsAlive(n'.dir, x)
      && Count(n'.dir.active, x) == 0
  {
    var mid := ParseInt(id).value;
    var sel := Select(strategy, n.dir.active, tolerance, mid, n.counter).0;
    var x := sel[i].id;
    var ix1 := Add(n.index, mid, LEADER);
    SelectDistinct(strategy, n.dir, tolerance, mid, n.counter);
    FanoutValid(n.dir, ix1, mid, sel, answers, i);
    StoreCallSpec(FanoutUpTo(n.dir, ix1, mid, sel, answers, i).dir, sel[i], answers(i));
    FanoutKeeps(n.dir, ix1, mid, sel, answers, i + 1, |sel|, x);
    FanoutValid(n.dir, ix1, mid, sel, answers, |sel|);
    var d' := FanoutUpTo(n.dir, ix1, mid, sel, answers, |sel|).dir;
    StatusByList(d', x);
  }

  // ---------------------------------------------------------------------
  // handleGetCommand.

  /** The members to ask, in recorded order: the recorded ids that resolve to an ALIVE member. */
  function Candidates(d: Dir, ids: seq<string>): seq<Member>
  {
    if ids == [] then []
    else
      var x := ids[|ids| - 1];
      Candidates(d, ids[..|ids| - 1]) + (if IsAlive(d, x) then [Find(d, x).value] else [])
  }

  /** A single recorded id gives its member when it is alive, and nothing otherwise (a dead or unknown id is skipped). */
  lemma CandidatesOne(d: Dir, x: string)
    ensures Candidates(d, [x]) == if IsAlive(d, x) then [Find(d, x).value] else []
  {
    assert [x][..0] == [];
  }

  /** The candidate scan works id by id in recorded order: the candidates of a + b are those of a, then those of b. */
  lemma {:induction false} CandidatesConcat(d: Dir, a: seq<string>, b: seq<string>)
    ensures Candidates(d, a + b) == Candidates(d, a) + Candidates(d, b)
    decreases |b|
  {
    if b == [] {
      assert a + b == a;
    } else {
      var init := b[..|b| - 1];
      var x := b[|b| - 1];
      CandidatesConcat(d, a, init);
      assert (a + b)[..|a + b| - 1] == a + init;
      assert (a + b)[|a + b| - 1] == x;
    }
  }

  /**
   * Every candidate is a recorded, alive member as the directory holds it; every
   * recorded alive member is a candidate; when every recorded id is alive the
   * candidates follow the recorded order one for one.
   */
  lemma {:induction false} CandidatesSpec(d: Dir, ids: seq<string>)
    ensures var c := Candidates(d, ids);
      && |c| <= |ids|
      && (forall m :: m in c ==> m.id in ids && IsAlive(d, m.id) && Find(d, m.id) == Some(m))
      && (forall x :: x in ids && IsAlive(d, x) ==> Find(d, x).value in c)
      && ((forall j :: 0 <= j < |ids| ==> IsAlive(d, ids[j])) ==> |c| == |ids| && forall j :: 0 <= j < |ids| ==> c[j].id == ids[j])
  {
    if ids != [] {
      var init := ids[..|ids| - 1];
      var x := ids[|ids| - 1];
      CandidatesSpec(d, init);
      assert ids == init + [x];
      FindInSpec(d.active, x);
      FindInSpec(d.dead, x);
    }
  }

  /** The state of the fallback loop: still searching, or found a text; with the directory so far. */
  datatype Search = Searching(dir: Dir) | Found(text: string, dir: Dir)

  /** The fallback loop after its first k candidates: it stops at the first non-empty text. */
  function FallbackUpTo(d: Dir, cands: seq<Member>, replies: nat -> RetrieveOutcome, k: nat): Search
    requires k <= |cands|
  {
    if k == 0 then Searching(d)
    else
      var s := FallbackUpTo(d, cands, replies, k - 1);
      if s.Found? then s
      else
        var (t, d') := RetrieveCall(s.dir, cands[k - 1], replies(k - 1));
        if t.Some? then Found(t.value, d') else Searching(d')
  }

  /** A reply that ends the search: a non-empty text. */
  predicate Hit(o: RetrieveOutcome)
  {
    o.Retrieved? && o.text != ""
  }

  /** The search finds nothing when no reply is a hit, and otherwise the text of the first hit. */
  lemma {:induction false} FallbackSpec(d: Dir, cands: seq<Member>, replies: nat -> RetrieveOutcome, k: nat)
    requires k <= |cands|
    ensures var s := FallbackUpTo(d, cands, replies, k);
      && ((forall j :: 0 <= j < k ==> !Hit(replies(j))) ==> s.Searching?)
      && (forall i :: 0 <= i < k && Hit(replies(i)) && (forall j :: 0 <= j < i ==> !Hit(replies(j))) ==>
            s.Found? && s.text == replies(i).text)
  {
    if k > 0 {
      FallbackSpec(d, cands, replies, k - 1);
    }
  }

  /** Once a text is found the loop returns it: later candidates are not asked. */
  lemma {:induction false} FallbackStaysFound(d: Dir, cands: seq<Member>, replies: nat -> RetrieveOutcome, k0: nat, k: nat)
    requires k0 <= k <= |cands|
    requires FallbackUpTo(d, cands, replies, k0).Found?
    ensures FallbackUpTo(d, cands, replies, k) == FallbackUpTo(d, cands, replies, k0)
  {
    if k > k0 {
      FallbackStaysFound(d, cands, replies, k0, k - 1);
    }
  }

  /** The search keeps a valid directory valid and changes only members it asks. */
  lemma {:induction false} FallbackDir(d: Dir, cands: seq<Member>, replies: nat -> RetrieveOutcome, k: nat)
    requires Valid(d) && k <= |cands|
    ensures Valid(FallbackUpTo(d, cands, replies, k).dir)
    ensures forall x :: (forall i :: 0 <= i < k ==> cands[i].id != x) ==> Find(FallbackUpTo(d, cands, replies, k).dir, x) == Find(d, x)
  {
    if k > 0 {
      FallbackDir(d, cands, replies, k - 1);
      var s := FallbackUpTo(d, cands, replies, k - 1);
      if s.Searching? {
        RetrieveCallSpec(s.dir, cands[k - 1], replies(k - 1));
      }
    }
  }

  /**
   * handleGetCommand: parse the id, answer from the local store unless that says
   * NOT_FOUND, otherwise ask the recorded alive members in order.
   */
  function GetSpec(n: Node, id: string, fault: Option<string>, replies: nat -> RetrieveOutcome): (string, Node)
  {
    match ParseInt(id)
    case None => (BAD_ID_FORMAT, n)
    case Some(mid) =>
      var local := ExecuteStep(n.storage, Some(GetCommand(id)), fault).0;
      if local != NOT_FOUND then (local, n)
      else
        var ids := Members(n.index, mid);
        if ids == [] then (NOT_FOUND, n)
        else
          var cands := Candidates(n.dir, ids);
          if cands == [] then (NOT_FOUND, n)
          else
            var s := FallbackUpTo(n.dir, cands, replies, |cands|);
            (if s.Found? then s.text else NOT_FOUND, n.(dir := s.dir))
  }

  /** A non-integer id is refused before the local store or any member is asked. */
  lemma GetBadId(n: Node, id: string, fault: Option<string>, replies: nat -> RetrieveOutcome)
    requires ParseInt(id).None?
    ensures GetSpec(n, id, fault, replies) == (BAD_ID_FORMAT, n)
  {
  }

  /** A local answer other than NOT_FOUND (the text, or a read error) is returned and nothing changes. */
  lemma GetLocalHit(n: Node, id: string, fault: Option<string>, replies: nat -> RetrieveOutcome)
    requires ParseInt(id).Some? && ParseInt(id).value in n.storage
    requires fault.Some? || n.storage[ParseInt(id).value] != NOT_FOUND
    ensures GetSpec(n, id, fault, replies) ==
      (if fault.Some? then ReadError(fault.value) else n.storage[ParseInt(id).value], n)
  {
  }

  /**
   * On a local miss the answer is NOT_FOUND when no alive recorded member gives a
   * non-empty text, and otherwise the text of the first candidate that does.
   */
  lemma GetFallback(n: Node, id: string, fault: Option<string>, replies: nat -> RetrieveOutcome)
    requires ParseInt(id).Some?
    requires ExecuteStep(n.storage, Some(GetCommand(id)), fault).0 == NOT_FOUND
    ensures var cands := Candidates(n.dir, Members(n.index, ParseInt(id).value));
      var r := GetSpec(n, id, fault, replies).0;
      && ((forall j :: 0 <= j < |cands| ==> !Hit(replies(j))) ==> r == NOT_FOUND)
      && (forall i :: 0 <= i < |cands| && Hit(replies(i)) && (forall j :: 0 <= j < i ==> !Hit(replies(j))) ==>
            r == replies(i).text)
  {
    var mid := ParseInt(id).value;
    var cands := Candidates(n.dir, Members(n.index, mid));
    FallbackSpec(n.dir, cands, replies, |cands|);
  }

  /**
   * GET never changes the index, the counter or the store; it keeps the directory valid
   * and changes only members recorded for the message.
   */
  lemma GetFrame(n: Node, id: string, fault: Option<string>, replies: nat -> RetrieveOutcome)
    requires Valid(n.dir)
    ensures var n' := GetSpec(n, id, fault, replies).1;
      && n'.index == n.index && n'.counter == n.counter && n'.storage == n.storage
      && Valid(n'.dir)
      && (ParseInt(id).Some? ==> forall x :: x !in Members(n.index, ParseInt(id).value) ==> Find(n'.dir, x) == Find(n.dir, x))
  {
    if ParseInt(id).Some? {
      var ids := Members(n.index, ParseInt(id).value);
      var cands := Candidates(n.dir, ids);
      CandidatesSpec(n.dir, ids);
      FallbackDir(n.dir, cands, replies, |cands|);
    }
  }

  // ---------------------------------------------------------------------
  // ClientHandler: one line in, one reply out.

  /** The body of ClientHandler's loop for one line: parse, then SET or GET through the coordinators. */
  function HandleLine(n: Node, strategy: LoadBalancingStrategy, tolerance: int, line: string, fault: Option<string>,
                      answers: nat -> StoreOutcome, replies: nat -> RetrieveOutcome): (string, Node)
  {
    match Parse(Some(line))
    case Failure(msg) => ("ERROR: " + msg, n)
    case Success(cmd) =>
      match cmd
      case SetCommand(id, message) => SetSpec(n, strategy, tolerance, id, message, fault, answers)
      case GetCommand(id) => GetSpec(n, id, fault, replies)
  }

  /** A line the parser refuses is answered with ERROR and the parser's message, and nothing changes. */
  lemma HandleLineParseError(n: Node, strategy: LoadBalancingStrategy, tolerance: int, line: string, fault: Option<string>,
                             answers: nat -> StoreOutcome, replies: nat -> RetrieveOutcome)
    requires Parse(Some(line)).Failure?
    ensures HandleLine(n, strategy, tolerance, line, fault, answers, replies) == ("ERROR: " + Parse(Some(line)).error, n)
  {
  }

  /**
   * Through the leader: a SET of a message other than NOT_FOUND followed by a GET of the
   * same id, with working disks, gives the message back from the leader's store,
   * whatever the members answer.
   */
  lemma SetThenGetAtLeader(n: Node, strategy: LoadBalancingStrategy, tolerance: int, id: string, message: string,
                           answers: nat -> StoreOutcome, replies: nat -> RetrieveOutcome)
    requires ParseInt(id).Some? && message != NOT_FOUND
    ensures var n1 := SetSpec(n, strategy, tolerance, id, message, None, answers).1;
      GetSpec(n1, id, None, replies) == (message, n1)
  {
    SetOkIff(n, strategy, tolerance, id, message, answers);
  }

  /**
   * The leader's store holds NOT_FOUND after a SET of that text, and a later GET takes
   * it for a miss: with no recorded member answering, the reply is NOT_FOUND.
   */
  lemma StoredNotFoundIsMiss(n: Node, strategy: LoadBalancingStrategy, tolerance: int, id: string,
                             answers: nat -> StoreOutcome, replies: nat -> RetrieveOutcome)
    requires ParseInt(id).Some?
    requires forall j :: !Hit(replies(j))
    ensures var n1 := SetSpec(n, strategy, tolerance, id, NOT_FOUND, None, answers).1;
      && n1.storage[ParseInt(id).value] == NOT_FOUND
      && GetSpec(n1, id, None, replies).0 == NOT_FOUND
  {
    SetOkIff(n, strategy, tolerance, id, NOT_FOUND, answers);
    var n1 := SetSpec(n, strategy, tolerance, id, NOT_FOUND, None, answers).1;
    GetFallback(n1, id, None, replies);
  }

  /** The two client lines "SET id msg" and "GET id", with working disks, give OK-or-error and then msg. */
  lemma HandleLineRoundTrip(n: Node, strategy: LoadBalancingStrategy, tolerance: int, id: string, msg: string,
                            answers: nat -> StoreOutcome, replies: nat -> RetrieveOutcome)
    requires ParseInt(id).Some?
    requires msg != [] && IsTrimmed(msg) && msg != NOT_FOUND
    ensures var (r1, n1) := HandleLine(n, strategy, tolerance, "SET " + id + " " + msg, None, answers, replies);
      && (r1 == OK || r1 == PARTIAL_FAILURE)
      && HandleLine(n1, strategy, tolerance, "GET " + id, None, answers, replies) == (msg, n1)
  {
    ParsedIsTrimmed(id);
    ParseSetRoundTrip(id, msg);
    GetIgnoresExtra(id, "x");
    SetOkIff(n, strategy, tolerance, id, msg, answers);
    SetThenGetAtLeader(n, strategy, tolerance, id, msg, answers, replies);
  }

  // ---------------------------------------------------------------------
  // Worked scenarios.

  function M1(): Member { Member("m1", "localhost", 5001, ALIVE) }
  function M2(): Member { Member("m2", "localhost", 5002, ALIVE) }
  function M3(): Member { Member("m3", "localhost", 5003, ALIVE) }

  /** A fresh leader with three alive members and nothing stored. */
  function ThreeMembers(): Node
  {
    Node(Dir([M1(), M2(), M3()], []), map[], 0, map[])
  }

  lemma ThreeMembersValid()
    ensures Valid(ThreeMembers().dir)
  {
    var d := ThreeMembers().dir;
    assert d.active[1..] == [M2(), M3()];
    assert d.active[1..][1..] == [M3()];
    assert d.active[1..][1..][1..] == [];
    assert "m1"[1] != "m2"[1] && "m1"[1] != "m3"[1] && "m2"[1] != "m3"[1];
    forall x ensures Count(d.active, x) + Count(d.dead, x) <= 1 {
      assert Count([M3()], x) == if x == "m3" then 1 else 0;
      assert Count([M2(), M3()], x) == (if x == "m2" then 1 else 0) + Count([M3()], x);
      assert Count(d.active, x) == (if x == "m1" then 1 else 0) + Count([M2(), M3()], x);
    }
  }

  lemma ParseFive()
    ensures ParseInt("5") == Some(5)
  {
    assert "5"[0] == '5';
    assert DigitsValue("5") == DigitsValue("5"[..0]) * 10 + 5;
  }

  /**
   * Tolerance 2, hash-based: SET 5 "hello" goes to m3 and m1 (positions 2 and 0); with
   * both acknowledging it answers OK and records leader, m3, m1; GET 5 is then served
   * by the leader.
   */
  lemma ScenarioAllAck(answers: nat -> StoreOutcome, replies: nat -> RetrieveOutcome)
    requires answers(0) == Stored(true) && answers(1) == Stored(true)
    ensures var (r, n1) := SetSpec(ThreeMembers(), HASH_BASED, 2, "5", "hello", None, answers);
      && r == OK
      && Members(n1.index, 5) == [LEADER, "m3", "m1"]
      && GetSpec(n1, "5", None, replies) == ("hello", n1)
  {
    var n := ThreeMembers();
    ParseFive();
    HashExample(M1(), M2(), M3());
    SetOkIff(n, HASH_BASED, 2, "5", "hello", answers);
    SetRecordsReplicas(n, HASH_BASED, 2, "5", "hello", answers);
    assert Ids([M3(), M1()]) == ["m3", "m1"];
    SetThenGetAtLeader(n, HASH_BASED, 2, "5", "hello", answers, replies);
  }

  lemma TransportScenarioLists(answers: nat -> StoreOutcome)
    requires answers(0) == Stored(true) && answers(1) == StoreTransportFailure
    ensures AckedIds([M3(), M1()], answers, 2) == ["m3"]
    ensures NackedIds([M3(), M1()], answers, 2) == ["m1"]
    ensures RemoveEach([] + [LEADER] + ["m3"], ["m1"]) == [LEADER, "m3"]
  {
    assert [] + [LEADER] + ["m3"] == [LEADER, "m3"];
    assert ["m1"][..0] == [];
    assert "m1" !in [LEADER, "m3"];
    RemoveOneAbsent([LEADER, "m3"], "m1");
  }

  /**
   * The same SET with m1's Store call failing in transport: the answer is the partial
   * failure error, only leader and m3 stay recorded, m1 is dead and out of the active
   * list, and GET 5 is still served by the leader.
   */
  lemma ScenarioTransportFailure(answers: nat -> StoreOutcome, replies: nat -> RetrieveOutcome)
    requires answers(0) == Stored(true) && answers(1) == StoreTransportFailure
    ensures var (r, n1) := SetSpec(ThreeMembers(), HASH_BASED, 2, "5", "hello", None, answers);
      && r == PARTIAL_FAILURE
      && Members(n1.index, 5) == [LEADER, "m3"]
      && !IsAlive(n1.dir, "m1")
      && Count(n1.dir.active, "m1") == 0
      && GetSpec(n1, "5", None, replies) == ("hello", n1)
  {
    var n := ThreeMembers();
    ParseFive();
    ThreeMembersValid();
    HashExample(M1(), M2(), M3());
    SetOkIff(n, HASH_BASED, 2, "5", "hello", answers);
    SetPartialFailure(n, HASH_BASED, 2, "5", "hello", answers);
    TransportScenarioLists(answers);
    SetTransportMarksDead(n, HASH_BASED, 2, "5", "hello", answers, 1);
    SetThenGetAtLeader(n, HASH_BASED, 2, "5", "hello", answers, replies);
  }

  lemma OneMemberSelection()
    ensures Valid(Dir([M1()], []))
    ensures Select(HASH_BASED, [M1()], 1, 5, 0).0 == [M1()]
  {
    assert HashStart(5, 1) == 0;
    CircularSpec([M1()], 0, 1);
  }

  lemma RemoveEarlierEntry()
    ensures RemoveEach([LEADER, "m1", LEADER], ["m1"]) == [LEADER, LEADER]
  {
    assert ["m1"][..0] == [];
    assert RemoveOne([LEADER, "m1", LEADER], "m1") == [LEADER] + RemoveOne(["m1", LEADER], "m1");
  }

  lemma PruneScenarioLists(answers: nat -> StoreOutcome)
    requires answers(0) == Stored(false)
    ensures AckedIds([M1()], answers, 1) == []
    ensures NackedIds([M1()], answers, 1) == ["m1"]
    ensures RemoveEach([LEADER, "m1"] + [LEADER] + [], ["m1"]) == [LEADER, LEADER]
  {
    assert [LEADER, "m1"] + [LEADER] + [] == [LEADER, "m1", LEADER];
    RemoveEarlierEntry();
  }

  /**
   * A repeated SET 5 whose only replica refuses it: the clean-up removes the entry for m1
   * that the earlier SET 5 recorded, leaving the leader recorded twice.
   */
  lemma ScenarioPruneEarlierEntry(answers: nat -> StoreOutcome)
    requires answers(0) == Stored(false)
    ensures var n := Node(Dir([M1()], []), map[5 := [LEADER, "m1"]], 0, map[5 := "old"]);
      var (r, n1) := SetSpec(n, HASH_BASED, 1, "5", "new", None, answers);
      && r == PARTIAL_FAILURE
      && Members(n1.index, 5) == [LEADER, LEADER]
  {
    var n := Node(Dir([M1()], []), map[5 := [LEADER, "m1"]], 0, map[5 := "old"]);
    ParseFive();
    OneMemberSelection();
    var sel := [M1()];
    SetOkIff(n, HASH_BASED, 1, "5", "new", answers);
    SetPartialFailure(n, HASH_BASED, 1, "5", "new", answers);
    PruneScenarioLists(answers);
  }

  lemma SkipDeadLookups(a: Member, b: Member, c: Member)
    requires a == Member("A", "h", 1, DEAD) && b == Member("B", "h", 2, DEAD) && c == Member("C", "h", 3, ALIVE)
    ensures !IsAlive(Dir([c], [a, b]), "A") && !IsAlive(Dir([c], [a, b]), "B")
    ensures IsAlive(Dir([c], [a, b]), "C") && !IsDead(Dir([c], [a, b]), "C") && Find(Dir([c], [a, b]), "C") == Some(c)
  {
    assert [c][1..] == [];
    assert [a, b][1..] == [b];
    assert FindIn([c], "A") == None;
    assert FindIn([c], "B") == None;
    assert FindIn([a, b], "A") == Some(a);
    assert FindIn([b], "B") == Some(b);
  }

  lemma SkipDeadCandidates(a: Member, b: Member, c: Member)
    requires a == Member("A", "h", 1, DEAD) && b == Member("B", "h", 2, DEAD) && c == Member("C", "h", 3, ALIVE)
    ensures Candidates(Dir([c], [a, b]), ["A", "B", "C"]) == [c]
  {
    var d := Dir([c], [a, b]);
    SkipDeadLookups(a, b, c);
    var ids := ["A", "B", "C"];
    assert ids[..2] == ["A", "B"];
    assert ids[..2][..1] == ["A"];
    assert ids[..2][..1][..0] == [];
    assert Candidates(d, ["A"]) == [];
    assert Candidates(d, ["A", "B"]) == [];
  }

  /**
   * GET 7 missing at the leader, recorded for A, B and C with A and B dead: only C is
   * asked, and its text is the answer.
   */
  lemma ScenarioSkipDead(replies: nat -> RetrieveOutcome)
    requires replies(0) == Retrieved("hello")
    ensures var a := Member("A", "h", 1, DEAD);
      var b := Member("B", "h", 2, DEAD);
      var c := Member("C", "h", 3, ALIVE);
      var n := Node(Dir([c], [a, b]), map[7 := ["A", "B", "C"]], 0, map[]);
      && Candidates(n.dir, ["A", "B", "C"]) == [c]
      && GetSpec(n, "7", None, replies) == ("hello", n)
  {
    var a := Member("A", "h", 1, DEAD);
    var b := Member("B", "h", 2, DEAD);
    var c := Member("C", "h", 3, ALIVE);
    var d := Dir([c], [a, b]);
    var n := Node(d, map[7 := ["A", "B", "C"]], 0, map[]);
    assert "7"[0] == '7';
    assert DigitsValue("7") == DigitsValue("7"[..0]) * 10 + 7;
    assert ParseInt("7") == Some(7);
    SkipDeadLookups(a, b, c);
    SkipDeadCandidates(a, b, c);
    assert RetrieveCall(d, c, replies(0)) == (Some("hello"), d);
    assert FallbackUpTo(d, [c], replies, 1) == Found("hello", d);
  }
}
