/**
 * LeaderNode: the leader's mutable state (activeMembers, deadMembers,
 * messageToMembers, roundRobinCounter, the CommandHandler over its own store)
 * and the methods that change it in place. Each method is proved against the
 * functions of Directory, MessageIndex, Selection and Replication, whose
 * properties are proved there.
 */
module Leader {
  import opened Wrappers
  import opened JavaLang
  import opened Commands
  import opened CommandParser
  import opened CommandHandling
  import opened Config
  import opened Directory
  import opened MessageIndex
  import opened Selection
  import opened Replication

  /**
   * The tolerance the constructor settles on: the loaded value after a successful
   * load, and the default when loading fails.
   */
  function StartupTolerance(present: bool, lines: seq<string>): (t: int)
    ensures InRange(t)
    ensures LoadStep(present, lines, None).1.Success? ==> Some(t) == LoadStep(present, lines, None).0
    ensures LoadStep(present, lines, None).1.Failure? ==> t == DEFAULT_TOLERANCE
  {
    var (field, r) := LoadStep(present, lines, None);
    if r.Success? then
      LoadedInRange(present, lines, None);
      field.value
    else DEFAULT_TOLERANCE
  }

  /** The inner loop of the printStats tally: one merge(id, 1, sum) per entry. */
  method Tally(counts: map<string, nat>, entries: seq<string>) returns (counts': map<string, nat>)
    ensures forall member :: CountOf(counts', member) == CountOf(counts, member) + multiset(entries)[member]
  {
    counts' := counts;
    var j := 0;
    while j < |entries|
      invariant 0 <= j <= |entries|
      invariant forall member :: CountOf(counts', member) == CountOf(counts, member) + multiset(entries[..j])[member]
    {
      var member := entries[j];
      assert entries[..j + 1] == entries[..j] + [member];
      counts' := counts'[member := CountOf(counts', member) + 1];
      j := j + 1;
    }
    assert entries[..|entries|] == entries;
  }

  class LeaderNode {
    var active: seq<Member>
    var dead: seq<Member>
    var index: Index
    var rrCounter: nat
    const strategy: LoadBalancingStrategy
    const tolerance: int
    const handler: CommandHandler

    /** The leader's state as a value. */
    ghost function State(): Node
      reads this, handler
    {
      Node(Dir(active, dead), index, rrCounter, handler.storage)
    }

    /** The directory is valid, no message maps to an empty list, and the tolerance is in range. */
    ghost predicate Valid()
      reads this
    {
      Directory.Valid(Dir(active, dead)) && NoEmpty(index) && InRange(tolerance)
    }

    /**
     * The constructor: a null strategy means hash-based; the tolerance comes from the
     * configuration, or is the default when loading fails.
     */
    constructor (strategyChoice: Option<LoadBalancingStrategy>, configPresent: bool, configLines: seq<string>)
      ensures strategy == (if strategyChoice.Some? then strategyChoice.value else HASH_BASED)
      ensures tolerance == StartupTolerance(configPresent, configLines)
      ensures active == [] && dead == [] && index == map[] && rrCounter == 0
      ensures fresh(handler) && handler.storage == map[]
      ensures Valid()
    {
      handler := new CommandHandler();
      strategy := if strategyChoice.Some? then strategyChoice.value else HASH_BASED;
      active := [];
      dead := [];
      index := map[];
      rrCounter := 0;
      var loader := new ConfigLoader();
      var loaded := loader.Load(configPresent, configLines);
      var t: int;
      if loaded.Success? {
        t := loader.GetTolerance();
      } else {
        t := GetDefaultTolerance();
      }
      tolerance := t;
    }

    // -------------------------------------------------------------------
    // The replica directory.

    /** addMember. */
    method AddMember(id: string, host: string, port: int)
      requires Valid()
      modifies this
      ensures Valid()
      ensures Dir(active, dead) == Directory.AddMember(old(Dir(active, dead)), id, host, port)
      ensures index == old(index) && rrCounter == old(rrCounter)
    {
      AddMemberValid(Dir(active, dead), id, host, port);
      var member := Member(id, host, port, ALIVE);
      active := RemoveAll(active, id);
      dead := RemoveAll(dead, id);
      active := active + [member];
    }

    /** removeMember. */
    method RemoveMember(id: string)
      requires Valid()
      modifies this
      ensures Valid()
      ensures Dir(active, dead) == Directory.RemoveMember(old(Dir(active, dead)), id)
      ensures index == old(index) && rrCounter == old(rrCounter)
    {
      RemoveMemberSpec(Dir(active, dead), id);
      active := RemoveAll(active, id);
      dead := RemoveAll(dead, id);
    }

    /** markMemberAsDead (the reason is only logged). */
    method MarkMemberAsDead(id: string)
      requires Valid()
      modifies this
      ensures Valid()
      ensures Dir(active, dead) == MarkDead(old(Dir(active, dead)), id)
      ensures index == old(index) && rrCounter == old(rrCounter)
    {
      MarkDeadValid(Dir(active, dead), id);
      var member := Find(Dir(active, dead), id);
      if member.Some? && Count(active, id) > 0 {
        active := RemoveFirst(active, id);
        dead := dead + [member.value.(status := DEAD)];
      }
    }

    /** markMemberAsAlive. */
    method MarkMemberAsAlive(id: string)
      requires Valid()
      modifies this
      ensures Valid()
      ensures Dir(active, dead) == MarkAlive(old(Dir(active, dead)), id)
      ensures index == old(index) && rrCounter == old(rrCounter)
    {
      MarkAliveValid(Dir(active, dead), id);
      var member := Find(Dir(active, dead), id);
      if member.Some? && Count(dead, id) > 0 {
        dead := RemoveFirst(dead, id);
        active := active + [member.value.(status := ALIVE)];
      }
    }

    // -------------------------------------------------------------------
    // The message index.

    /** addMessageToMember. */
    method AddMessageToMember(mid: int, member: string)
      requires Valid()
      modifies this
      ensures Valid()
      ensures index == Add(old(index), mid, member)
      ensures active == old(active) && dead == old(dead) && rrCounter == old(rrCounter)
    {
      AddSpec(index, mid, member);
      if mid in index {
        index := index[mid := index[mid] + [member]];
      } else {
        index := index[mid := [member]];
      }
    }

    /** removeMessageFromMember. */
    method RemoveMessageFromMember(mid: int, member: string)
      requires Valid()
      modifies this
      ensures Valid()
      ensures index == Remove(old(index), mid, member)
      ensures active == old(active) && dead == old(dead) && rrCounter == old(rrCounter)
    {
      RemoveFrame(index, mid, member);
      if mid in index {
        var rest := RemoveOne(index[mid], member);
        if rest == [] {
          index := index - {mid};
        } else {
          index := index[mid := rest];
        }
      }
    }

    /** clearMessageToMembers: every message is then unknown to the index. */
    method ClearMessageToMembers()
      requires Valid()
      modifies this
      ensures Valid()
      ensures index == map[] && forall mid :: Members(index, mid) == [] && CountFor(index, mid) == 0
      ensures active == old(active) && dead == old(dead) && rrCounter == old(rrCounter)
    {
      index := map[];
    }

    /**
     * The tally loop of printStats: for every member id, the number of entries it has
     * over all messages (counts.getOrDefault(id, 0)).
     */
    method MemberMessageCounts() returns (counts: map<string, nat>)
      ensures forall member :: CountOf(counts, member) == Total(index, member)
    {
      counts := map[];
      var todo := index.Keys;
      ghost var done: set<int> := {};
      while todo != {}
        invariant todo + done == index.Keys && todo !! done
        invariant forall member :: CountOf(counts, member) == TotalOver(index, done, member)
        decreases |todo|
      {
        NonEmptyHasElement(todo);
        var k :| k in todo;
        counts := Tally(counts, index[k]);
        forall member ensures CountOf(counts, member) == TotalOver(index, done + {k}, member) {
          TotalPick(index, done + {k}, k, member);
          assert done + {k} - {k} == done;
        }
        done := done + {k};
        todo := todo - {k};
      }
    }

    // -------------------------------------------------------------------
    // Replica selection.

    /** selectMembersHashBased: count members in circular order from |id rem n|; reads only. */
    method SelectMembersHashBased(count: nat, mid: int) returns (sel: seq<Member>)
      ensures sel == HashBased(active, count, mid)
    {
      var alive := active;
      if |alive| == 0 {
        return [];
      }
      sel := [];
      var n := |alive|;
      var start := Abs(JavaRem(mid, n));
      var i := 0;
      while i < count
        invariant 0 <= i <= count
        invariant sel == Circular(alive, start, i)
      {
        sel := sel + [alive[(start + i) % n]];
        i := i + 1;
      }
    }

    /** selectMembersRoundRobin: count members in circular order from the counter, which then moves on. */
    method SelectMembersRoundRobin(count: nat) returns (sel: seq<Member>)
      modifies this
      ensures (sel, rrCounter) == RoundRobin(old(active), count, old(rrCounter))
      ensures active == old(active) && dead == old(dead) && index == old(index)
    {
      var alive := active;
      if |alive| == 0 {
        return [];
      }
      sel := [];
      var n := |alive|;
      var startCounter := rrCounter;
      var i := 0;
      while i < count
        invariant 0 <= i <= count
        invariant sel == Circular(alive, startCounter, i)
      {
        sel := sel + [alive[(startCounter + i) % n]];
        i := i + 1;
      }
      rrCounter := (startCounter + count) % n;
    }

    /** selectMembers. */
    method SelectMembers(count: int, mid: int) returns (sel: seq<Member>)
      modifies this
      ensures (sel, rrCounter) == Select(strategy, old(active), count, mid, old(rrCounter))
      ensures active == old(active) && dead == old(dead) && index == old(index)
    {
      if |active| == 0 || count <= 0 {
        return [];
      }
      var selectCount := if count < |active| then count else |active|;
      match strategy {
        case ROUND_ROBIN =>
          sel := SelectMembersRoundRobin(selectCount);
        case HASH_BASED =>
          sel := SelectMembersHashBased(selectCount, mid);
      }
    }

    // -------------------------------------------------------------------
    // Remote calls: their outcome is an input, their liveness effect is kept.

    /** storeMessageToMember. */
    method StoreMessageToMember(mid: int, message: string, member: Member, outcome: StoreOutcome) returns (ok: bool)
      requires Valid()
      modifies this
      ensures Valid()
      ensures (ok, Dir(active, dead)) == StoreCall(old(Dir(active, dead)), member, outcome)
      ensures index == old(index) && rrCounter == old(rrCounter)
    {
      match outcome {
        case Stored(success) =>
          if success {
            if IsDead(Dir(active, dead), member.id) {
              MarkMemberAsAlive(member.id);
            }
            ok := true;
          } else {
            ok := false;
          }
        case StoreTransportFailure =>
          MarkMemberAsDead(member.id);
          ok := false;
        case StoreCallError =>
          ok := false;
      }
    }

    /** retrieveMessageFromMember: None for an empty text and for a call that throws. */
    method RetrieveMessageFromMember(mid: int, member: Member, outcome: RetrieveOutcome) returns (text: Option<string>)
      requires Valid()
      modifies this
      ensures Valid()
      ensures (text, Dir(active, dead)) == RetrieveCall(old(Dir(active, dead)), member, outcome)
      ensures index == old(index) && rrCounter == old(rrCounter)
    {
      match outcome {
        case Retrieved(t) =>
          if IsDead(Dir(active, dead), member.id) {
            MarkMemberAsAlive(member.id);
          }
          text := if t == "" then None else Some(t);
        case RetrieveTransportFailure =>
          MarkMemberAsDead(member.id);
          text := None;
        case RetrieveCallError =>
          text := None;
      }
    }

    // -------------------------------------------------------------------
    // The coordinators.

    /** One iteration of the fan-out: store on the member and, when it acks, record it under the message. */
    method StoreAndRecord(mid: int, message: string, member: Member, outcome: StoreOutcome) returns (ok: bool)
      requires Valid()
      modifies this
      ensures Valid()
      ensures ok == (outcome == Stored(true))
      ensures Dir(active, dead) == StoreCall(old(Dir(active, dead)), member, outcome).1
      ensures index == (if ok then Add(old(index), mid, member.id) else old(index))
      ensures rrCounter == old(rrCounter)
    {
      StoreCallOk(Dir(active, dead), member, outcome);
      ok := StoreMessageToMember(mid, message, member, outcome);
      if ok {
        AddMessageToMember(mid, member.id);
      }
    }

    /** The fan-out loop of handleSetCommand: store on each selected member, recording each ack. */
    method StoreToSelected(mid: int, message: string, sel: seq<Member>, answers: nat -> StoreOutcome)
      returns (acked: seq<string>, allSuccess: bool)
      requires Valid()
      modifies this
      ensures Valid()
      ensures Fanout(Dir(active, dead), index, acked, allSuccess) ==
        FanoutUpTo(old(Dir(active, dead)), old(index), mid, sel, answers, |sel|)
      ensures rrCounter == old(rrCounter)
    {
      ghost var d0 := Dir(active, dead);
      ghost var ix0 := index;
      allSuccess := true;
      acked := [];
      var i := 0;
      ghost var f := FanoutUpTo(d0, ix0, mid, sel, answers, 0);
      while i < |sel|
        invariant 0 <= i <= |sel|
        invariant Valid()
        invariant f == FanoutUpTo(d0, ix0, mid, sel, answers, i)
        invariant Dir(active, dead) == f.dir && index == f.index
        invariant acked == f.acked && allSuccess == f.allSuccess
        invariant rrCounter == old(rrCounter)
      {
        var member := sel[i];
        ghost var g := FanoutUpTo(d0, ix0, mid, sel, answers, i + 1);
        FanoutStep(d0, ix0, mid, sel, answers, i + 1);
        var ok := StoreAndRecord(mid, message, member, answers(i));
        if ok {
          acked := acked + [member.id];
        } else {
          allSuccess := false;
        }
        i := i + 1;
        f := g;
      }
    }

    /** The clean-up loop of handleSetCommand: drop the entry of every selected member that did not ack. */
    method PruneFailed(mid: int, sel: seq<Member>, acked: seq<string>)
      requires Valid()
      modifies this
      ensures Valid()
      ensures index == PruneUpTo(old(index), mid, sel, acked, |sel|)
      ensures active == old(active) && dead == old(dead) && rrCounter == old(rrCounter)
    {
      ghost var ix0 := index;
      var i := 0;
      while i < |sel|
        invariant 0 <= i <= |sel|
        invariant Valid()
        invariant index == PruneUpTo(ix0, mid, sel, acked, i)
        invariant active == old(active) && dead == old(dead) && rrCounter == old(rrCounter)
      {
        PruneStep(ix0, mid, sel, acked, i + 1);
        if sel[i].id !in acked {
          RemoveMessageFromMember(mid, sel[i].id);
        }
        i := i + 1;
      }
    }

    /** handleSetCommand. */
    method HandleSetCommand(cmd: Command, fault: Option<string>, answers: nat -> StoreOutcome) returns (r: string)
      requires cmd.SetCommand? && Valid()
      modifies this, handler
      ensures Valid()
      ensures (r, State()) == SetSpec(old(State()), strategy, tolerance, cmd.id, cmd.message, fault, answers)
    {
      ghost var n0 := State();
      var parsed := ParseInt(cmd.id);
      if parsed.None? {
        return BAD_ID_FORMAT;
      }
      var mid := parsed.value;
      var local := handler.Execute(Some(cmd), fault);
      if local != OK {
        return LocalStoreFailed(local);
      }
      AddMessageToMember(mid, LEADER);
      ghost var ix1 := index;
      var sel := SelectMembers(tolerance, mid);
      if sel == [] {
        return OK;
      }
      var acked, allSuccess := StoreToSelected(mid, cmd.message, sel, answers);
      if allSuccess && |acked| == |sel| {
        return OK;
      }
      PruneFailed(mid, sel, acked);
      r := PARTIAL_FAILURE;
    }

    /** The candidate list of handleGetCommand: the recorded members, in order, that are alive. */
    method AliveCandidates(ids: seq<string>) returns (cands: seq<Member>)
      ensures cands == Candidates(Dir(active, dead), ids)
    {
      cands := [];
      var i := 0;
      while i < |ids|
        invariant 0 <= i <= |ids|
        invariant cands == Candidates(Dir(active, dead), ids[..i])
      {
        var member := Find(Dir(active, dead), ids[i]);
        assert ids[..i + 1][..i] == ids[..i];
        if member.Some? && member.value.status == ALIVE {
          cands := cands + [member.value];
        }
        i := i + 1;
      }
      assert ids[..|ids|] == ids;
    }

    /** The fallback loop of handleGetCommand: ask each candidate in turn until one has the text. */
    method AskCandidates(mid: int, cands: seq<Member>, replies: nat -> RetrieveOutcome) returns (text: Option<string>)
      requires Valid()
      modifies this
      ensures Valid()
      ensures FallbackUpTo(old(Dir(active, dead)), cands, replies, |cands|) ==
        (if text.Some? then Found(text.value, Dir(active, dead)) else Searching(Dir(active, dead)))
      ensures index == old(index) && rrCounter == old(rrCounter)
    {
      ghost var d0 := Dir(active, dead);
      var j := 0;
      while j < |cands|
        invariant 0 <= j <= |cands|
        invariant Valid()
        invariant FallbackUpTo(d0, cands, replies, j) == Searching(Dir(active, dead))
        invariant index == old(index) && rrCounter == old(rrCounter)
      {
        ghost var before := Dir(active, dead);
        text := RetrieveMessageFromMember(mid, cands[j], replies(j));
        assert (text, Dir(active, dead)) == RetrieveCall(before, cands[j], replies(j));
        assert FallbackUpTo(d0, cands, replies, j + 1) ==
          (if text.Some? then Found(text.value, Dir(active, dead)) else Searching(Dir(active, dead)));
        if text.Some? {
          FallbackStaysFound(d0, cands, replies, j + 1, |cands|);
          return;
        }
        j := j + 1;
      }
      text := None;
    }

    /** handleGetCommand. */
    method HandleGetCommand(cmd: Command, fault: Option<string>, replies: nat -> RetrieveOutcome) returns (r: string)
      requires cmd.GetCommand? && Valid()
      modifies this, handler
      ensures Valid()
      ensures (r, State()) == GetSpec(old(State()), cmd.id, fault, replies)
    {
      ghost var n0 := State();
      var parsed := ParseInt(cmd.id);
      if parsed.None? {
        return BAD_ID_FORMAT;
      }
      var mid := parsed.value;
      var local := handler.Execute(Some(cmd), fault);
      if local != NOT_FOUND {
        return local;
      }
      var ids := Members(index, mid);
      if ids == [] {
        return NOT_FOUND;
      }
      var cands := AliveCandidates(ids);
      if cands == [] {
        return NOT_FOUND;
      }
      var text := AskCandidates(mid, cands, replies);
      r := if text.Some? then text.value else NOT_FOUND;
    }

    /** ClientHandler's loop body for one line: parse, then dispatch to the coordinators. */
    method HandleLine(line: string, fault: Option<string>, answers: nat -> StoreOutcome, replies: nat -> RetrieveOutcome)
      returns (r: string)
      requires Valid()
      modifies this, handler
      ensures Valid()
      ensures (r, State()) == Replication.HandleLine(old(State()), strategy, tolerance, line, fault, answers, replies)
    {
      var parsed := Parse(Some(line));
      if parsed.Failure? {
        return "ERROR: " + parsed.error;
      }
      var cmd := parsed.value;
      match cmd.Type() {
        case SET =>
          r := HandleSetCommand(cmd, fault, answers);
        case GET =>
          r := HandleGetCommand(cmd, fault, replies);
      }
    }
  }
}
