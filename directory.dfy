/**
 * The leader's replica directory: the activeMembers and deadMembers lists of
 * LeaderNode, as values. A MemberInfo is equal to another exactly when the
 * ids are equal, so every list lookup here compares ids.
 */
module Directory {
  import opened Wrappers

  datatype MemberStatus = ALIVE | DEAD

  /** LeaderNode.MemberInfo; a new one starts ALIVE. */
  datatype Member = Member(id: string, host: string, port: int, status: MemberStatus)

  datatype Dir = Dir(active: seq<Member>, dead: seq<Member>)

  /** Number of entries of ms equal (by id) to a member with id x. */
  function Count(ms: seq<Member>, x: string): nat
  {
    if ms == [] then 0 else (if ms[0].id == x then 1 else 0) + Count(ms[1..], x)
  }

  /** Each id occurs at most once over both lists, every active entry is ALIVE and every dead one DEAD. */
  ghost predicate Valid(d: Dir)
  {
    && (forall x :: Count(d.active, x) + Count(d.dead, x) <= 1)
    && (forall i :: 0 <= i < |d.active| ==> d.active[i].status == ALIVE)
    && (forall i :: 0 <= i < |d.dead| ==> d.dead[i].status == DEAD)
  }

  /** removeIf(m -> m.getId().equals(x)). */
  function RemoveAll(ms: seq<Member>, x: string): seq<Member>
  {
    if ms == [] then []
    else if ms[0].id == x then RemoveAll(ms[1..], x)
    else [ms[0]] + RemoveAll(ms[1..], x)
  }

  /** List.remove(member): drops the first entry equal to it. */
  function RemoveFirst(ms: seq<Member>, x: string): seq<Member>
  {
    if ms == [] then []
    else if ms[0].id == x then ms[1..]
    else [ms[0]] + RemoveFirst(ms[1..], x)
  }

  /** stream().filter(m -> m.getId().equals(x)).findFirst(). */
  function FindIn(ms: seq<Member>, x: string): Option<Member>
  {
    if ms == [] then None
    else if ms[0].id == x then Some(ms[0])
    else FindIn(ms[1..], x)
  }

  /** findMemberById: the active list first, then the dead list. */
  function Find(d: Dir, x: string): Option<Member>
  {
    if FindIn(d.active, x).Some? then FindIn(d.active, x) else FindIn(d.dead, x)
  }

  /** MemberInfo.isAlive of the member the directory holds under x. */
  predicate IsAlive(d: Dir, x: string)
  {
    Find(d, x).Some? && Find(d, x).value.status == ALIVE
  }

  /** MemberInfo.isDead of the member the directory holds under x. */
  predicate IsDead(d: Dir, x: string)
  {
    Find(d, x).Some? && Find(d, x).value.status == DEAD
  }

  /** addMember: drop every entry for the id from both lists, then append a fresh ALIVE member. */
  function AddMember(d: Dir, id: string, host: string, port: int): Dir
  {
    Dir(RemoveAll(d.active, id) + [Member(id, host, port, ALIVE)], RemoveAll(d.dead, id))
  }

  /** removeMember: drop every entry for the id from both lists. */
  function RemoveMember(d: Dir, id: string): Dir
  {
    Dir(RemoveAll(d.active, id), RemoveAll(d.dead, id))
  }

  /** markMemberAsDead: only a member the active list contains is moved, as DEAD, to the end of the dead list. */
  function MarkDead(d: Dir, id: string): Dir
  {
    var m := Find(d, id);
    if m.Some? && Count(d.active, id) > 0 then
      Dir(RemoveFirst(d.active, id), d.dead + [m.value.(status := DEAD)])
    else d
  }

  /** markMemberAsAlive: only a member the dead list contains is moved, as ALIVE, to the end of the active list. */
  function MarkAlive(d: Dir, id: string): Dir
  {
    var m := Find(d, id);
    if m.Some? && Count(d.dead, id) > 0 then
      Dir(d.active + [m.value.(status := ALIVE)], RemoveFirst(d.dead, id))
    else d
  }

  // ---------------------------------------------------------------------
  // List facts

  lemma {:induction false} CountConcat(a: seq<Member>, b: seq<Member>, x: string)
    ensures Count(a + b, x) == Count(a, x) + Count(b, x)
  {
    if a != [] {
      assert (a + b)[1..] == a[1..] + b;
      CountConcat(a[1..], b, x);
    } else {
      assert a + b == b;
    }
  }

  lemma CountOne(m: Member, x: string)
    ensures Count([m], x) == if m.id == x then 1 else 0
  {
    assert [m][1..] == [];
  }

  /** removeIf keeps every other entry, in order, and no entry for x. */
  lemma {:induction false} RemoveAllCount(ms: seq<Member>, x: string, y: string)
    ensures Count(RemoveAll(ms, x), y) == if y == x then 0 else Count(ms, y)
  {
    if ms != [] {
      RemoveAllCount(ms[1..], x, y);
      if ms[0].id != x {
        assert ([ms[0]] + RemoveAll(ms[1..], x))[1..] == RemoveAll(ms[1..], x);
      }
    }
  }

  lemma {:induction false} RemoveAllConcat(a: seq<Member>, b: seq<Member>, x: string)
    ensures RemoveAll(a + b, x) == RemoveAll(a, x) + RemoveAll(b, x)
  {
    if a != [] {
      assert (a + b)[1..] == a[1..] + b;
      RemoveAllConcat(a[1..], b, x);
    } else {
      assert a + b == b;
    }
  }

  lemma {:induction false} RemoveAllTwice(ms: seq<Member>, x: string)
    ensures RemoveAll(RemoveAll(ms, x), x) == RemoveAll(ms, x)
  {
    if ms != [] {
      RemoveAllTwice(ms[1..], x);
      if ms[0].id != x {
        assert ([ms[0]] + RemoveAll(ms[1..], x))[1..] == RemoveAll(ms[1..], x);
      }
    }
  }

  /** Removal of x keeps the members of the list other than x. */
  lemma {:induction false} RemoveAllSubset(ms: seq<Member>, x: string)
    ensures forall m :: m in RemoveAll(ms, x) ==> m in ms && m.id != x
  {
    if ms != [] {
      RemoveAllSubset(ms[1..], x);
    }
  }

  lemma {:induction false} RemoveFirstCount(ms: seq<Member>, x: string, y: string)
    ensures Count(RemoveFirst(ms, x), y) == if y == x && Count(ms, x) > 0 then Count(ms, y) - 1 else Count(ms, y)
  {
    if ms != [] && ms[0].id != x {
      RemoveFirstCount(ms[1..], x, y);
      assert ([ms[0]] + RemoveFirst(ms[1..], x))[1..] == RemoveFirst(ms[1..], x);
    }
  }

  lemma {:induction false} RemoveFirstSubset(ms: seq<Member>, x: string)
    ensures forall m :: m in RemoveFirst(ms, x) ==> m in ms
  {
    if ms != [] && ms[0].id != x {
      RemoveFirstSubset(ms[1..], x);
    }
  }

  /** With at most one entry for x, removing the first one is removing all of them. */
  lemma {:induction false} RemoveFirstIsAll(ms: seq<Member>, x: string)
    requires Count(ms, x) <= 1
    ensures RemoveFirst(ms, x) == RemoveAll(ms, x)
  {
    if ms != [] {
      if ms[0].id == x {
        RemoveAllNone(ms[1..], x);
      } else {
        RemoveFirstIsAll(ms[1..], x);
      }
    }
  }

  lemma {:induction false} RemoveAllNone(ms: seq<Member>, x: string)
    requires Count(ms, x) == 0
    ensures RemoveAll(ms, x) == ms
  {
    if ms != [] {
      RemoveAllNone(ms[1..], x);
      assert ms == [ms[0]] + ms[1..];
    }
  }

  /** findFirst succeeds exactly when the list holds an entry for x, and gives one of its entries with that id. */
  lemma {:induction false} FindInSpec(ms: seq<Member>, x: string)
    ensures FindIn(ms, x).Some? <==> Count(ms, x) > 0
    ensures FindIn(ms, x).Some? ==> FindIn(ms, x).value in ms && FindIn(ms, x).value.id == x
  {
    if ms != [] {
      FindInSpec(ms[1..], x);
    }
  }

  lemma {:induction false} FindInConcat(a: seq<Member>, b: seq<Member>, x: string)
    ensures FindIn(a + b, x) == if FindIn(a, x).Some? then FindIn(a, x) else FindIn(b, x)
  {
    if a != [] {
      assert (a + b)[1..] == a[1..] + b;
      FindInConcat(a[1..], b, x);
    } else {
      assert a + b == b;
    }
  }

  lemma FindInOne(m: Member, x: string)
    ensures FindIn([m], x) == if m.id == x then Some(m) else None
  {
    assert [m][1..] == [];
  }

  lemma {:induction false} FindInRemoveAll(ms: seq<Member>, x: string, y: string)
    requires y != x
    ensures FindIn(RemoveAll(ms, x), y) == FindIn(ms, y)
  {
    if ms != [] {
      FindInRemoveAll(ms[1..], x, y);
      if ms[0].id != x {
        assert ([ms[0]] + RemoveAll(ms[1..], x))[1..] == RemoveAll(ms[1..], x);
      }
    }
  }

  lemma {:induction false} FindInRemoveFirst(ms: seq<Member>, x: string, y: string)
    requires y != x
    ensures FindIn(RemoveFirst(ms, x), y) == FindIn(ms, y)
  {
    if ms != [] && ms[0].id != x {
      FindInRemoveFirst(ms[1..], x, y);
      assert ([ms[0]] + RemoveFirst(ms[1..], x))[1..] == RemoveFirst(ms[1..], x);
    }
  }

  /** Under Valid, an id is held ALIVE exactly when the active list has it, and DEAD exactly when the dead list has it. */
  lemma StatusByList(d: Dir, x: string)
    requires Valid(d)
    ensures IsAlive(d, x) <==> Count(d.active, x) > 0
    ensures IsDead(d, x) <==> Count(d.dead, x) > 0
  {
    FindInSpec(d.active, x);
    FindInSpec(d.dead, x);
    assert Count(d.active, x) + Count(d.dead, x) <= 1;
  }

  /** Under Valid, no two entries of one list share an id. */
  lemma {:induction false} CountUnique(ms: seq<Member>, i: nat, j: nat)
    requires forall x :: Count(ms, x) <= 1
    requires i < j < |ms|
    ensures ms[i].id != ms[j].id
  {
    if i == 0 {
      CountPositive(ms[1..], j - 1);
      assert Count(ms, ms[0].id) == 1 + Count(ms[1..], ms[0].id);
    } else {
      forall x ensures Count(ms[1..], x) <= 1 {
        assert Count(ms, x) == (if ms[0].id == x then 1 else 0) + Count(ms[1..], x);
      }
      CountUnique(ms[1..], i - 1, j - 1);
    }
  }

  lemma {:induction false} CountPositive(ms: seq<Member>, j: nat)
    requires j < |ms|
    ensures Count(ms, ms[j].id) > 0
  {
    if j > 0 {
      CountPositive(ms[1..], j - 1);
    }
  }

  // ---------------------------------------------------------------------
  // The directory operations

  /**
   * After addMember the id occurs exactly once: last in the active list, ALIVE, with
   * the given address; the dead list has no entry for it; every other member keeps its
   * place, in order, in its list.
   */
  lemma AddMemberSpec(d: Dir, id: string, host: string, port: int)
    ensures var d' := AddMember(d, id, host, port);
      && Count(d'.active, id) == 1 && Count(d'.dead, id) == 0
      && d'.active[|d'.active| - 1] == Member(id, host, port, ALIVE)
      && Find(d', id) == Some(Member(id, host, port, ALIVE))
      && RemoveAll(d'.active, id) == RemoveAll(d.active, id)
      && RemoveAll(d'.dead, id) == RemoveAll(d.dead, id)
  {
    var m := Member(id, host, port, ALIVE);
    CountConcat(RemoveAll(d.active, id), [m], id);
    CountOne(m, id);
    RemoveAllCount(d.active, id, id);
    RemoveAllCount(d.dead, id, id);
    RemoveAllConcat(RemoveAll(d.active, id), [m], id);
    RemoveAllTwice(d.active, id);
    RemoveAllTwice(d.dead, id);
    assert RemoveAll([m], id) == [];
    FindInConcat(RemoveAll(d.active, id), [m], id);
    FindInSpec(RemoveAll(d.active, id), id);
    FindInOne(m, id);
  }

  /** addMember keeps the directory valid. */
  lemma AddMemberValid(d: Dir, id: string, host: string, port: int)
    requires Valid(d)
    ensures Valid(AddMember(d, id, host, port))
  {
    var m := Member(id, host, port, ALIVE);
    var d' := AddMember(d, id, host, port);
    forall x ensures Count(d'.active, x) + Count(d'.dead, x) <= 1 {
      CountConcat(RemoveAll(d.active, id), [m], x);
      CountOne(m, x);
      RemoveAllCount(d.active, id, x);
      RemoveAllCount(d.dead, id, x);
      assert Count(d.active, x) + Count(d.dead, x) <= 1;
    }
    RemoveAllSubset(d.active, id);
    RemoveAllSubset(d.dead, id);
    forall i | 0 <= i < |d'.active| ensures d'.active[i].status == ALIVE {
      if i < |RemoveAll(d.active, id)| {
        assert d'.active[i] in RemoveAll(d.active, id);
      }
    }
    forall i | 0 <= i < |d'.dead| ensures d'.dead[i].status == DEAD {
      assert d'.dead[i] in RemoveAll(d.dead, id);
    }
  }

  /** removeMember leaves no entry for the id, keeps every other entry in order, and keeps the directory valid. */
  lemma RemoveMemberSpec(d: Dir, id: string)
    ensures var d' := RemoveMember(d, id);
      && Count(d'.active, id) == 0 && Count(d'.dead, id) == 0 && Find(d', id) == None
      && (forall x :: x != id ==> Find(d', x) == Find(d, x))
      && (Valid(d) ==> Valid(d'))
  {
    var d' := RemoveMember(d, id);
    RemoveAllCount(d.active, id, id);
    RemoveAllCount(d.dead, id, id);
    FindInSpec(d'.active, id);
    FindInSpec(d'.dead, id);
    forall x | x != id ensures Find(d', x) == Find(d, x) {
      FindInRemoveAll(d.active, id, x);
      FindInRemoveAll(d.dead, id, x);
    }
    if Valid(d) {
      forall x ensures Count(d'.active, x) + Count(d'.dead, x) <= 1 {
        RemoveAllCount(d.active, id, x);
        RemoveAllCount(d.dead, id, x);
        assert Count(d.active, x) + Count(d.dead, x) <= 1;
      }
      RemoveAllSubset(d.active, id);
      RemoveAllSubset(d.dead, id);
      forall i | 0 <= i < |d'.active| ensures d'.active[i].status == ALIVE {
        assert d'.active[i] in d.active;
      }
      forall i | 0 <= i < |d'.dead| ensures d'.dead[i].status == DEAD {
        assert d'.dead[i] in d.dead;
      }
    }
  }

  /**
   * markMemberAsDead on a valid directory: an active member leaves the active list and is
   * appended, DEAD, to the dead list; an id not in the active list changes nothing.
   */
  lemma MarkDeadSpec(d: Dir, id: string)
    requires Valid(d)
    ensures var d' := MarkDead(d, id);
      && (Count(d.active, id) > 0 ==>
            && Find(d, id).Some?
            && d'.active == RemoveAll(d.active, id)
            && d'.dead == d.dead + [Find(d, id).value.(status := DEAD)]
            && Find(d', id) == Some(Find(d, id).value.(status := DEAD))
            && IsDead(d', id))
      && (Count(d.active, id) == 0 ==> d' == d)
  {
    var d' := MarkDead(d, id);
    FindInSpec(d.active, id);
    if Count(d.active, id) > 0 {
      var m := Find(d, id).value;
      assert Count(d.active, id) + Count(d.dead, id) <= 1;
      RemoveFirstIsAll(d.active, id);
      RemoveAllCount(d.active, id, id);
      FindInSpec(d'.active, id);
      FindInConcat(d.dead, [m.(status := DEAD)], id);
      FindInSpec(d.dead, id);
      FindInOne(m.(status := DEAD), id);
    }
  }

  /**
   * markMemberAsAlive on a valid directory: a dead member leaves the dead list and is
   * appended, ALIVE, to the active list; an id not in the dead list changes nothing.
   */
  lemma MarkAliveSpec(d: Dir, id: string)
    requires Valid(d)
    ensures var d' := MarkAlive(d, id);
      && (Count(d.dead, id) > 0 ==>
            && Find(d, id).Some?
            && d'.active == d.active + [Find(d, id).value.(status := ALIVE)]
            && d'.dead == RemoveAll(d.dead, id)
            && Find(d', id) == Some(Find(d, id).value.(status := ALIVE))
            && IsAlive(d', id))
      && (Count(d.dead, id) == 0 ==> d' == d)
  {
    var d' := MarkAlive(d, id);
    FindInSpec(d.active, id);
    FindInSpec(d.dead, id);
    if Count(d.dead, id) > 0 {
      var m := Find(d, id).value;
      assert Count(d.active, id) + Count(d.dead, id) <= 1;
      RemoveFirstIsAll(d.dead, id);
      FindInConcat(d.active, [m.(status := ALIVE)], id);
      FindInOne(m.(status := ALIVE), id);
    }
  }

  /** markMemberAsDead keeps the directory valid and leaves every other member as it was. */
  lemma MarkDeadValid(d: Dir, id: string)
    requires Valid(d)
    ensures Valid(MarkDead(d, id))
    ensures forall x :: x != id ==> Find(MarkDead(d, id), x) == Find(d, x)
  {
    var d' := MarkDead(d, id);
    FindInSpec(d.active, id);
    if Count(d.active, id) > 0 {
      var m := Find(d, id).value;
      var m' := m.(status := DEAD);
      forall x ensures Count(d'.active, x) + Count(d'.dead, x) <= 1 {
        RemoveFirstCount(d.active, id, x);
        CountConcat(d.dead, [m'], x);
        CountOne(m', x);
        assert Count(d.active, x) + Count(d.dead, x) <= 1;
      }
      RemoveFirstSubset(d.active, id);
      forall i | 0 <= i < |d'.active| ensures d'.active[i].status == ALIVE {
        assert d'.active[i] in d.active;
      }
      forall x | x != id ensures Find(d', x) == Find(d, x) {
        FindInRemoveFirst(d.active, id, x);
        FindInConcat(d.dead, [m'], x);
        FindInOne(m', x);
      }
    }
  }

  /** markMemberAsAlive keeps the directory valid and leaves every other member as it was. */
  lemma MarkAliveValid(d: Dir, id: string)
    requires Valid(d)
    ensures Valid(MarkAlive(d, id))
    ensures forall x :: x != id ==> Find(MarkAlive(d, id), x) == Find(d, x)
  {
    var d' := MarkAlive(d, id);
    FindInSpec(d.active, id);
    FindInSpec(d.dead, id);
    if Count(d.dead, id) > 0 {
      var m := Find(d, id).value;
      var m' := m.(status := ALIVE);
      assert Count(d.active, id) + Count(d.dead, id) <= 1;
      forall x ensures Count(d'.active, x) + Count(d'.dead, x) <= 1 {
        RemoveFirstCount(d.dead, id, x);
        CountConcat(d.active, [m'], x);
        CountOne(m', x);
        assert Count(d.active, x) + Count(d.dead, x) <= 1;
      }
      RemoveFirstSubset(d.dead, id);
      forall i | 0 <= i < |d'.dead| ensures d'.dead[i].status == DEAD {
        assert d'.dead[i] in d.dead;
      }
      forall x | x != id ensures Find(d', x) == Find(d, x) {
        FindInRemoveFirst(d.dead, id, x);
        FindInConcat(d.active, [m'], x);
        FindInOne(m', x);
        FindInSpec(d.active, x);
      }
    }
  }

  /** A member marked dead and then alive is back in the active list, with the same address. */
  lemma DeadThenAlive(d: Dir, id: string)
    requires Valid(d) && IsAlive(d, id)
    ensures var d' := MarkAlive(MarkDead(d, id), id);
      Valid(d') && IsAlive(d', id) && Find(d', id) == Find(d, id)
  {
    StatusByList(d, id);
    MarkDeadSpec(d, id);
    MarkDeadValid(d, id);
    var d1 := MarkDead(d, id);
    StatusByList(d1, id);
    MarkAliveSpec(d1, id);
    MarkAliveValid(d1, id);
  }
}
