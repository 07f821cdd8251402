/**
 * The leader's messageToMembers map: for each message id, the ids of the
 * members believed to hold a copy, in the order they were recorded. The
 * leader's own copy is recorded under the id "leader".
 */
module MessageIndex {
  type Index = map<int, seq<string>>

  const LEADER := "leader"

  /** getMembersForMessage: the recorded list, or the empty list for an unknown message. */
  function Members(ix: Index, id: int): seq<string>
  {
    if id in ix then ix[id] else []
  }

  /** isMessageInMember. */
  predicate IsIn(ix: Index, id: int, member: string)
  {
    id in ix && member in ix[id]
  }

  /** getMemberCountForMessage. */
  function CountFor(ix: Index, id: int): nat
  {
    if id in ix then |ix[id]| else 0
  }

  /** addMessageToMember: computeIfAbsent(id, new list).add(member). */
  function Add(ix: Index, id: int, member: string): Index
  {
    if id in ix then ix[id := ix[id] + [member]] else ix[id := [member]]
  }

  /** List.remove(Object): drops the first occurrence, if any. */
  function RemoveOne(s: seq<string>, member: string): seq<string>
  {
    if s == [] then []
    else if s[0] == member then s[1..]
    else [s[0]] + RemoveOne(s[1..], member)
  }

  /** indexOf: the position of the first occurrence. */
  function IndexOf(s: seq<string>, member: string): (i: nat)
    requires member in s
    ensures i < |s| && s[i] == member && member !in s[..i]
  {
    if s[0] == member then 0
    else
      assert member in s[1..];
      var j := IndexOf(s[1..], member);
      assert s[..j + 1] == [s[0]] + s[1..][..j];
      j + 1
  }

  /** removeMessageFromMember: drop one occurrence, and the whole entry once its list is empty. */
  function Remove(ix: Index, id: int, member: string): Index
  {
    if id !in ix then ix
    else
      var rest := RemoveOne(ix[id], member);
      if rest == [] then ix - {id} else ix[id := rest]
  }

  /** No message id maps to an empty list. */
  predicate NoEmpty(ix: Index)
  {
    forall k :: k in ix ==> ix[k] != []
  }

  /** The three queries agree with the recorded list. */
  lemma QueriesAgree(ix: Index, id: int, member: string)
    ensures IsIn(ix, id, member) <==> member in Members(ix, id)
    ensures CountFor(ix, id) == |Members(ix, id)|
    ensures id !in ix ==> Members(ix, id) == []
  {
  }

  lemma {:induction false} RemoveOneAbsent(s: seq<string>, member: string)
    requires member !in s
    ensures RemoveOne(s, member) == s
  {
    if s != [] {
      assert member !in s[1..];
      RemoveOneAbsent(s[1..], member);
      assert s == [s[0]] + s[1..];
    }
  }

  lemma {:induction false} RemoveOneAt(s: seq<string>, member: string)
    requires member in s
    ensures RemoveOne(s, member) == s[..IndexOf(s, member)] + s[IndexOf(s, member) + 1..]
  {
    if s[0] != member {
      assert member in s[1..];
      RemoveOneAt(s[1..], member);
      var j := IndexOf(s[1..], member);
      assert IndexOf(s, member) == j + 1;
      assert s[..j + 1] == [s[0]] + s[1..][..j];
      assert s[j + 2..] == s[1..][j + 1..];
    }
  }

  /** RemoveOne takes out one copy of member when there is one, and nothing else. */
  lemma {:induction false} RemoveOneSplit(s: seq<string>, member: string)
    ensures multiset(s) == multiset(RemoveOne(s, member)) + (if member in s then multiset{member} else multiset{})
  {
    if s != [] {
      assert s == [s[0]] + s[1..];
      assert multiset(s) == multiset{s[0]} + multiset(s[1..]);
      if s[0] != member {
        RemoveOneSplit(s[1..], member);
        var rest := RemoveOne(s[1..], member);
        assert RemoveOne(s, member) == [s[0]] + rest;
        assert multiset(RemoveOne(s, member)) == multiset{s[0]} + multiset(rest);
        assert member in s <==> member in s[1..];
      }
    }
  }

  lemma RemoveOneCounts(s: seq<string>, member: string)
    ensures multiset(RemoveOne(s, member)) == multiset(s) - multiset{member}
    ensures |RemoveOne(s, member)| == if member in s then |s| - 1 else |s|
  {
    RemoveOneSplit(s, member);
    var r := multiset(RemoveOne(s, member));
    if member in s {
      assert (r + multiset{member}) - multiset{member} == r;
      assert |multiset(s)| == |r| + 1;
    } else {
      assert member !in multiset(s);
      assert multiset(s) - multiset{member} == multiset(s);
    }
  }

  /** RemoveOne deletes exactly the first occurrence, and nothing when there is none. */
  lemma RemoveOneSpec(s: seq<string>, member: string)
    ensures member !in s ==> RemoveOne(s, member) == s
    ensures member in s ==> RemoveOne(s, member) == s[..IndexOf(s, member)] + s[IndexOf(s, member) + 1..]
    ensures multiset(RemoveOne(s, member)) == multiset(s) - multiset{member}
    ensures |RemoveOne(s, member)| == if member in s then |s| - 1 else |s|
  {
    if member in s {
      RemoveOneAt(s, member);
    } else {
      RemoveOneAbsent(s, member);
    }
    RemoveOneCounts(s, member);
  }

  /** Reference definition: one RemoveOne per entry of xs, in order. */
  function RemoveEach(s: seq<string>, xs: seq<string>): seq<string>
  {
    if xs == [] then s else RemoveOne(RemoveEach(s, xs[..|xs| - 1]), xs[|xs| - 1])
  }

  lemma MultisetMinusTwice(a: multiset<string>, f: multiset<string>, x: string)
    ensures (a - f) - multiset{x} == a - (f + multiset{x})
  {
  }

  /** Removing the entries of xs one by one takes exactly their occurrences out of s. */
  lemma {:induction false} RemoveEachCounts(s: seq<string>, xs: seq<string>)
    ensures multiset(RemoveEach(s, xs)) == multiset(s) - multiset(xs)
  {
    if xs != [] {
      var init := xs[..|xs| - 1];
      var x := xs[|xs| - 1];
      RemoveEachCounts(s, init);
      RemoveOneCounts(RemoveEach(s, init), x);
      assert xs == init + [x];
      MultisetMinusTwice(multiset(s), multiset(init), x);
    }
  }

  /** addMessageToMember appends at the end of the message's list and touches no other message. */
  lemma AddSpec(ix: Index, id: int, member: string)
    ensures var ix' := Add(ix, id, member);
      && Members(ix', id) == Members(ix, id) + [member]
      && CountFor(ix', id) == CountFor(ix, id) + 1
      && IsIn(ix', id, member)
      && ix'.Keys == ix.Keys + {id}
      && (forall k :: k != id ==> Members(ix', k) == Members(ix, k))
      && (NoEmpty(ix) ==> NoEmpty(ix'))
  {
  }

  /**
   * removeMessageFromMember takes one occurrence of the member out of the message's list,
   * keeps the order of the rest, and drops the entry exactly when nothing is left.
   */
  lemma RemoveSpec(ix: Index, id: int, member: string)
    ensures var ix' := Remove(ix, id, member);
      && Members(ix', id) == RemoveOne(Members(ix, id), member)
      && multiset(Members(ix', id)) == multiset(Members(ix, id)) - multiset{member}
      && CountFor(ix', id) == (if IsIn(ix, id, member) then CountFor(ix, id) - 1 else CountFor(ix, id))
      && (id in ix' <==> id in ix && RemoveOne(ix[id], member) != [])
  {
    RemoveOneSpec(Members(ix, id), member);
  }

  /** removeMessageFromMember touches no other message and never leaves an empty list behind. */
  lemma RemoveFrame(ix: Index, id: int, member: string)
    ensures var ix' := Remove(ix, id, member);
      && (forall k :: k != id ==> (k in ix' <==> k in ix) && Members(ix', k) == Members(ix, k))
      && (NoEmpty(ix) ==> NoEmpty(ix'))
  {
  }

  /** A member recorded for a message and then removed leaves the list as it was. */
  lemma AddThenRemove(ix: Index, id: int, member: string)
    requires member !in Members(ix, id)
    requires NoEmpty(ix)
    ensures Remove(Add(ix, id, member), id, member) == ix
  {
    var s := Members(ix, id);
    var s' := s + [member];
    RemoveOneAt(s', member);
    var i := IndexOf(s', member);
    assert s'[..i] == s;
    assert RemoveOne(s', member) == s;
    if id in ix {
      assert Add(ix, id, member) == ix[id := s'];
      assert ix[id := s'][id := s] == ix;
    } else {
      assert s' == [member];
      assert ix[id := [member]] - {id} == ix;
    }
  }

  // ---------------------------------------------------------------------
  // The printStats fold: how many entries each member id has over the whole map.

  lemma NonEmptyHasElement(keys: set<int>)
    requires keys != {}
    ensures exists k :: k in keys
  {
    if forall k :: k !in keys {
      assert false;
    }
  }

  /** Entries for member, summed over the messages in keys. */
  ghost function TotalOver(ix: Index, keys: set<int>, member: string): nat
    requires keys <= ix.Keys
  {
    if keys == {} then 0
    else
      NonEmptyHasElement(keys);
      var k :| k in keys;
      multiset(ix[k])[member] + TotalOver(ix, keys - {k}, member)
  }

  /** Entries for member over the whole index. */
  ghost function Total(ix: Index, member: string): nat
  {
    TotalOver(ix, ix.Keys, member)
  }

  /** The sum does not depend on the order the messages are visited in. */
  lemma {:induction false} TotalPick(ix: Index, keys: set<int>, k: int, member: string)
    requires keys <= ix.Keys && k in keys
    ensures TotalOver(ix, keys, member) == multiset(ix[k])[member] + TotalOver(ix, keys - {k}, member)
    decreases |keys|
  {
    var j :| j in keys && TotalOver(ix, keys, member) == multiset(ix[j])[member] + TotalOver(ix, keys - {j}, member);
    if j != k {
      TotalPick(ix, keys - {j}, k, member);
      TotalPick(ix, keys - {k}, j, member);
      assert keys - {j} - {k} == keys - {k} - {j};
    }
  }

  /** Two indexes with the same lists on keys have the same sum over keys. */
  lemma {:induction false} TotalAgree(ix1: Index, ix2: Index, keys: set<int>, member: string)
    requires keys <= ix1.Keys && keys <= ix2.Keys
    requires forall k :: k in keys ==> ix1[k] == ix2[k]
    ensures TotalOver(ix1, keys, member) == TotalOver(ix2, keys, member)
    decreases |keys|
  {
    if keys != {} {
      NonEmptyHasElement(keys);
      var k :| k in keys;
      TotalPick(ix1, keys, k, member);
      TotalPick(ix2, keys, k, member);
      TotalAgree(ix1, ix2, keys - {k}, member);
    }
  }

  /** Splitting off one message: its entries plus those of all the other messages. */
  lemma TotalSplit(ix: Index, id: int, member: string)
    requires id in ix
    ensures Total(ix, member) == multiset(ix[id])[member] + TotalOver(ix, ix.Keys - {id}, member)
  {
    TotalPick(ix, ix.Keys, id, member);
  }

  /** addMessageToMember raises the member's total by one and no one else's. */
  lemma AddTotal(ix: Index, id: int, member: string, x: string)
    ensures Total(Add(ix, id, member), x) == Total(ix, x) + (if x == member then 1 else 0)
  {
    var ix' := Add(ix, id, member);
    var rest := ix.Keys - {id};
    assert ix'.Keys - {id} == rest;
    TotalSplit(ix', id, x);
    TotalAgree(ix, ix', rest, x);
    if id in ix {
      TotalSplit(ix, id, x);
    } else {
      assert rest == ix.Keys;
    }
  }

  lemma OccurrencesRemoveOne(s: seq<string>, member: string, x: string)
    ensures multiset(RemoveOne(s, member))[x] == multiset(s)[x] - (if x == member && member in s then 1 else 0)
  {
    RemoveOneSpec(s, member);
  }

  /** removeMessageFromMember lowers the member's total by one if the message had it, and no one else's. */
  lemma RemoveTotal(ix: Index, id: int, member: string, x: string)
    ensures Total(Remove(ix, id, member), x) == Total(ix, x) - (if x == member && IsIn(ix, id, member) then 1 else 0)
  {
    if id in ix {
      var ix' := Remove(ix, id, member);
      var r := RemoveOne(ix[id], member);
      var rest := ix.Keys - {id};
      OccurrencesRemoveOne(ix[id], member, x);
      TotalSplit(ix, id, x);
      if r == [] {
        assert ix' == ix - {id};
        assert ix'.Keys == rest;
        TotalAgree(ix, ix', rest, x);
      } else {
        assert ix' == ix[id := r];
        assert ix'.Keys - {id} == rest;
        TotalAgree(ix, ix', rest, x);
        TotalSplit(ix', id, x);
      }
    }
  }

  /** getOrDefault(member, 0) on the tally map. */
  function CountOf(counts: map<string, nat>, member: string): nat
  {
    if member in counts then counts[member] else 0
  }
}
