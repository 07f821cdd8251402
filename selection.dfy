/**
 * selectMembers and its two strategies. Both walk a snapshot of the active
 * list circularly; round-robin starts at the shared counter and advances it,
 * hash-based starts at |messageId rem n|.
 */
module Selection {
  import opened JavaLang
  import opened Directory

  /** LoadBalancingStrategy; RANDOM is not a value of the enum and the random fallback is unreachable. */
  datatype LoadBalancingStrategy = ROUND_ROBIN | HASH_BASED

  // ---------------------------------------------------------------------
  // Modular arithmetic on naturals

  lemma MulBounds(n: int, k: int)
    requires n > 0
    ensures k <= 0 ==> n * k <= 0
    ensures k >= 1 ==> n * k >= n
  {
    if k >= 1 {
      assert n * k == n + n * (k - 1);
      MulBounds(n, k - 1);
    }
  }

  /** The quotient and remainder are the only ones. */
  lemma ModUnique(x: int, n: int, q: int, r: int)
    requires n > 0 && x == n * q + r && 0 <= r < n
    ensures x % n == r
  {
    var d := q - x / n;
    assert n * d == x % n - r by {
      assert n * d == n * q - n * (x / n);
    }
    MulBounds(n, d);
    MulBounds(n, -d);
  }

  lemma ModSmall(x: nat, n: nat)
    requires x < n
    ensures x % n == x
  {
    ModUnique(x, n, 0, x);
  }

  lemma ModSelf(n: nat)
    requires n > 0
    ensures (0 + n) % n == 0
  {
    ModUnique(n, n, 1, 0);
  }

  lemma ModAddLeft(a: nat, b: nat, n: nat)
    requires n > 0
    ensures ((a % n) + b) % n == (a + b) % n
  {
    var y := a % n + b;
    assert a == n * (a / n) + a % n;
    assert y == n * (y / n) + y % n;
    assert a + b == n * (a / n + y / n) + y % n;
    ModUnique(a + b, n, a / n + y / n, y % n);
  }

  /** Fewer than n consecutive steps round the circle never land on the same place twice. */
  lemma ModDistinct(s: nat, i: nat, j: nat, n: nat)
    requires i < j < n
    ensures (s + i) % n != (s + j) % n
  {
    var qi, qj := (s + i) / n, (s + j) / n;
    assert s + i == n * qi + (s + i) % n;
    assert s + j == n * qj + (s + j) % n;
    if (s + i) % n == (s + j) % n {
      assert j - i == n * (qj - qi);
      MulBounds(n, qj - qi);
      assert false;
    }
  }

  // ---------------------------------------------------------------------
  // Circular walks

  /** The list the selection loops build: alive[(start + i) % n] for i in [0, count). */
  function Circular(alive: seq<Member>, start: nat, count: nat): seq<Member>
    requires |alive| > 0
  {
    if count == 0 then [] else Circular(alive, start, count - 1) + [alive[(start + count - 1) % |alive|]]
  }

  /** Element i of a circular walk is alive[(start + i) mod n]. */
  lemma {:induction false} CircularSpec(alive: seq<Member>, start: nat, count: nat)
    requires |alive| > 0
    ensures |Circular(alive, start, count)| == count
    ensures forall i :: 0 <= i < count ==> Circular(alive, start, count)[i] == alive[(start + i) % |alive|]
  {
    if count > 0 {
      CircularSpec(alive, start, count - 1);
    }
  }

  /** A circular walk draws only from the list it walks. */
  lemma CircularFrom(alive: seq<Member>, start: nat, count: nat)
    requires |alive| > 0
    ensures forall m :: m in Circular(alive, start, count) ==> m in alive
  {
    CircularSpec(alive, start, count);
  }

  /** A walk of at most n steps over a list with distinct ids gives distinct ids. */
  lemma CircularDistinct(alive: seq<Member>, start: nat, count: nat)
    requires |alive| > 0 && count <= |alive|
    requires forall x :: Count(alive, x) <= 1
    ensures |Circular(alive, start, count)| == count
    ensures forall i, j :: 0 <= i < j < count ==> Circular(alive, start, count)[i].id != Circular(alive, start, count)[j].id
  {
    CircularSpec(alive, start, count);
    var n := |alive|;
    forall i, j | 0 <= i < j < count
      ensures Circular(alive, start, count)[i].id != Circular(alive, start, count)[j].id
    {
      var p, q := (start + i) % n, (start + j) % n;
      ModDistinct(start, i, j, n);
      if p < q {
        CountUnique(alive, p, q);
      } else {
        CountUnique(alive, q, p);
      }
    }
  }

  // ---------------------------------------------------------------------
  // The strategies

  /** Math.abs(messageId % memberCount). */
  function HashStart(messageId: int, n: nat): (start: nat)
    requires n > 0
    ensures start < n
    ensures start == Abs(messageId) % n
  {
    Abs(JavaRem(messageId, n))
  }

  /** selectMembersHashBased(count, messageId) over the alive list. */
  function HashBased(alive: seq<Member>, count: nat, messageId: int): seq<Member>
  {
    if |alive| == 0 then [] else Circular(alive, HashStart(messageId, |alive|), count)
  }

  /** selectMembersRoundRobin(count): the selection and the counter afterwards. */
  function RoundRobin(alive: seq<Member>, count: nat, counter: nat): (seq<Member>, nat)
  {
    if |alive| == 0 then ([], counter)
    else (Circular(alive, counter, count), (counter + count) % |alive|)
  }

  /** selectMembers(count, messageId): the selection and the round-robin counter afterwards. */
  function Select(strategy: LoadBalancingStrategy, active: seq<Member>, count: int, messageId: int, counter: nat): (seq<Member>, nat)
  {
    if |active| == 0 || count <= 0 then ([], counter)
    else
      var selectCount := if count < |active| then count else |active|;
      match strategy
      case ROUND_ROBIN => RoundRobin(active, selectCount, counter)
      case HASH_BASED => (HashBased(active, selectCount, messageId), counter)
  }

  /**
   * selectMembers gives min(count, |active|) members, none when count <= 0 or nothing is
   * active, each one drawn from the active list; only round-robin moves the counter,
   * by the number selected, modulo the active count.
   */
  lemma SelectSpec(strategy: LoadBalancingStrategy, active: seq<Member>, count: int, messageId: int, counter: nat)
    ensures var (sel, counter') := Select(strategy, active, count, messageId, counter);
      && |sel| == (if |active| == 0 || count <= 0 then 0 else if count < |active| then count else |active|)
      && (forall m :: m in sel ==> m in active)
      && counter' == (if strategy.ROUND_ROBIN? && |sel| > 0 then (counter + |sel|) % |active| else counter)
  {
    if |active| > 0 && count > 0 {
      var selectCount := if count < |active| then count else |active|;
      CircularSpec(active, counter, selectCount);
      CircularFrom(active, counter, selectCount);
      CircularSpec(active, HashStart(messageId, |active|), selectCount);
      CircularFrom(active, HashStart(messageId, |active|), selectCount);
    }
  }

  /** Element i of a selection is active[(s + i) mod n], s being the counter or the hash start. */
  lemma SelectPositions(strategy: LoadBalancingStrategy, active: seq<Member>, count: int, messageId: int, counter: nat)
    requires |active| > 0
    ensures var sel := Select(strategy, active, count, messageId, counter).0;
      var start := if strategy.ROUND_ROBIN? then counter else HashStart(messageId, |active|);
      forall i :: 0 <= i < |sel| ==> sel[i] == active[(start + i) % |active|]
  {
    if count > 0 {
      var selectCount := if count < |active| then count else |active|;
      CircularSpec(active, counter, selectCount);
      CircularSpec(active, HashStart(messageId, |active|), selectCount);
    }
  }

  /** From a valid directory no member is selected twice. */
  lemma SelectDistinct(strategy: LoadBalancingStrategy, d: Dir, count: int, messageId: int, counter: nat)
    requires Valid(d)
    ensures var sel := Select(strategy, d.active, count, messageId, counter).0;
      forall i, j :: 0 <= i < j < |sel| ==> sel[i].id != sel[j].id
  {
    if |d.active| > 0 && count > 0 {
      var selectCount := if count < |d.active| then count else |d.active|;
      forall x ensures Count(d.active, x) <= 1 {
        assert Count(d.active, x) + Count(d.dead, x) <= 1;
      }
      CircularDistinct(d.active, counter, selectCount);
      CircularDistinct(d.active, HashStart(messageId, |d.active|), selectCount);
    }
  }

  /** A member missing from the active list (for example one marked dead) is never selected. */
  lemma NotActiveNotSelected(strategy: LoadBalancingStrategy, active: seq<Member>, count: int, messageId: int, counter: nat, x: string)
    requires Count(active, x) == 0
    ensures forall m :: m in Select(strategy, active, count, messageId, counter).0 ==> m.id != x
  {
    SelectSpec(strategy, active, count, messageId, counter);
    forall m | m in Select(strategy, active, count, messageId, counter).0 ensures m.id != x {
      var i :| 0 <= i < |active| && active[i] == m;
      CountPositive(active, i);
    }
  }

  /** Message id 5 over three members, two wanted: Java's rem gives start 2, so positions 2 and 0. */
  lemma HashExample(m1: Member, m2: Member, m3: Member)
    ensures HashStart(5, 3) == 2
    ensures Select(HASH_BASED, [m1, m2, m3], 2, 5, 0) == ([m3, m1], 0)
  {
    var alive := [m1, m2, m3];
    assert JavaRem(5, 3) == 2;
    CircularSpec(alive, 2, 2);
    var w := Circular(alive, 2, 2);
    assert w[0] == alive[2 % 3] == m3;
    assert w[1] == alive[3 % 3] == m1;
    assert w == [m3, m1];
    assert HashBased(alive, 2, 5) == w;
  }

  /** A negative id: Java's -4 % 3 is -1, so the start is 1 (a floored remainder would give 2). */
  lemma NegativeHashExample()
    ensures HashStart(-4, 3) == 1
  {
    assert JavaRem(-4, 3) == -1;
  }

  // ---------------------------------------------------------------------
  // Repeated round-robin calls

  /** k successive round-robin selections of one member each: the members picked, in order, and the final counter. */
  function RoundRobinRun(alive: seq<Member>, k: nat, counter: nat): (seq<Member>, nat)
  {
    if k == 0 then ([], counter)
    else
      var (first, c1) := RoundRobin(alive, 1, counter);
      var (rest, c2) := RoundRobinRun(alive, k - 1, c1);
      (first + rest, c2)
  }

  /** k single-member round-robin calls from counter c walk the list circularly from c and leave the counter at (c + k) mod n. */
  lemma {:induction false} RoundRobinRunSpec(alive: seq<Member>, k: nat, c: nat)
    requires |alive| > 0
    ensures RoundRobinRun(alive, k, c).0 == Circular(alive, c, k)
    ensures RoundRobinRun(alive, k, c).1 == if k == 0 then c else (c + k) % |alive|
  {
    var n := |alive|;
    if k > 0 {
      var c1 := (c + 1) % n;
      RoundRobinRunSpec(alive, k - 1, c1);
      CircularSpec(alive, c, 1);
      CircularSpec(alive, c1, k - 1);
      CircularSpec(alive, c, k);
      var run := RoundRobinRun(alive, k, c).0;
      assert run == [alive[c % n]] + Circular(alive, c1, k - 1);
      forall i | 0 <= i < k ensures run[i] == Circular(alive, c, k)[i] {
        if i > 0 {
          ModAddLeft(c + 1, i - 1, n);
        }
      }
      ModAddLeft(c + 1, k - 1, n);
    }
  }

  lemma {:induction false} CircularFromZero(alive: seq<Member>, count: nat)
    requires 0 < |alive| && count <= |alive|
    ensures Circular(alive, 0, count) == alive[..count]
  {
    if count > 0 {
      CircularFromZero(alive, count - 1);
      ModSmall(count - 1, |alive|);
      assert alive[..count] == alive[..count - 1] + [alive[count - 1]];
    }
  }

  /** From counter 0, n single-member calls visit every member once, in list order, and bring the counter back to 0. */
  lemma RoundRobinVisitsAll(alive: seq<Member>)
    requires |alive| > 0
    ensures RoundRobinRun(alive, |alive|, 0).0 == alive
    ensures RoundRobinRun(alive, |alive|, 0).1 == 0
  {
    RunOrder(alive);
    RunCounter(alive);
  }

  lemma RunOrder(alive: seq<Member>)
    requires |alive| > 0
    ensures RoundRobinRun(alive, |alive|, 0).0 == alive
  {
    var n := |alive|;
    RoundRobinRunSpec(alive, n, 0);
    CircularFromZero(alive, n);
    assert alive[..n] == alive;
  }

  lemma RunCounter(alive: seq<Member>)
    requires |alive| > 0
    ensures RoundRobinRun(alive, |alive|, 0).1 == 0
  {
    RoundRobinRunSpec(alive, |alive|, 0);
    ModSelf(|alive|);
  }
}
