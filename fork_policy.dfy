/**
 * The order in which a philosopher takes its two forks (Philosopher.run), and
 * why that order rules out the circular wait of the dining philosophers.
 */
module ForkPolicy {

  /** The fork a philosopher acquires first and the one it acquires second. */
  datatype ForkPair = ForkPair(first: int, second: int)

  /**
   * Philosopher id of n takes its left fork `id` and its right fork
   * `(id + 1) % n`. With the symmetry break every philosopher but the last
   * takes the right one first; the last, and everyone when the break is off,
   * takes the left one first.
   */
  function ForkOrder(id: int, n: int, simetria: bool): (r: ForkPair)
    requires 0 <= id < n
    ensures {r.first, r.second} == {id, (id + 1) % n}
    ensures 0 <= r.first < n && 0 <= r.second < n
    ensures n >= 2 ==> r.first != r.second
    ensures simetria && n >= 2 ==> r.first > r.second
    ensures !simetria ==> r.second == (r.first + 1) % n
  {
    var left := id;
    var right := (id + 1) % n;
    if simetria then
      if id == n - 1 then ForkPair(left, right) else ForkPair(right, left)
    else
      ForkPair(left, right)
  }

  /** With the symmetry break only the last philosopher starts on its left fork. */
  lemma {:induction false} WhoStartsLeft(id: int, n: int)
    requires 0 <= id < n
    ensures ForkOrder(id, n, true).first == id <==> id == n - 1
    ensures ForkOrder(id, n, false).first == id
  {
    if id < n - 1 {
      assert (id + 1) % n == id + 1;
    }
  }

  /** The last two philosophers both start on fork n-1: the first-fork map is not injective. */
  lemma SharedFirstFork(n: int)
    requires n >= 2
    ensures ForkOrder(n - 2, n, true).first == n - 1 == ForkOrder(n - 1, n, true).first
  {
    assert (n - 2 + 1) % n == n - 1;
  }

  /**
   * Hence, with the break, no snapshot has every philosopher holding its
   * first fork: philosophers n-2 and n-1 would both hold fork n-1.
   */
  lemma NotEveryoneHoldsFirst(n: int, holder: seq<int>)
    requires n >= 2 && |holder| == n
    ensures !(forall p :: 0 <= p < n ==> holder[ForkOrder(p, n, true).first] == p)
  {
    SharedFirstFork(n);
  }

  /** Without the break the first-fork map is injective: everyone starts on a different fork. */
  lemma FirstForkInjectiveWithoutBreak(n: int, p: int, q: int)
    requires 0 <= p < n && 0 <= q < n && p != q
    ensures ForkOrder(p, n, false).first != ForkOrder(q, n, false).first
  {
  }

  // ------------------------------------------------------- wait-for states

  /**
   * A snapshot of who holds which fork: holder[f] is the philosopher holding
   * fork f, or -1 when the fork is free.
   */
  predicate InRange(n: int, holder: seq<int>) {
    |holder| == n && forall f :: 0 <= f < n ==> -1 <= holder[f] < n
  }

  /**
   * A philosopher holds a fork only as its first fork, or as its second fork
   * while it also holds its first (forks are taken in policy order), or as its
   * second fork while it is releasing: the `finally` block gives back the first
   * fork before the second, so between the two releases only the second is held.
   */
  predicate HeldInOrder(n: int, simetria: bool, holder: seq<int>, releasing: set<int>, p: int, f: int)
    requires InRange(n, holder) && 0 <= p < n
  {
    var pair := ForkOrder(p, n, simetria);
    f == pair.first || (f == pair.second && (holder[pair.first] == p || p in releasing))
  }

  /**
   * A snapshot the acquisition and release order can produce; `releasing`
   * holds the philosophers that have given back their first fork and not yet
   * their second.
   */
  predicate Reachable(n: int, simetria: bool, holder: seq<int>, releasing: set<int>) {
    InRange(n, holder) &&
    forall f :: 0 <= f < n && holder[f] != -1 ==> HeldInOrder(n, simetria, holder, releasing, holder[f], f)
  }

  /**
   * p is waiting for a fork another philosopher holds: its first, or its second
   * while holding its first. A philosopher that is releasing waits for nothing.
   */
  predicate Blocked(n: int, simetria: bool, holder: seq<int>, releasing: set<int>, p: int)
    requires InRange(n, holder) && 0 <= p < n
  {
    var pair := ForkOrder(p, n, simetria);
    p !in releasing &&
    if holder[pair.first] == p then holder[pair.second] != -1 && holder[pair.second] != p
    else holder[pair.first] != -1
  }

  /** Every philosopher is waiting on another one. */
  predicate Deadlocked(n: int, simetria: bool, holder: seq<int>, releasing: set<int>)
    requires InRange(n, holder)
  {
    forall p :: 0 <= p < n ==> Blocked(n, simetria, holder, releasing, p)
  }

  // ------------------------------------------------------- steps

  /** Taking the first fork, when it is free, keeps the snapshot reachable. */
  lemma AcquireFirstStep(n: int, simetria: bool, holder: seq<int>, releasing: set<int>, p: int)
    requires Reachable(n, simetria, holder, releasing) && 0 <= p < n
    requires holder[ForkOrder(p, n, simetria).first] == -1
    ensures Reachable(n, simetria, holder[ForkOrder(p, n, simetria).first := p], releasing)
  {
    var pair := ForkOrder(p, n, simetria);
    var h := holder[pair.first := p];
    forall f | 0 <= f < n && h[f] != -1 ensures HeldInOrder(n, simetria, h, releasing, h[f], f) {
      if f != pair.first {
        assert HeldInOrder(n, simetria, holder, releasing, holder[f], f);
      }
    }
  }

  /** Taking the second fork, when it is free and the first is held, keeps the snapshot reachable. */
  lemma AcquireSecondStep(n: int, simetria: bool, holder: seq<int>, releasing: set<int>, p: int)
    requires Reachable(n, simetria, holder, releasing) && 0 <= p < n
    requires holder[ForkOrder(p, n, simetria).first] == p
    requires holder[ForkOrder(p, n, simetria).second] == -1
    ensures Reachable(n, simetria, holder[ForkOrder(p, n, simetria).second := p], releasing)
  {
    var pair := ForkOrder(p, n, simetria);
    var h := holder[pair.second := p];
    forall f | 0 <= f < n && h[f] != -1 ensures HeldInOrder(n, simetria, h, releasing, h[f], f) {
      if f != pair.second {
        assert HeldInOrder(n, simetria, holder, releasing, holder[f], f);
      }
    }
  }

  /**
   * Giving back the first fork while holding both (the first release of the
   * `finally` block) keeps the snapshot reachable, with p now releasing.
   */
  lemma ReleaseFirstStep(n: int, simetria: bool, holder: seq<int>, releasing: set<int>, p: int)
    requires Reachable(n, simetria, holder, releasing) && 0 <= p < n
    requires holder[ForkOrder(p, n, simetria).first] == p
    requires holder[ForkOrder(p, n, simetria).second] == p
    ensures Reachable(n, simetria, holder[ForkOrder(p, n, simetria).first := -1], releasing + {p})
  {
    var pair := ForkOrder(p, n, simetria);
    var h := holder[pair.first := -1];
    forall f | 0 <= f < n && h[f] != -1 ensures HeldInOrder(n, simetria, h, releasing + {p}, h[f], f) {
      var q := h[f];
      assert HeldInOrder(n, simetria, holder, releasing, q, f);
      if q != p {
        var qp := ForkOrder(q, n, simetria);
        assert holder[qp.first] == q ==> qp.first != pair.first;
      }
    }
  }

  /**
   * Giving back the second fork of a releasing philosopher (the second release
   * of the `finally` block) keeps the snapshot reachable, with p done releasing.
   */
  lemma ReleaseSecondStep(n: int, simetria: bool, holder: seq<int>, releasing: set<int>, p: int)
    requires Reachable(n, simetria, holder, releasing) && 0 <= p < n
    requires p in releasing && holder[ForkOrder(p, n, simetria).first] != p
    requires holder[ForkOrder(p, n, simetria).second] == p
    ensures Reachable(n, simetria, holder[ForkOrder(p, n, simetria).second := -1], releasing - {p})
  {
    var pair := ForkOrder(p, n, simetria);
    var h := holder[pair.second := -1];
    forall f | 0 <= f < n && h[f] != -1 ensures HeldInOrder(n, simetria, h, releasing - {p}, h[f], f) {
      var q := h[f];
      assert HeldInOrder(n, simetria, holder, releasing, q, f);
    }
  }

  /**
   * Under the symmetry break, starting from a philosopher q that holds its
   * first fork, someone can proceed: if q is waiting, it waits for its second
   * fork, which is lower than its first; whoever holds that fork either holds
   * both its own (and eats), is releasing, or holds it as a lower first fork,
   * and the search goes on from there.
   */
  lemma {:induction false} UnblockedBelow(n: int, holder: seq<int>, releasing: set<int>, q: int) returns (p: int)
    requires n >= 2 && Reachable(n, true, holder, releasing)
    requires 0 <= q < n && holder[ForkOrder(q, n, true).first] == q
    ensures 0 <= p < n && !Blocked(n, true, holder, releasing, p)
    decreases ForkOrder(q, n, true).first
  {
    var pair := ForkOrder(q, n, true);
    if !Blocked(n, true, holder, releasing, q) {
      return q;
    }
    var r := holder[pair.second];
    assert HeldInOrder(n, true, holder, releasing, r, pair.second);
    if pair.second == ForkOrder(r, n, true).first {
      p := UnblockedBelow(n, holder, releasing, r);
    } else {
      p := r;
    }
  }

  /**
   * The symmetry break prevents deadlock: with at least two philosophers,
   * every snapshot the acquisition and release order can produce has a
   * philosopher that is not waiting on anyone.
   */
  lemma {:induction false} SomeoneCanProceed(n: int, holder: seq<int>, releasing: set<int>) returns (p: int)
    requires n >= 2 && Reachable(n, true, holder, releasing)
    ensures 0 <= p < n && !Blocked(n, true, holder, releasing, p)
    ensures !Deadlocked(n, true, holder, releasing)
  {
    var f := ForkOrder(0, n, true).first;
    if !Blocked(n, true, holder, releasing, 0) {
      p := 0;
    } else if holder[f] == 0 {
      p := UnblockedBelow(n, holder, releasing, 0);
    } else {
      var r := holder[f];
      assert HeldInOrder(n, true, holder, releasing, r, f);
      if f == ForkOrder(r, n, true).first {
        p := UnblockedBelow(n, holder, releasing, r);
      } else {
        p := r;
      }
    }
  }

  /**
   * Two philosophers, p0 between its two releases (it gave back fork 1 and
   * still holds fork 0) while p1 holds fork 1: a snapshot the program reaches
   * only through the release order, in which p0 waits for nothing.
   */
  lemma MidReleaseSnapshot()
    ensures !Reachable(2, true, [0, 1], {})
    ensures Reachable(2, true, [0, 1], {0})
    ensures Blocked(2, true, [0, 1], {0}, 1) && !Deadlocked(2, true, [0, 1], {0})
  {
    assert ForkOrder(0, 2, true) == ForkPair(1, 0);
    assert ForkOrder(1, 2, true) == ForkPair(1, 0);
    var h := [0, 1];
    assert h[0] != -1 && !HeldInOrder(2, true, h, {}, h[0], 0);
    assert !Blocked(2, true, [0, 1], {0}, 0);
  }

  /**
   * Without the break the classic deadlock exists: everyone holds its left
   * fork and waits for its right one, which its neighbour holds.
   */
  lemma CircularWaitWithoutBreak(n: int)
    requires n >= 2
    ensures Reachable(n, false, seq(n, f => f), {})
    ensures Deadlocked(n, false, seq(n, f => f), {})
  {
    var holder := seq(n, f => f);
    forall p | 0 <= p < n ensures Blocked(n, false, holder, {}, p) {
      var pair := ForkOrder(p, n, false);
      assert holder[pair.first] == p;
      assert holder[pair.second] == pair.second != p;
    }
  }
}
