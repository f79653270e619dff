/**
 * The branch ring of one repository, as a value: the ordered list of branch
 * names (`ring`) and the cursor into it (`position`, reached through the
 * `index` property of the stack). Each operation of the stack is a function
 * from the old value to the new one; the class in module BranchStack is
 * proved against these functions.
 */
module BranchRing {
  import opened Options

  /** The stack entry stored for one repository root. */
  datatype StackState = StackState(ring: seq<string>, index: Option<nat>)

  /** Why `pop` gives no branch: no cursor at all, or a cursor past the end. */
  datatype PopError = NoBranches | IndexOutOfRange

  /**
   * Every operation writes a cursor whenever it adds a branch, and clears it
   * only when the ring becomes empty, so a missing cursor means an empty ring.
   * (A cursor past the end of the ring is possible: the filters shrink the
   * ring without touching the cursor.)
   */
  predicate Valid(s: StackState)
  {
    s.index.None? ==> s.ring == []
  }

  /** The cursor designates an element of the ring. */
  predicate InRange(s: StackState)
  {
    s.index.Some? && s.index.value < |s.ring|
  }

  /** No branch name occurs twice. */
  predicate NoDup(r: seq<string>)
  {
    forall i, j :: 0 <= i < j < |r| ==> r[i] != r[j]
  }

  function Min(a: nat, b: nat): nat
  {
    if a <= b then a else b
  }

  /** A positive multiple of `n` is at least `n`. */
  lemma {:induction false} MulAtLeast(n: int, k: int)
    requires n > 0 && k >= 1
    ensures n * k >= n
    decreases k
  {
    if k > 1 {
      MulAtLeast(n, k - 1);
      assert n * k == n * (k - 1) + n;
    }
  }

  /** A multiple of `n` leaves no remainder. */
  lemma MultipleMod(n: int, d: int)
    requires n > 0
    ensures (n * d) % n == 0
  {
    var e, m := (n * d) / n, (n * d) % n;
    assert n * d == n * e + m;
    var k := d - e;
    assert n * k == m by {
      assert n * d == n * (e + k) == n * e + n * k;
    }
    if k >= 1 {
      MulAtLeast(n, k);
    } else if k <= -1 {
      assert n * (-k) == -m by {
        assert n * (-k) == -(n * k);
      }
      MulAtLeast(n, -k);
    }
  }

  /**
   * Python's `x % n` for a positive divisor: the representative of `x`
   * modulo `n` in `[0, n)`.
   */
  function Wrap(x: int, n: nat): (r: nat)
    requires n > 0
    ensures r < n
    ensures (x - r) % n == 0
    ensures 0 <= x < n ==> r == x
    ensures x == -1 ==> r == n - 1
    ensures x == n ==> r == 0
  {
    MultipleMod(n, x / n);
    assert x - x % n == n * (x / n);
    x % n
  }

  /** `ring.index(b)`: the position of the first occurrence of `b`. */
  function IndexOf(r: seq<string>, b: string): (k: nat)
    requires b in r
    ensures k < |r| && r[k] == b
    ensures forall j :: 0 <= j < k ==> r[j] != b
  {
    if r[0] == b then 0 else 1 + IndexOf(r[1..], b)
  }

  /** `del r[i]`. */
  function RemoveAt(r: seq<string>, i: nat): (r': seq<string>)
    requires i < |r|
    ensures |r'| == |r| - 1
    ensures forall j :: 0 <= j < i ==> r'[j] == r[j]
    ensures forall j :: i <= j < |r'| ==> r'[j] == r[j + 1]
  {
    r[..i] + r[i + 1..]
  }

  /**
   * `r.insert(k, b)`: a position past the end inserts at the end. Removing
   * the inserted element again gives back the original list.
   */
  function Insert(r: seq<string>, k: nat, b: string): (r': seq<string>)
    ensures |r'| == |r| + 1
    ensures r'[Min(k, |r|)] == b
    ensures RemoveAt(r', Min(k, |r|)) == r
  {
    var p := Min(k, |r|);
    assert (r[..p] + [b] + r[p..])[..p] == r[..p];
    assert (r[..p] + [b] + r[p..])[p + 1..] == r[p..];
    r[..p] + [b] + r[p..]
  }

  /** The slot right after the cursor, or the head when there is no cursor. */
  function NextSlot(index: Option<nat>): nat
  {
    if index.Some? then index.value + 1 else 0
  }

  /**
   * `Stack.push`: jump to a branch already in the ring, otherwise insert it
   * right after the cursor. The cursor follows the branch to the place where
   * `list.insert` really put it (see PushAsWritten for the source's cursor).
   */
  function Push(s: StackState, b: string): (t: StackState)
    ensures Valid(t) && InRange(t) && t.ring[t.index.value] == b
  {
    if b in s.ring then
      StackState(s.ring, Some(IndexOf(s.ring, b)))
    else
      var p := Min(NextSlot(s.index), |s.ring|);
      StackState(Insert(s.ring, p, b), Some(p))
  }

  /**
   * `Stack.push` exactly as written: the cursor is set to `index + 1` even
   * when `list.insert` clamped the insertion to the end of a shorter ring.
   */
  function PushAsWritten(s: StackState, b: string): (t: StackState)
    ensures t.ring == Push(s, b).ring
    ensures Valid(t)
  {
    if b in s.ring then
      StackState(s.ring, Some(IndexOf(s.ring, b)))
    else
      var k := NextSlot(s.index);
      StackState(Insert(s.ring, k, b), Some(k))
  }

  /** `Stack.current`: the branch under the cursor, if the cursor is on one. */
  function Current(s: StackState): (c: Option<string>)
    requires Valid(s)
    ensures c.Some? <==> InRange(s)
    ensures c.Some? ==> c.value in s.ring && c.value == s.ring[s.index.value]
  {
    if |s.ring| > 0 && |s.ring| > s.index.value then Some(s.ring[s.index.value]) else None
  }

  /**
   * `Stack.pop`: remove the branch under the cursor and step the cursor back,
   * wrapping to the last element; with no cursor the source exits, with a
   * cursor past the end the list index raises.
   */
  function Pop(s: StackState): (r: Result<(string, StackState), PopError>)
    ensures r.Err? <==> !InRange(s)
    ensures r.Err? ==> r.error == (if s.index.None? then NoBranches else IndexOutOfRange)
    ensures r.Ok? ==> Valid(r.value.1) && (r.value.1.ring == [] || InRange(r.value.1))
    ensures r.Ok? && r.value.1.ring == [] ==> r.value.1.index.None?
    ensures r.Ok? ==> r.value.0 == s.ring[s.index.value]
                      && r.value.1.ring == RemoveAt(s.ring, s.index.value)
  {
    match s.index
    case None => Err(NoBranches)
    case Some(i) =>
      if i >= |s.ring| then Err(IndexOutOfRange)
      else
        var rest := RemoveAt(s.ring, i);
        Ok((s.ring[i], StackState(rest, if |rest| > 0 then Some(Wrap(i - 1, |rest|)) else None)))
  }

  /** `Stack.forward`: advance the cursor cyclically and return the branch. */
  function Forward(s: StackState): (r: (StackState, Option<string>))
    requires Valid(s)
    ensures r.0.ring == s.ring && Valid(r.0)
    ensures s.ring == [] ==> r == (s, None)
    ensures s.ring != [] ==> InRange(r.0) && r.1 == Current(r.0)
  {
    if |s.ring| == 0 then (s, None)
    else
      var k := Wrap(s.index.value + 1, |s.ring|);
      (StackState(s.ring, Some(k)), Some(s.ring[k]))
  }

  /** `Stack.back`: move the cursor back cyclically and return the branch. */
  function Back(s: StackState): (r: (StackState, Option<string>))
    requires Valid(s)
    ensures r.0.ring == s.ring && Valid(r.0)
    ensures s.ring == [] ==> r == (s, None)
    ensures s.ring != [] ==> InRange(r.0) && r.1 == Current(r.0)
  {
    if |s.ring| == 0 then (s, None)
    else
      var k := Wrap(s.index.value - 1, |s.ring|);
      (StackState(s.ring, Some(k)), Some(s.ring[k]))
  }

  /** `n` calls of `forward` in a row. */
  function ForwardTimes(s: StackState, n: nat): (t: StackState)
    requires Valid(s)
    ensures Valid(t) && t.ring == s.ring
    decreases n
  {
    if n == 0 then s else ForwardTimes(Forward(s).0, n - 1)
  }

  /**
   * `[br for br in ring if br in keep]`: the filters of `_fix_ring` and
   * `remove_missing_branches`.
   */
  function KeepOnly(ring: seq<string>, keep: set<string>): (r: seq<string>)
    ensures |r| <= |ring|
    ensures forall b :: b in r <==> b in ring && b in keep
  {
    if ring == [] then []
    else (if ring[0] in keep then [ring[0]] else []) + KeepOnly(ring[1..], keep)
  }

  /**
   * `Git._ref_exists(ref)` as written: it runs `git branch --no-color`
   * without `ref`, so the answer is whether that command succeeded.
   */
  predicate GitRefExists(gitBranchSucceeds: bool, ref: string)
  {
    gitBranchSucceeds
  }

  /**
   * `Git.ref_exists(branch)`: the local name, then `origin/<branch>`. Both
   * questions run the same command, so the name makes no difference.
   */
  function RefExists(gitBranchSucceeds: bool, branch: string): (found: bool)
    ensures found <==> gitBranchSucceeds
  {
    GitRefExists(gitBranchSucceeds, branch) || GitRefExists(gitBranchSucceeds, "origin/" + branch)
  }

  /** `a` lists some of the elements of `b`, in the same order. */
  predicate IsSubsequence(a: seq<string>, b: seq<string>)
    decreases |b|
  {
    a == [] || (b != [] && if a[0] == b[0] then IsSubsequence(a[1..], b[1..]) else IsSubsequence(a, b[1..]))
  }

  // ---------------------------------------------------------------------
  // push

  /** A branch pushed onto a ring that does not hold it occupies exactly the
      slot the cursor moved to; no earlier slot holds it. */
  lemma PushedSlotIsFirst(s: StackState, b: string)
    requires b !in s.ring
    ensures var t := Push(s, b); IndexOf(t.ring, b) == t.index.value
  {
  }

  /** Pushing the same branch twice is the same as pushing it once: the ring
      never gets a duplicate and the cursor stays on the branch. */
  lemma PushIdempotent(s: StackState, b: string)
    ensures Push(Push(s, b), b) == Push(s, b)
  {
  }

  /** Pushing a new branch grows the ring by exactly that branch, right
      after the cursor (at the head when there is no cursor), and leaves the
      other branches in their order. */
  lemma PushNew(s: StackState, b: string)
    requires b !in s.ring
    ensures var t := Push(s, b);
      && |t.ring| == |s.ring| + 1
      && multiset(t.ring) == multiset(s.ring) + multiset{b}
      && RemoveAt(t.ring, t.index.value) == s.ring
      && (s.index.None? ==> t.index == Some(0))
      && (InRange(s) ==> t.index == Some(s.index.value + 1))
  {
    var p := Min(NextSlot(s.index), |s.ring|);
    assert s.ring == s.ring[..p] + s.ring[p..];
  }

  /** Push adds the pushed branch and no other. */
  lemma PushMembers(s: StackState, b: string)
    ensures forall x :: x in Push(s, b).ring <==> x == b || x in s.ring
  {
    if b !in s.ring {
      PushNew(s, b);
      var t := Push(s, b);
      forall x
        ensures x in t.ring <==> x == b || x in s.ring
      {
        assert x in t.ring <==> x in multiset(t.ring);
        assert x in s.ring <==> x in multiset(s.ring);
      }
    }
  }

  /** With the cursor on the last branch, a new branch is appended. */
  lemma PushAppends(s: StackState, b: string)
    requires b !in s.ring && s.index == Some(|s.ring| - 1)
    ensures Push(s, b) == StackState(s.ring + [b], Some(|s.ring|))
  {
  }

  /** Inserting a fresh name into a list without duplicates keeps it so. */
  lemma NoDupInsert(a: seq<string>, c: seq<string>, b: string)
    requires NoDup(a + c) && b !in a + c
    ensures NoDup(a + [b] + c)
  {
    var u := a + c;
    var t := a + [b] + c;
    forall i, j | 0 <= i < j < |t|
      ensures t[i] != t[j]
    {
      var i' := if i < |a| then i else i - 1;
      var j' := if j <= |a| then j else j - 1;
      if i == |a| {
        assert t[j] == u[j'] && u[j'] in u;
      } else if j == |a| {
        assert t[i] == u[i'] && u[i'] in u;
      } else {
        assert t[i] == u[i'] && t[j] == u[j'] && i' < j';
      }
    }
  }

  /** Push never introduces a duplicate branch name. */
  lemma PushKeepsNoDup(s: StackState, b: string)
    requires NoDup(s.ring)
    ensures NoDup(Push(s, b).ring)
  {
    if b !in s.ring {
      var r := s.ring;
      var p := Min(NextSlot(s.index), |r|);
      assert r == r[..p] + r[p..];
      NoDupInsert(r[..p], r[p..], b);
      assert Push(s, b).ring == r[..p] + [b] + r[p..];
    }
  }

  /** Popping right after pushing a new branch returns that branch and
      restores the stack exactly, cursor included. */
  lemma PushPopRoundTrip(s: StackState, b: string)
    requires Valid(s) && b !in s.ring
    requires s.index.None? || InRange(s)
    ensures Pop(Push(s, b)) == Ok((b, s))
  {
  }

  /** The source's push and the corrected push differ exactly when a new
      branch is pushed while the cursor is at or past the end of the ring. */
  lemma PushAsWrittenAgrees(s: StackState, b: string)
    ensures PushAsWritten(s, b) == Push(s, b) <==> (b in s.ring || NextSlot(s.index) <= |s.ring|)
  {
  }

  /** In that case the source's push leaves `current()` without a branch,
      while the corrected push makes the pushed branch current. */
  lemma PushAsWrittenLosesCurrent(s: StackState, b: string)
    requires b !in s.ring && NextSlot(s.index) > |s.ring|
    ensures Current(PushAsWritten(s, b)) == None
    ensures Current(Push(s, b)) == Some(b)
  {
  }

  /** A ring filtered down to `["a"]` under a cursor of 1, then a push of a
      new branch `"x"`: the source appends `"x"` but leaves the cursor at 2. */
  lemma PushAsWrittenExample()
    ensures var t := PushAsWritten(StackState(["a"], Some(1)), "x");
      t == StackState(["a", "x"], Some(2)) && Current(t) == None
  {
  }

  /** `_fix_ring` after a failed `git branch`: the filter has emptied the
      ring under a cursor of 0, and the source's push of the checked-out
      branch leaves the cursor at 1, past the only branch. */
  lemma PushAsWrittenAfterEmptiedRing()
    ensures var t := PushAsWritten(StackState([], Some(0)), "main");
      t == StackState(["main"], Some(1)) && Current(t) == None
    ensures Current(Push(StackState([], Some(0)), "main")) == Some("main")
  {
  }

  // ---------------------------------------------------------------------
  // pop

  /** Pop removes exactly the popped branch: nothing else is lost or added. */
  lemma {:induction false} PopRemovesExactly(s: StackState)
    requires InRange(s)
    ensures Pop(s).Ok?
    ensures var (b, t) := Pop(s).value; multiset(s.ring) == multiset(t.ring) + multiset{b}
  {
    var i := s.index.value;
    var (b, t) := Pop(s).value;
    assert s.ring == s.ring[..i] + [b] + s.ring[i + 1..];
    assert t.ring == s.ring[..i] + s.ring[i + 1..];
  }

  /** On a ring without duplicates the popped branch is gone afterwards and
      no duplicate appears. */
  lemma {:induction false} PopKeepsNoDup(s: StackState)
    requires InRange(s) && NoDup(s.ring)
    ensures Pop(s).Ok?
    ensures var (b, t) := Pop(s).value; NoDup(t.ring) && b !in t.ring
  {
    var i := s.index.value;
    var (b, t) := Pop(s).value;
    forall k | 0 <= k < |t.ring|
      ensures t.ring[k] != b
    {
      if k < i { assert t.ring[k] == s.ring[k]; } else { assert t.ring[k] == s.ring[k + 1]; }
    }
    forall k, m | 0 <= k < m < |t.ring|
      ensures t.ring[k] != t.ring[m]
    {
      var k' := if k < i then k else k + 1;
      var m' := if m < i then m else m + 1;
      assert t.ring[k] == s.ring[k'] && t.ring[m] == s.ring[m'];
    }
  }

  /** After pop the cursor is on the branch that preceded the popped one,
      cyclically: popping the head makes the last branch current; popping
      the only branch clears the cursor. */
  lemma PopSelectsPredecessor(s: StackState)
    requires InRange(s)
    ensures Pop(s).Ok?
    ensures var i := s.index.value; var t := Pop(s).value.1;
      && (|s.ring| == 1 ==> t == StackState([], None))
      && (|s.ring| > 1 ==> Current(t) == Some(s.ring[if i == 0 then |s.ring| - 1 else i - 1]))
  {
  }

  // ---------------------------------------------------------------------
  // forward and back

  /** Back undoes forward and forward undoes back, on a cursor in range. */
  lemma ForwardBackInverse(s: StackState)
    requires Valid(s) && InRange(s)
    ensures Back(Forward(s).0).0 == s
    ensures Forward(Back(s).0).0 == s
  {
  }

  /** `n` forwards from cursor `i` land on `i + n`, wrapped once. */
  lemma {:induction false} ForwardTimesIndex(s: StackState, n: nat)
    requires Valid(s) && InRange(s) && n <= |s.ring|
    ensures var i := s.index.value;
      ForwardTimes(s, n) == StackState(s.ring, Some(if i + n < |s.ring| then i + n else i + n - |s.ring|))
    decreases n
  {
    if n > 0 {
      ForwardTimesIndex(Forward(s).0, n - 1);
    }
  }

  /** Going forward once per branch in the ring comes back to the start. */
  lemma {:induction false} ForwardCycle(s: StackState)
    requires Valid(s) && InRange(s)
    ensures ForwardTimes(s, |s.ring|) == s
  {
    ForwardTimesIndex(s, |s.ring|);
    assert ForwardTimes(s, |s.ring|).index == s.index;
  }

  // ---------------------------------------------------------------------
  // filters

  /** The filter keeps the surviving branches in their original order. */
  lemma {:induction false} KeepOnlyIsSubsequence(ring: seq<string>, keep: set<string>)
    ensures IsSubsequence(KeepOnly(ring, keep), ring)
    decreases |ring|
  {
    if ring != [] {
      KeepOnlyIsSubsequence(ring[1..], keep);
      var r := KeepOnly(ring, keep);
      if ring[0] in keep {
        assert r[0] == ring[0] && r[1..] == KeepOnly(ring[1..], keep);
      } else {
        assert r == KeepOnly(ring[1..], keep);
        SubsequenceSkip(r, ring);
      }
    }
  }

  /** A subsequence of the tail is a subsequence of the whole list. */
  lemma {:induction false} SubsequenceSkip(a: seq<string>, b: seq<string>)
    requires b != [] && IsSubsequence(a, b[1..])
    ensures IsSubsequence(a, b)
    decreases |b|, 0
  {
    if a != [] && a[0] == b[0] {
      SubsequenceDrop(a, b[1..]);
    }
  }

  /** Dropping the head of a subsequence keeps it a subsequence. */
  lemma {:induction false} SubsequenceDrop(a: seq<string>, b: seq<string>)
    requires a != [] && IsSubsequence(a, b)
    ensures IsSubsequence(a[1..], b)
    decreases |b|, 1
  {
    if a[0] != b[0] {
      SubsequenceDrop(a, b[1..]);
    }
    SubsequenceSkip(a[1..], b);
  }

  /** Filtering never introduces a duplicate branch name. */
  lemma {:induction false} KeepOnlyKeepsNoDup(ring: seq<string>, keep: set<string>)
    requires NoDup(ring)
    ensures NoDup(KeepOnly(ring, keep))
    decreases |ring|
  {
    if ring != [] {
      var tail := KeepOnly(ring[1..], keep);
      assert NoDup(ring[1..]) by {
        forall i, j | 0 <= i < j < |ring[1..]| ensures ring[1..][i] != ring[1..][j] {
          assert ring[1..][i] == ring[i + 1] && ring[1..][j] == ring[j + 1];
        }
      }
      KeepOnlyKeepsNoDup(ring[1..], keep);
      if ring[0] in keep {
        assert ring[0] !in ring[1..] by {
          forall k | 0 <= k < |ring[1..]| ensures ring[1..][k] != ring[0] {
            assert ring[1..][k] == ring[k + 1];
          }
        }
        assert ring[0] !in tail;
        var r := [ring[0]] + tail;
        forall i, j | 0 <= i < j < |r| ensures r[i] != r[j] {
          if i == 0 { assert r[j] == tail[j - 1]; } else { assert r[i] == tail[i - 1] && r[j] == tail[j - 1]; }
        }
      }
    }
  }

  /** A filter every branch passes leaves the ring as it is. */
  lemma {:induction false} KeepOnlyAll(ring: seq<string>, keep: set<string>)
    requires forall b :: b in ring ==> b in keep
    ensures KeepOnly(ring, keep) == ring
    decreases |ring|
  {
    if ring != [] {
      assert ring[0] in ring;
      KeepOnlyAll(ring[1..], keep);
      assert [ring[0]] + ring[1..] == ring;
    }
  }

  /** A filter no branch passes empties the ring. */
  lemma {:induction false} KeepOnlyNone(ring: seq<string>, keep: set<string>)
    requires forall b :: b in ring ==> b !in keep
    ensures KeepOnly(ring, keep) == []
    decreases |ring|
  {
    if ring != [] {
      assert ring[0] in ring;
      KeepOnlyNone(ring[1..], keep);
    }
  }

  /**
   * The filter of `_fix_ring`, `[ref for ref in ring if git.ref_exists(ref)]`.
   * Because `_ref_exists` never looks at the branch, it keeps the whole ring
   * or nothing of it.
   */
  function RefFilter(ring: seq<string>, gitBranchSucceeds: bool): (r: seq<string>)
    ensures r == if gitBranchSucceeds then ring else []
  {
    var keep := set b | b in ring && RefExists(gitBranchSucceeds, b);
    if gitBranchSucceeds then
      KeepOnlyAll(ring, keep);
      KeepOnly(ring, keep)
    else
      KeepOnlyNone(ring, keep);
      KeepOnly(ring, keep)
  }
}
