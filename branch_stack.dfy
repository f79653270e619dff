/**
 * The `Stack` object of git_branch_stack.py: the branch ring of the current
 * repository, updated in place. Saving the stack file after each change is
 * not part of this model. Every method is proved against the matching
 * function of module BranchRing, where the properties of the ring live.
 */
module BranchStack {
  import opened Options
  import BranchRing

  class Stack {
    /** The branch names, in ring order. */
    var ring: seq<string>
    /** The cursor (`position` in the stack file). */
    var index: Option<nat>

    /** The stack entry as a value. */
    function State(): BranchRing.StackState
      reads this
    {
      BranchRing.StackState(ring, index)
    }

    predicate Valid()
      reads this
    {
      BranchRing.Valid(State())
    }

    /** The entry created for a repository seen for the first time. */
    constructor ()
      ensures Valid() && ring == [] && index == None
    {
      ring := [];
      index := None;
    }

    /**
     * `Stack.is_empty`: no branch on the ring. An empty stack has no current
     * branch, and a valid stack that is not empty has a cursor.
     */
    predicate IsEmpty()
      reads this
      ensures IsEmpty() && Valid() ==> Current() == None
      ensures !IsEmpty() && Valid() ==> index.Some?
    {
      |ring| == 0
    }

    /** `Stack.current`: the branch under the cursor, if the cursor is on one. */
    function Current(): (c: Option<string>)
      reads this
      requires Valid()
      ensures c.Some? <==> index.Some? && index.value < |ring|
      ensures c.Some? ==> c.value == ring[index.value]
    {
      BranchRing.Current(State())
    }

    /**
     * `Stack.push`: a branch already on the ring becomes current; a new one
     * is inserted after the cursor and becomes current.
     */
    method Push(branch: string)
      modifies this
      ensures State() == BranchRing.Push(old(State()), branch)
      ensures Valid() && Current() == Some(branch)
      ensures old(branch in ring) ==> ring == old(ring)
      ensures forall b :: b in ring <==> b == branch || b in old(ring)
      ensures BranchRing.NoDup(old(ring)) ==> BranchRing.NoDup(ring)
    {
      ghost var before := State();
      if branch in ring {
        index := Some(BranchRing.IndexOf(ring, branch));
      } else {
        var slot := if index.Some? then index.value + 1 else 0;
        // list.insert puts a slot past the end at the end; the cursor
        // follows the branch there
        if slot > |ring| {
          slot := |ring|;
        }
        ring := ring[..slot] + [branch] + ring[slot..];
        index := Some(slot);
      }
      assert State() == BranchRing.Push(before, branch);
      BranchRing.PushMembers(before, branch);
      if BranchRing.NoDup(before.ring) {
        BranchRing.PushKeepsNoDup(before, branch);
      }
    }

    /**
     * `Stack.pop`: remove and return the current branch, stepping the cursor
     * back cyclically. With no cursor the source exits; with a cursor past
     * the end the list access raises. Either way nothing changes.
     */
    method Pop() returns (r: Result<string, BranchRing.PopError>)
      modifies this
      ensures var p := BranchRing.Pop(old(State()));
        if p.Ok? then r == Ok(p.value.0) && State() == p.value.1
        else r == Err(p.error) && ring == old(ring) && index == old(index)
      ensures r.Ok? ==> old(BranchRing.InRange(State())) && r.value == old(ring[index.value])
      ensures Valid() == (old(Valid()) || r.Ok?)
    {
      if index.None? {
        return Err(BranchRing.NoBranches);
      }
      var i := index.value;
      if i >= |ring| {
        return Err(BranchRing.IndexOutOfRange);
      }
      var out := ring[i];
      ring := ring[..i] + ring[i + 1..];
      if |ring| > 0 {
        index := Some((i - 1) % |ring|);
      } else {
        index := None;
      }
      r := Ok(out);
    }

    /** `Stack.back`: step the cursor back cyclically; nothing on an empty ring. */
    method Back() returns (b: Option<string>)
      requires Valid()
      modifies this
      ensures (State(), b) == BranchRing.Back(old(State()))
      ensures ring == old(ring) && Valid()
      ensures b == if ring == [] then None else Current()
    {
      if |ring| == 0 {
        return None;
      }
      var newIndex := (index.value - 1) % |ring|;
      index := Some(newIndex);
      b := Some(ring[newIndex]);
    }

    /** `Stack.forward`: advance the cursor cyclically; nothing on an empty ring. */
    method Forward() returns (b: Option<string>)
      requires Valid()
      modifies this
      ensures (State(), b) == BranchRing.Forward(old(State()))
      ensures ring == old(ring) && Valid()
      ensures b == if ring == [] then None else Current()
    {
      if |ring| == 0 {
        return None;
      }
      var newIndex := (index.value + 1) % |ring|;
      index := Some(newIndex);
      b := Some(ring[newIndex]);
    }
  }

  /**
   * `_fix_ring`: drop the ring's branches that `ref_exists` rejects, then make
   * the checked-out branch current by pushing it unless it already was.
   */
  method FixRing(stack: Stack, branch: string, gitBranchSucceeds: bool)
    requires stack.Valid()
    modifies stack
    ensures stack.Valid() && stack.Current() == Some(branch)
    ensures gitBranchSucceeds ==>
      stack.State() == if old(stack.Current()) == Some(branch) then old(stack.State())
                       else BranchRing.Push(old(stack.State()), branch)
    ensures !gitBranchSucceeds ==> stack.ring == [branch]
    ensures forall b :: b in stack.ring ==> b == branch || b in old(stack.ring)
    ensures BranchRing.NoDup(old(stack.ring)) ==> BranchRing.NoDup(stack.ring)
  {
    var expected := stack.Current();
    stack.ring := BranchRing.RefFilter(stack.ring, gitBranchSucceeds);
    if stack.IsEmpty() || Some(branch) != expected {
      stack.Push(branch);
    } else {
      assert stack.State() == old(stack.State());
    }
  }

  /**
   * `remove_missing_branches` after its initial `_prepare`: keep only the
   * ring's branches that git still lists, then fix the ring for the
   * checked-out branch.
   */
  method RemoveMissingBranches(stack: Stack, branches: set<string>, branch: string, gitBranchSucceeds: bool)
    requires stack.Valid()
    modifies stack
    ensures stack.Valid() && stack.Current() == Some(branch)
    ensures var kept := BranchRing.StackState(
                BranchRing.KeepOnly(old(stack.ring), (set b | b in old(stack.ring)) * branches), old(stack.index));
      gitBranchSucceeds ==>
        stack.State() == if BranchRing.Current(kept) == Some(branch) then kept else BranchRing.Push(kept, branch)
    ensures gitBranchSucceeds ==> forall b :: b in old(stack.ring) && b in branches ==> b in stack.ring
    ensures !gitBranchSucceeds ==> stack.ring == [branch]
    ensures forall b :: b in stack.ring ==> b == branch || (b in old(stack.ring) && b in branches)
    ensures BranchRing.NoDup(old(stack.ring)) ==> BranchRing.NoDup(stack.ring)
  {
    var validBranches := (set b | b in stack.ring) * branches;
    if BranchRing.NoDup(stack.ring) {
      BranchRing.KeepOnlyKeepsNoDup(stack.ring, validBranches);
    }
    stack.ring := BranchRing.KeepOnly(stack.ring, validBranches);
    FixRing(stack, branch, gitBranchSucceeds);
  }
}
