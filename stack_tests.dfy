/**
 * The stack's own test suite (the `Test` class of git_branch_stack.py),
 * replayed against the contracts of BranchStack.Stack: each assertion of a
 * source test is an `assert` here, proved from the method contracts alone.
 */
module StackTests {
  import opened Options
  import opened BranchRing
  import opened BranchStack

  method PushPop()
  {
    var s := new Stack();
    s.Push("bob");
    var r := s.Pop();
    assert r == Ok("bob");
    r := s.Pop();
    assert r == Err(NoBranches);
  }

  method PushDoesNotAddDuplicates()
  {
    var s := new Stack();
    s.Push("bob");
    s.Push("bob");
    var r := s.Pop();
    assert r == Ok("bob");
    r := s.Pop();
    assert r == Err(NoBranches);
  }

  method CurrentReportsCorrectPlace()
  {
    var s := new Stack();
    assert s.Current() == None;
    s.Push("aaa");
    assert s.Current() == Some("aaa");
    s.Push("bbb");
    assert s.Current() == Some("bbb");
    var r := s.Pop();
    assert s.Current() == Some("aaa");
    r := s.Pop();
    assert s.Current() == None;
  }

  /** Three pushes from an empty stack: `["aaa", "bbb", "ccc"]`, cursor on "ccc". */
  method ThreeBranches() returns (s: Stack)
    ensures fresh(s) && s.Valid()
    ensures s.ring == ["aaa", "bbb", "ccc"] && s.index == Some(2)
  {
    s := new Stack();
    s.Push("aaa");
    assert s.State() == StackState(["aaa"], Some(0));
    assert "bbb" !in s.ring;
    PushAppends(s.State(), "bbb");
    s.Push("bbb");
    assert s.State() == StackState(["aaa", "bbb"], Some(1));
    assert "ccc" !in s.ring;
    PushAppends(s.State(), "ccc");
    s.Push("ccc");
    assert s.State() == StackState(["aaa", "bbb", "ccc"], Some(2));
  }

  method BackCyclesBackThroughRing()
  {
    var s := ThreeBranches();
    assert s.Current() == Some("ccc");
    var b := s.Back();
    assert b == Some("bbb") && s.Current() == Some("bbb");
    b := s.Back();
    assert b == Some("aaa") && s.Current() == Some("aaa");
    b := s.Back();
    assert b == Some("ccc") && s.Current() == Some("ccc");
  }

  method ForwardCyclesForwardThroughRing()
  {
    var s := ThreeBranches();
    var b := s.Forward();
    assert b == Some("aaa") && s.Current() == Some("aaa");
    b := s.Forward();
    assert b == Some("bbb") && s.Current() == Some("bbb");
    b := s.Forward();
    assert b == Some("ccc") && s.Current() == Some("ccc");
  }

  method JumpingAndPopping()
  {
    var s := ThreeBranches();
    var b := s.Forward();
    assert b == Some("aaa");
    b := s.Forward();
    assert b == Some("bbb") && s.Current() == Some("bbb");
    assert s.index == Some(1);
    var r := s.Pop();
    assert r == Ok("bbb");
    assert s.ring == ["aaa", "ccc"] && s.index == Some(0);
    assert s.Current() == Some("aaa");
    b := s.Back();
    assert b == Some("ccc") && s.Current() == Some("ccc");
    assert s.index == Some(1);
    r := s.Pop();
    assert r == Ok("ccc");
    assert s.ring == ["aaa"] && s.index == Some(0);
    assert s.Current() == Some("aaa");
    PushAppends(s.State(), "ddd");
    s.Push("ddd");
    assert s.Current() == Some("ddd");
    b := s.Forward();
    assert b == Some("aaa");
  }

  method PoppingFromHead()
  {
    var s := ThreeBranches();
    var b := s.Back();
    assert b == Some("bbb");
    b := s.Back();
    assert b == Some("aaa");
    var r := s.Pop();
    assert r == Ok("aaa");
    assert s.ring == ["bbb", "ccc"] && s.Current() == Some("ccc");
  }

  method MoveInEmptyRing()
  {
    var s := new Stack();
    var b := s.Forward();
    assert b == None;
    b := s.Back();
    assert b == None;
  }

  method MoveInSingletonRing()
  {
    var s := new Stack();
    s.Push("aaa");
    var b := s.Forward();
    assert b == Some("aaa");
    b := s.Back();
    assert b == Some("aaa");
  }
}
