# Branch stack of git_tools, in Dafny

`git_branch_stack.py` keeps, for each repository, a **ring of branches**. This
is an ordered list of branch names plus a cursor (`position`). The `push`,
`pop`, `next`, `prev`, `ring` and `clean` commands move around this ring.
This project models the ring and the pure helpers beside it:

- `BranchRing` (branch_ring.dfy) treats the stack entry as a value,
  `StackState(ring, index)`. Each operation of `Stack` is a function from the
  old entry to the new one: `Push`, `Pop`, `Current`, `Forward` and `Back`.
  The module also holds the order-preserving filter `KeepOnly` used by
  `_fix_ring` and `remove_missing_branches`. The lemmas about these
  functions state what the source promises: no duplicates, push then pop
  round-trips, cyclic navigation, and pop choosing the previous branch.
- `BranchStack` (branch_stack.dfy) is the `Stack` class updated in place. It
  has the fields `ring: seq<string>` and `index: Option<nat>`. Each method's
  `ensures` ties the new state to the matching `BranchRing` function.
  `FixRing` and `RemoveMissingBranches` model `_fix_ring` and the body of
  `remove_missing_branches`.
- `GitStatus` (git_status.dfy) covers the pure part of `Git.status_for`. It
  counts the `<` and `>` lines of `git rev-list --left-right` and renders
  them as `<b>a` or `=`. `ParseStatus` reads a rendering back. Lemmas
  prove that the rendering loses neither count and that the parser accepts
  nothing but renderings.
- `StackTests` (stack_tests.dfy) replays the file's own `Test` suite against
  the class contracts.

The model reflects a few facts about the source:

- The cursor is a `nat`, because every write in the source stores a
  non-negative value.
- A missing cursor implies an empty ring (`Valid`).
- The cursor can point past the end of the ring. The filters shrink the ring
  and leave the cursor alone. In that state `current()` gives `None` and
  `pop()` raises `IndexError`, which the model returns as
  `Err(IndexOutOfRange)`.
- Python's `%` with a positive divisor is never negative. Dafny's `%` behaves
  the same way, so the model writes `(i - 1) % n` directly.
- `Git._ref_exists` runs `git branch` without using the branch name. The
  filter in `_fix_ring` therefore keeps either the whole ring or none of it
  (`RefFilter`).

Git commands, the stack file and the terminal are parameters of the model or
are left out (see below). The repository's fleet-reconciliation tooling
(clone/fetch, hook linking, remote rewrite) is not part of this model.

## Model

| member | source | states |
|---|---|---|
| BranchRing.IndexOf | git_branch_stack.py:170-171 | `ring.index(branch)`: a position holding the branch, with no earlier position holding it |
| BranchRing.Insert | git_branch_stack.py:174 | `list.insert` grows the list by one and puts the branch at `min(k, len)`; removing it again gives back the original list |
| BranchRing.RemoveAt | git_branch_stack.py:184 | `del ring[i]` shortens the ring by one; elements before `i` stay in place and later ones shift down by one |
| BranchRing.Wrap | git_branch_stack.py:187 | Python `%` with a positive divisor gives the number in `[0, n)` that is congruent to `x` modulo `n`. So `-1` wraps to `n-1`, `n` wraps to `0`, and values already in range are kept |
| BranchRing.Push | git_branch_stack.py:169-175 | after a push the stack is valid, the cursor is in range, and the pushed branch is under it (corrected cursor, see Findings) |
| BranchRing.PushAsWritten | git_branch_stack.py:169-175 | the source's push produces the same ring as the corrected push; only the cursor can differ |
| BranchRing.Current | git_branch_stack.py:194-199 | `current()` gives a branch exactly when the cursor is within the ring, and that branch is `ring[index]` |
| BranchRing.Pop | git_branch_stack.py:178-192 | pop fails exactly when the cursor is missing (`NoBranches`) or past the end (`IndexOutOfRange`); otherwise it returns `ring[index]`, removes that element, and leaves a cursor in range, or none when the ring is empty |
| BranchRing.Forward | git_branch_stack.py:210-217 | forward leaves the ring untouched; on an empty ring it returns `None` and changes nothing; otherwise the cursor lands in range and the returned branch is the new current one |
| BranchRing.Back | git_branch_stack.py:201-208 | the same guarantees for back |
| BranchRing.ForwardTimes | git_branch_stack.py:210-217 | repeated forward calls never change the ring |
| BranchRing.KeepOnly | git_branch_stack.py:389-390 | the filter keeps exactly the ring's branches that are in the keep set, and never makes the ring longer |
| BranchRing.PushedSlotIsFirst | git_branch_stack.py:172-175 | a newly pushed branch is found by `ring.index` exactly at the new cursor |
| BranchRing.PushIdempotent | git_branch_stack.py:169-175 | pushing the same branch twice gives the same stack as pushing it once (test at lines 438-446) |
| BranchRing.PushNew | git_branch_stack.py:172-175 | pushing a new branch adds exactly that branch to the multiset. Removing it at the cursor gives back the old ring. It lands at 0 when there was no cursor, and right after an in-range cursor (test at lines 448-453) |
| BranchRing.PushAppends | git_branch_stack.py:172-175 | with the cursor on the last branch, a new branch is appended and becomes current |
| BranchRing.PushMembers | git_branch_stack.py:169-175 | the branches on the ring after a push are exactly the old ones plus the pushed branch |
| BranchRing.PushKeepsNoDup | git_branch_stack.py:169-175 | push never introduces a duplicate branch |
| BranchRing.PushPopRoundTrip | git_branch_stack.py:169-192 | pushing a new branch and then popping returns that branch and restores the exact previous stack (test at lines 429-431) |
| BranchRing.PushAsWrittenAgrees | git_branch_stack.py:172-175 | the source's push equals the corrected push exactly when the branch is already on the ring or `index + 1 <= len(ring)` |
| BranchRing.PushAsWrittenLosesCurrent | git_branch_stack.py:172-175 | otherwise `current()` is `None` after the source's push, but is the pushed branch after the corrected push |
| BranchRing.PushAsWrittenExample | git_branch_stack.py:172-175 | ring `["a"]` with cursor 1, push `"x"`: the source gives ring `["a","x"]`, cursor 2, and no current branch |
| BranchRing.PushAsWrittenAfterEmptiedRing | git_branch_stack.py:250-260 | `_fix_ring` after a failed `git branch`: the filter leaves an empty ring under cursor 0, and the source's push of `"main"` gives cursor 1 and no current branch, while the corrected push makes `"main"` current |
| BranchRing.PopRemovesExactly | git_branch_stack.py:183-184 | pop removes exactly one copy of the returned branch: the old ring's multiset is the new one's plus that branch |
| BranchRing.PopKeepsNoDup | git_branch_stack.py:183-184 | on a ring without duplicates the popped branch is gone afterwards and no duplicate appears |
| BranchRing.PopSelectsPredecessor | git_branch_stack.py:186-189 | after pop the current branch is the one before the popped branch, wrapping to the last branch when the head is popped; popping the only branch clears the cursor (tests at lines 502-509, 515-523) |
| BranchRing.ForwardBackInverse | git_branch_stack.py:201-217 | with the cursor in range, back undoes forward and forward undoes back |
| BranchRing.ForwardTimesIndex | git_branch_stack.py:210-217 | `n <= len(ring)` forward calls from cursor `i` land on `i + n`, wrapped once |
| BranchRing.ForwardCycle | git_branch_stack.py:210-217 | `len(ring)` forward calls return to the starting state (test at lines 475-489) |
| BranchRing.KeepOnlyIsSubsequence | git_branch_stack.py:389-390 | the filtered ring is a subsequence of the ring, so the order is kept |
| BranchRing.KeepOnlyKeepsNoDup | git_branch_stack.py:389-390 | filtering never introduces duplicates |
| BranchRing.KeepOnlyAll | git_branch_stack.py:255 | a filter that every branch passes returns the ring unchanged |
| BranchRing.KeepOnlyNone | git_branch_stack.py:255 | a filter that no branch passes empties the ring |
| BranchRing.RefExists | git_branch_stack.py:91-97 | `ref_exists(branch)` is true exactly when `git branch` succeeds, whatever the branch name, because `_ref_exists` never passes its argument to git |
| BranchRing.RefFilter | git_branch_stack.py:255 | the `_fix_ring` filter returns the whole ring when `git branch` succeeds and nothing otherwise, because `_ref_exists` (lines 95-97) ignores its argument |
| BranchStack.Stack.constructor | git_branch_stack.py:124-125 | a repository seen for the first time gets an empty ring and no position |
| BranchStack.Stack.IsEmpty | git_branch_stack.py:128-129 | an empty stack has no current branch; a valid stack that is not empty has a cursor |
| BranchStack.Stack.Current | git_branch_stack.py:194-199 | `current()` gives a branch exactly when the cursor is within the ring, and that branch is `ring[index]` |
| BranchStack.Stack.Push | git_branch_stack.py:169-176 | the new state is `BranchRing.Push` of the old one. The pushed branch is current. A known branch leaves the ring unchanged. No branch other than the pushed one is added, and no duplicate is introduced |
| BranchStack.Stack.Pop | git_branch_stack.py:178-192 | the result and new state are `BranchRing.Pop` of the old state; on an error nothing changes; the returned branch was `ring[index]` |
| BranchStack.Stack.Back | git_branch_stack.py:201-208 | the new state and the result are `BranchRing.Back` of the old state; the ring is untouched and the result is the new current branch |
| BranchStack.Stack.Forward | git_branch_stack.py:210-217 | the same for `BranchRing.Forward` |
| BranchStack.FixRing | git_branch_stack.py:250-260 | afterwards the checked-out branch is current (corrected push, see Findings). The ring is unchanged if it already was current, otherwise the branch is pushed. When `git branch` fails the ring becomes just that branch. No duplicate and no unknown branch is introduced |
| BranchStack.RemoveMissingBranches | git_branch_stack.py:386-392 | afterwards the checked-out branch is current (corrected push, see Findings). When `git branch` succeeds, the new state is `KeepOnly` of the old ring with the branches git lists, followed by the `_fix_ring` step. So every old branch that git lists stays on the ring, in its order. Every other branch left on the ring was on it before and is listed by git. No duplicate is introduced |
| GitStatus.CountMarked | git_branch_stack.py:68-70 | the count of lines starting with the mark is at most the number of lines. It is zero exactly when no line starts with the mark, and equals the number of lines exactly when every line does |
| GitStatus.CountMarkedAppend | git_branch_stack.py:68-70 | the count over two runs of lines is the sum of their counts |
| GitStatus.CountMarkedOne | git_branch_stack.py:68-70 | a single line counts 1 when it starts with the mark and 0 otherwise, so with CountMarkedAppend the count is the number of marked lines |
| GitStatus.Decimal | git_branch_stack.py:72-73 | `"%s" % n` is a non-empty string of digits without a leading zero |
| GitStatus.DecimalRoundTrip | git_branch_stack.py:72-73 | reading the digits back gives `n` |
| GitStatus.StatusText | git_branch_stack.py:72-76 | the rendering is `"="` exactly when both counts are zero. `<` appears exactly when the branch is behind, and then the rendering starts with `<` and the behind count. `>` appears exactly when it is ahead, and then the rendering ends with `>` and the ahead count |
| GitStatus.StatusFor | git_branch_stack.py:66-76 | `status_for` is `"="` exactly when no rev-list line is marked `<` or `>` |
| GitStatus.StatusRoundTrip | git_branch_stack.py:72-76 | parsing a rendered status gives back both counts |
| GitStatus.ParseStatusSound | git_branch_stack.py:72-76 | every string the parser accepts is exactly the rendering of the counts it reads, so rendering and parsing are inverse in both directions |
| GitStatus.StatusTextInjective | git_branch_stack.py:72-76 | different behind/ahead counts never render the same |
| GitStatus.CountsWithinLines | git_branch_stack.py:68-70 | behind lines plus ahead lines is at most the number of rev-list lines |

## Left out

- Reading and writing the stack file is left out as file I/O. This covers `load`, `dump`, `Stack.save`, the file reading in `Stack.__init__` and the YAML/JSON fallback. The constructor models only the fresh entry for a new repository root.
- The `Git` methods that run git are not modelled: `root`, `branches`, `remotes_for_local_branches`, `statuses`, `current_branch` and `checkout`. Their results become parameters instead: the set of branches git lists, the checked-out branch, and the `rev-list` output lines. `ref_exists` is modelled (`RefExists`), with the outcome of its `git branch` command as a parameter.
- The command functions `push`, `pop`, `next_branch`, `prev_branch`, `_prepare` and `_cleanup` are left out. They interleave ring updates with `git checkout` and printing. The ring operations they call are modelled.
- `print_ring` and `Stack.print_ring` are left out as terminal I/O: the coloured listing, the timed `select` on stdin and the response regex. So are `opts`, config-directory creation and the `Test` runner. The test bodies are replayed in `StackTests`.
- BranchStack.RemoveMissingBranches: does not model the `_prepare` call that `remove_missing_branches` makes first, or the `print_ring` after it.
- Negative positions, which only a hand-edited stack file could contain, are not modelled. Python would index from the end of the ring. The cursor is a `nat`.
- A stack file with a non-empty ring and no position is not modelled. Python raises `TypeError` in `current`, `back` and `forward` on such a file. These operations require `Valid()`.
- `is_empty`'s `ring is None` case is not modelled: the ring is always a sequence here.

## Findings

| source | as written | input that shows it | evidently intended | confidence | as-written member | corrected member |
|---|---|---|---|---|---|---|
| git_branch_stack.py:172-175 | pushing a new branch sets the cursor to `index + 1`, but `list.insert` puts the branch at the end when `index + 1 > len(ring)` | ring `["a"]` with position 1, as left by `remove_missing_branches` dropping the branch under the cursor; `push("x")` gives ring `["a", "x"]`, position 2, and `current()` is `None`. A second trigger is `_fix_ring` (lines 250-260) after a failed `git branch`: ring `[]` with position 0, and pushing `"main"` gives position 1, so the branch `_fix_ring` meant to make current is not | the cursor follows the inserted branch: `min(index + 1, len(ring))` | not executed; high | BranchRing.PushAsWritten (BranchRing.PushAsWrittenExample, BranchRing.PushAsWrittenAfterEmptiedRing, BranchRing.PushAsWrittenLosesCurrent) | BranchRing.Push (used by BranchStack.Stack.Push; BranchRing.PushAsWrittenAgrees shows both agree whenever the cursor is in range) |
