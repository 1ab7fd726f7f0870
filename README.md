# redditclone stores, modelled in Dafny

This project models the in-memory stores of a small link-aggregation site's
REST back end, written in Go. The site has posts, comments, users and
per-user votes. The model covers four parts:

- the **post store** (`PostsDataRepo`). It holds posts in creation order
  until a listing sorts them in place by score, and hands out their ids. It filters and sorts posts by score. It keeps each
  post's list of votes, its score and its up-vote percentage.
- the **comment store** (`CommentsDataRepo`). It keeps one id counter and one
  ordered list of comments per post.
- the **user store** (`UsersDataRepo`). It maps each login to a user and hands
  out user ids.
- **`Normalize`** from the HTTP layer. It renames each post's `"data":` key
  to `"url":` or `"text":` in the marshalled JSON bytes.

Each store is a Dafny `class` whose fields are the Go struct's fields: a
`seq` for a slice and a `map` for a Go map. Each mutating store method
has `modifies this` and a contract that states the whole new state; the
read-only ones change nothing. A Go
`(value, error)` pair becomes a `Result`. Post records and vote edits are
pure functions in `Posts`, namely `UpVoted`, `DownVoted` and `UnVoted`.
The class methods are proved equal to them. The loops that count votes, scan
for a post or a vote, filter and sort are methods proved against
specification functions or predicates. The functions are `Ups`, `Score`,
`Percentage`, `VoteIndex`, `PostIndex`, `ByCategory`, `ByAuthor`, `Run` and
`After`. Three loops have no such function: `SortByScore` is proved against
the `SortedByScore` predicate and a multiset equality, and the last-match
scans `FindLastPost` and `FindComment` against quantified postconditions.

Files:

- `results.dfy`: error kinds and `Result`.
- `slices.dfy`: the slice compaction (`copy` plus re-slice) and the element
  exchange that sorting uses.
- `user.dfy`: the user store.
- `comment.dfy`: the comment store.
- `post.dfy`: the post and vote records, the counting functions, and the
  vote edits with their lemmas.
- `post_repo.dfy`: the post store.
- `normalize.dfy`: `Normalize`.

In the places below the code's behaviour is easy to misread; the model
follows the code:

- The score counts every vote that is not up as -1. It is computed as
  "up votes minus the other votes", not "up votes minus down votes". No
  stored vote ever has the value 0, so the two never differ on a stored
  list.
- `Read` does not increment a post's view count.
- `Create` keeps the score and percentage the caller passed in. A new post
  therefore agrees with its empty vote list only when both are 0
  (`PostRepo.PostsDataRepo.Create`).
- `UnVote` for a user with no vote reaches a removal at index -1. In Go this
  is a runtime panic. The model returns `ErrIndexOutOfRange` and changes
  nothing. It does not turn this into a "not found" error.
- `Delete` in the post store and in the comment store keeps scanning after a
  match, so it removes the LAST element with that id. `Read` and the vote
  operations stop at the FIRST match. Under the store invariants, ids are
  distinct, so both choices pick the same element.
- The post store's `ErrNoPost` carries the message text "no comment found".
  The model keeps only the error kind.

## Model

| member | source | states |
|---|---|---|
| Slices.RemoveAt | redditclone/pkg/post/repo.go:244-248 | compaction drops exactly the element at `k`: the ones before stay, the ones after move one place forward, the length drops by one, and the multiset loses exactly that element |
| Slices.Swap | redditclone/pkg/post/repo.go:48-50 | the two elements trade places, nothing else moves, and the multiset is unchanged |
| UserRepo.UsersDataRepo.constructor | redditclone/pkg/user/repo.go:21-27 | an empty store with counter 0 that satisfies the store invariant |
| UserRepo.UsersDataRepo.Authorize | redditclone/pkg/user/repo.go:29-44 | unknown login gives ErrNoUser; a known login with a different password gives ErrWrongPassword; success exactly when the login exists and the password matches, returning the stored user |
| UserRepo.UsersDataRepo.CreateUser | redditclone/pkg/user/repo.go:46-64 | the counter moves on every call, refused ones included; a taken login gives ErrAlreadyExist and leaves the map unchanged; otherwise the user is stored under its login with the new id, which exceeds every existing id; the invariant (login keys, ids in range, distinct ids) is preserved |
| UserRepo.UsersDataRepo.Get | redditclone/pkg/user/repo.go:66-75 | success exactly when the login is present, returning the stored user; ErrNoUser otherwise |
| CommentRepo.RemovePreservesIncreasing | redditclone/pkg/comment/repo.go:64-68 | compacting a list with strictly increasing ids keeps them strictly increasing |
| CommentRepo.IncreasingHasUniqueIds | redditclone/pkg/comment/repo.go:29-34 | in a list whose ids increase along the list (as the per-post counter makes them), the removed comment's id occurs nowhere in what remains |
| CommentRepo.RemoveKeepsListValid | redditclone/pkg/comment/repo.go:64-68 | removal keeps a post's list valid, shortens it by one, and the removed id is gone |
| CommentRepo.FindComment | redditclone/pkg/comment/repo.go:52-58 | the scan returns -1 exactly when no comment has the id; otherwise it returns the LAST index with that id |
| CommentRepo.CommentsDataRepo.constructor | redditclone/pkg/comment/repo.go:20-27 | empty counter map and empty comment map |
| CommentRepo.CommentsDataRepo.Create | redditclone/pkg/comment/repo.go:29-38 | the post's counter (zero when absent) goes up by one; the comment gets that id and the time `now` and is appended to the post's list; every other post's counter and list are unchanged; the invariant (per-post lists with increasing ids, all handed out) is preserved |
| CommentRepo.CommentsDataRepo.ReadAll | redditclone/pkg/comment/repo.go:40-43 | the post's list, or the empty list for a post without comments; its ids increase and belong to that post |
| CommentRepo.CommentsDataRepo.List | redditclone/pkg/comment/repo.go:45-48 | the whole map, each list in increasing id order |
| CommentRepo.CommentsDataRepo.Delete | redditclone/pkg/comment/repo.go:50-72 | unknown id gives ErrNoComm with nothing changed; otherwise the list loses exactly one comment with that id (order kept), the id no longer occurs, other posts and all counters are unchanged |
| Posts.Ups | redditclone/pkg/post/repo.go:256-260 | the number of up votes never exceeds the number of votes |
| Posts.UpsConcat | redditclone/pkg/post/repo.go:269-280 | counting up votes distributes over concatenation, by induction |
| Posts.AllUpIffCounted | redditclone/pkg/post/repo.go:254-267 | every vote is up exactly when the up count equals the vote count, by induction |
| Posts.Score | redditclone/pkg/post/repo.go:269-280 | the net score lies in [-n, n] for n votes; it is n exactly when every vote is up and -n exactly when none is |
| Posts.Percentage | redditclone/pkg/post/repo.go:262-266 | 0 without votes, in [0, 100], and 100 exactly when there are votes and all are up (exact floor, see Left out) |
| Posts.PercentageBounds | redditclone/pkg/post/repo.go:254-267 | the percentage is 0 without votes, always in [0, 100], and exactly 100 when there are votes and all are up |
| Posts.UpsUpdate | redditclone/pkg/post/repo.go:138-139 | overwriting one vote changes the up count by the difference between the new and the old vote |
| Posts.UpsRemove | redditclone/pkg/post/repo.go:172-179 | removing one vote takes exactly that vote out of the up count |
| Posts.VoteIndex | redditclone/pkg/post/repo.go:120-126 | the index of the FIRST vote by the user, or -1 exactly when the user has no vote |
| Posts.VoteIndexUnique | redditclone/pkg/post/repo.go:120-126 | with one vote per user, the scan finds that user's only vote |
| Posts.VoteIndexAppendNew | redditclone/pkg/post/repo.go:128-134 | a vote appended for a user who had none is the one the scan finds; one vote per user, and only votes for this post, both still hold |
| Posts.VoteIndexRevote | redditclone/pkg/post/repo.go:138 | changing the direction of the found vote keeps it at the same index and keeps one vote per user and only votes for this post |
| Posts.UpVoted | redditclone/pkg/post/repo.go:128-140 | only votes, score and percentage change; a voter without a vote gains one; no voter is reordered or replaced; other voters' votes are unchanged; the user's vote is up; the percentage matches the votes; one vote per user and only votes for this post are preserved |
| Posts.FirstUpVoteFastPath | redditclone/pkg/post/repo.go:128-136 | the first up vote's `Score++` agrees with a full recount exactly when the score agreed with the votes before the call |
| Posts.RepeatUpVoteRecounts | redditclone/pkg/post/repo.go:137-140 | an up vote by a user who already voted leaves the post consistent whatever its score was before |
| Posts.UpVotePreservesConsistency | redditclone/pkg/post/repo.go:128-140 | an up vote keeps a consistent post consistent on both paths |
| Posts.DownVoted | redditclone/pkg/post/repo.go:209-222 | as for UpVoted but the user's vote is down, and the result is always consistent since both branches recount |
| Posts.UnVoted | redditclone/pkg/post/repo.go:172-179 | the found vote is removed and the others keep their order; the result is consistent; with one vote per user, the user has no vote left |
| Posts.VoteDeltas | redditclone/pkg/post/repo.go:128-222 | an up vote raises the up count by one unless the user's vote was already up; a down vote lowers it by one exactly when the user's vote was up |
| Posts.FirstUpVoteStep | redditclone/pkg/post/repo.go:128-136 | user 1's up vote on a post without votes gives score 1 and 100 percent |
| Posts.SecondUpVoteStep | redditclone/pkg/post/repo.go:128-136 | user 2's up vote after that gives score 2 and 100 percent |
| Posts.DownVoteStep | redditclone/pkg/post/repo.go:218-221 | user 1 turning to down then gives score 0 and 50 percent |
| Posts.UnVoteStep | redditclone/pkg/post/repo.go:164-179 | user 2 withdrawing then leaves the single down vote: score -1 and 0 percent |
| Posts.VotingScenario | redditclone/pkg/post/repo.go:105-227 | the four steps in sequence give scores 1, 2, 0, -1 and percentages 100, 100, 50, 0 |
| PostRepo.SetScore | redditclone/pkg/post/repo.go:269-280 | the loop computes the net score (+1 per up vote, -1 for any other value), which lies in [-n, n] |
| PostRepo.UpVotePer | redditclone/pkg/post/repo.go:254-267 | the loop computes the exact rounded-down percentage (not the `float32` one, see Left out): 0 without votes, in [0, 100], and 100 exactly when all votes are up |
| PostRepo.FindVote | redditclone/pkg/post/repo.go:120-126 | the break loop returns the first vote by the user, or -1 |
| PostRepo.PostIndex | redditclone/pkg/post/repo.go:107-113 | the index of the FIRST post with the id, or -1 exactly when there is none |
| PostRepo.FindPost | redditclone/pkg/post/repo.go:72-79 | the break loop returns the first post with the id, or -1 |
| PostRepo.FindLastPost | redditclone/pkg/post/repo.go:231-237 | the `continue` loop returns -1 exactly when no post has the id, and otherwise the LAST post with it |
| PostRepo.SwapKeepsDistinctIds | redditclone/pkg/post/repo.go:48-50 | exchanging two posts keeps ids distinct |
| PostRepo.RemoveKeepsDistinctIds | redditclone/pkg/post/repo.go:244-248 | compacting keeps ids distinct |
| PostRepo.InsertingSwap | redditclone/pkg/post/repo.go:48-50 | moving the inserted post forward past a lower score keeps the insertion state |
| PostRepo.InsertingDone | redditclone/pkg/post/repo.go:48-50 | an insertion that stops leaves the sorted prefix one longer |
| PostRepo.SortByScore | redditclone/pkg/post/repo.go:48-50 | the result is a permutation of the input in non-increasing score order, and distinct ids stay distinct |
| PostRepo.ByCategory | redditclone/pkg/post/repo.go:56-62 | each post occurs as often as in the store when it has the category and not at all otherwise; the result is no longer than the store |
| PostRepo.ByAuthor | redditclone/pkg/post/repo.go:90-96 | the same, for posts whose author has the login |
| PostRepo.ApplyUpVote | redditclone/pkg/post/repo.go:120-140 | the in-place edit (append plus `Score++`, or overwrite plus recount) yields exactly `UpVoted` |
| PostRepo.ApplyDownVote | redditclone/pkg/post/repo.go:201-222 | the in-place edit yields exactly `DownVoted` |
| PostRepo.ApplyUnVote | redditclone/pkg/post/repo.go:164-179 | without a vote by the user the removal at -1 is out of range; otherwise the edit yields exactly `UnVoted` |
| PostRepo.PostsDataRepo.constructor | redditclone/pkg/post/repo.go:23-29 | empty list, counter 0, invariant and consistency hold |
| PostRepo.PostsDataRepo.Create | redditclone/pkg/post/repo.go:31-42 | the counter goes up by one and is returned; the post is appended with that id, no comments or votes, and time `now`; its id exceeds every stored id; it agrees with its votes exactly when the given score and percentage are 0; the invariant is preserved |
| PostRepo.PostsDataRepo.ReadAll | redditclone/pkg/post/repo.go:44-53 | the store's own list is sorted in place by non-increasing score, as a permutation, and returned; the invariant and consistency are preserved |
| PostRepo.PostsDataRepo.ReadCategory | redditclone/pkg/post/repo.go:55-69 | exactly the posts of the category, with multiplicity, in non-increasing score order; the store is unchanged |
| PostRepo.PostsDataRepo.Read | redditclone/pkg/post/repo.go:71-87 | success exactly when some post has the id, returning the post with that id; ErrNoPost otherwise |
| PostRepo.PostsDataRepo.ReadUser | redditclone/pkg/post/repo.go:89-103 | exactly the posts whose author has the login, with multiplicity, in non-increasing score order |
| PostRepo.PostsDataRepo.UpVote | redditclone/pkg/post/repo.go:105-147 | unknown post gives ErrNoPost with nothing changed; otherwise the first post with the id becomes `UpVoted` of itself and is returned; the invariant (distinct ids, one vote per user, votes naming their post) and all-posts consistency are preserved |
| PostRepo.PostsDataRepo.DownVote | redditclone/pkg/post/repo.go:186-227 | the same, with `DownVoted` |
| PostRepo.PostsDataRepo.UnVote | redditclone/pkg/post/repo.go:149-184 | unknown post gives ErrNoPost; a user without a vote gives ErrIndexOutOfRange; neither changes anything; otherwise the post becomes `UnVoted` of itself; invariant and consistency are preserved |
| PostRepo.PostsDataRepo.Delete | redditclone/pkg/post/repo.go:229-252 | unknown id gives ErrNoPost with nothing changed; otherwise the post is compacted out, the others keep their order, the id no longer occurs and the counter stays |
| Handlers.IndexOf | redditclone/pkg/handlers/data.go:500 | `bytes.Index`: -1 exactly when the pattern does not occur; otherwise an occurrence with none before it |
| Handlers.ReplaceFirst | redditclone/pkg/handlers/data.go:502 | `bytes.Replace(..., 1)`: without an occurrence the buffer is unchanged; otherwise the prefix before the first occurrence and the suffix after it are kept and the pattern is replaced between them |
| Handlers.NextFlag | redditclone/pkg/handlers/data.go:500 | the flag moves to just past the first `"type":"` at or after it, inside the buffer; without one it moves on by 7 |
| Handlers.Step | redditclone/pkg/handlers/data.go:500-505 | one pass panics (ErrIndexOutOfRange) exactly when the new flag is past the end; otherwise it renames the first `"data":` to `"url":` when the byte at the flag is `l` and to `"text":` otherwise |
| Handlers.StepLength | redditclone/pkg/handlers/data.go:502-505 | a pass leaves a buffer without `"data":` unchanged; a `"url":` rename makes it one byte shorter and a `"text":` rename keeps its length |
| Handlers.StepSafe | redditclone/pkg/handlers/data.go:500-501 | a `"type":"` with a byte after it, at or after the flag, makes the pass succeed, and the flag lands no further than just past it |
| Handlers.RunWithoutDataKey | redditclone/pkg/handlers/data.go:499-506 | any number of passes leaves a buffer without `"data":` unchanged, by induction |
| Handlers.RunLength | redditclone/pkg/handlers/data.go:499-506 | n passes shorten the buffer by at most n bytes and never lengthen it, by induction |
| Handlers.Run | redditclone/pkg/handlers/data.go:499-506 | zero passes return the buffer unchanged, and the only way a run of passes fails is the out-of-range read |
| Handlers.MarkerAndKey | redditclone/pkg/handlers/data.go:500-502 | a `"type":"` and a `"data":` never overlap, except that the key may start on the marker's last byte (its closing quote) |
| Handlers.SpliceKeepsMarker | redditclone/pkg/handlers/data.go:502-505 | writing a `"url":` or `"text":` key over a `"data":` keeps every `"type":"`, moved by the change in length when it lies after the key |
| Handlers.MarkerSurvives | redditclone/pkg/handlers/data.go:502-505 | the same for the rename `bytes.Replace` makes, at the first `"data":` |
| Handlers.MovedApart | redditclone/pkg/handlers/data.go:502-505 | two non-overlapping markers in order stay non-overlapping and in order through a rename |
| Handlers.MovedKeepsApart | redditclone/pkg/handlers/data.go:502-505 | a list of markers in order, none overlapping, keeps that shape through a rename |
| Handlers.MovedKeepsMarkers | redditclone/pkg/handlers/data.go:502-505 | every marker in the list is still a marker at its moved position after a rename |
| Handlers.MovedFirst | redditclone/pkg/handlers/data.go:500-503 | a marker at or after the new flag stays at or after it: only a `"url":` rename moves it back, and it needs an `l` at the flag, where no marker can start |
| Handlers.MovedLast | redditclone/pkg/handlers/data.go:502-505 | the last marker keeps a byte after it in the renamed buffer |
| Handlers.RenameKeepsMarkers | redditclone/pkg/handlers/data.go:500-505 | the rename a pass makes keeps the markers ahead of the new flag markers ahead of it, in order, with a byte after the last |
| Handlers.StepKeepsMarkers | redditclone/pkg/handlers/data.go:500-505 | a pass with markers ahead succeeds and leaves the remaining markers ahead of the new flag, one fewer |
| Handlers.RunUnfold | redditclone/pkg/handlers/data.go:499-506 | a run is its first pass followed by the rest, and fails with that pass's error when it fails |
| Handlers.RunSafe | redditclone/pkg/handlers/data.go:499-506 | a buffer with k non-overlapping `"type":"` markers at or after the flag, the last followed by a byte, gets through up to k passes without the out-of-range read, by induction |
| Handlers.RunSafeAfter | redditclone/pkg/handlers/data.go:499-506 | the inductive step of RunSafe: after a successful first pass, the remaining markers carry the rest of the run |
| Handlers.After | redditclone/pkg/handlers/data.go:498-506 | the state after k passes read forwards: a flag inside its buffer, or the out-of-range error |
| Handlers.AfterNext | redditclone/pkg/handlers/data.go:499-506 | the pass after k passes is one step from where they stopped |
| Handlers.AfterThenRun | redditclone/pkg/handlers/data.go:499-506 | reading the loop forwards and backwards agree: after k successful passes of n, the rest of the run is the remaining n - k passes, by induction |
| Handlers.AfterAllRun | redditclone/pkg/handlers/data.go:499-506 | when all n passes succeed, the run yields the buffer they left |
| Handlers.AfterErrRun | redditclone/pkg/handlers/data.go:499-506 | when any of the first n passes fails, the run of n passes fails with its error, by induction |
| Handlers.Pass | redditclone/pkg/handlers/data.go:500-505 | the loop body computes exactly one `Step` |
| Handlers.Passes | redditclone/pkg/handlers/data.go:498-507 | the loop, run n times from flag 0, computes `Run` for n passes, stopping at the first panic |
| Handlers.Normalize | redditclone/pkg/handlers/data.go:497-508 | `Run` for `l` passes from flag 0; for `l <= 0` the buffer is returned unchanged |

## Left out

- Locking: the `sync.RWMutex` in each store is not modelled. Every operation
  is taken as atomic. The Go code has lock defects that the model therefore
  does not show:
  - some paths return without unlocking: `Read` of a missing post,
    `CreateUser` of a taken login, `Delete` of a missing post or comment,
    and the vote operations on a missing post. `UnVote` by a caller without
    a vote panics at post/repo.go:173 or 175 while it holds the read lock
    taken at line 150; the panic middleware recovers, and the lock stays
    held;
  - the vote operations mutate under a read lock;
  - `ReadAll` sorts outside the lock;
  - the comment store's `ReadAll` and `List` read without a lock.
- Integer widths: ids and counters are `nat`. The `uint32` wrap-around after
  2^32 - 1 creations is not modelled. Scores are unbounded `int`.
- PostRepo.UpVotePer: does not model the `float32` arithmetic of
  `int(float32(count) / float32(len) * 100)`. The model uses the exact floor
  of `100 * count / len`. The two differ by one in both directions. Go can
  round down: 53 up votes of 100 give 52 in Go and 53 in the model. Go can
  also round up once `float32` stops holding the vote count exactly: 16777216
  up votes of 16777217 give 100 in Go and 99 in the model. So the law "100
  exactly when every vote is up" holds for the model; for the source it
  holds only below 2^24 votes.
- Posts.Percentage: is the same exact-floor abstraction of the `float32`
  computation, with the same differences in both directions.
- Aliasing: Go stores references (`*Post`, `*Comment`, `*User` and
  `*SingeVote`). The model stores values. So it does not capture:
  - a caller keeping and mutating a returned post;
  - `Create` mutating the caller's record in place;
  - the `ReadCategory`/`ReadUser` results sharing posts with the store.
- `ReadAll` returns the store's own slice. The model returns the sorted
  sequence and stores it. Later aliasing through the returned slice is not
  modelled.
- Sorting: Go's `sort.Slice` algorithm and its order among equal scores are
  not modelled. The contract fixes only the non-increasing order and the
  permutation. An insertion sort stands in for the algorithm.
- The clock: `time.Now()` becomes the `now` parameter of both `Create`
  methods.
- Logging is not modelled.
- The HTTP handlers, JSON marshalling, sessions and JWT, middleware, and
  `main` are not part of this model. Only `Normalize` is modelled, on the
  byte buffer it receives.
- The runtime panics are modelled as the error value `ErrIndexOutOfRange`:
  `UnVote` without a vote by the caller, and `Normalize` reading past the
  buffer. Recovery by the panic middleware is not part of this model.
- The `NoVote` constant (0) is never stored. The model keeps the `vote`
  field an `int`, so any value other than `UpVote` counts as down, as in the
  code.
