/** Posts and votes as values, the counting definitions behind a post's score
    and up-vote percentage, and what one vote operation does to one post. */
module Posts {
  import opened Slices
  import opened UserRepo
  import opened CommentRepo

  const UpVote: int := 1
  const NoVote: int := 0
  const DownVote: int := -1

  /** One user's standing vote on one post. */
  datatype Vote = Vote(postID: nat, userID: nat, vote: int)

  /** A post. `postType` is "text" or "link", and `data` holds the body text
      or the URL accordingly. */
  datatype Post = Post(
    id: nat,
    score: int,
    views: nat,
    postType: string,
    title: string,
    author: User,
    category: string,
    created: string,
    comments: seq<Comment>,
    data: string,
    upvotePercentage: int,
    votes: seq<Vote>)

  /** The number of up votes. */
  function Ups(vs: seq<Vote>): (n: nat)
    ensures n <= |vs|
  {
    if vs == [] then 0
    else Ups(vs[..|vs| - 1]) + (if vs[|vs| - 1].vote == UpVote then 1 else 0)
  }

  /** The net score: an up vote adds one and every other vote subtracts one.
      It reaches the number of votes exactly when every vote is up, and its
      negation exactly when none is. */
  function Score(vs: seq<Vote>): (s: int)
    ensures -|vs| <= s <= |vs|
    ensures s == |vs| <==> Ups(vs) == |vs|
    ensures s == -|vs| <==> Ups(vs) == 0
  {
    Ups(vs) - (|vs| - Ups(vs))
  }

  /** The share of up votes in percent, rounded down; 0 when nobody voted.
      It lies in [0, 100] and is 100 exactly when every vote is up. */
  function Percentage(vs: seq<Vote>): (per: int)
    ensures |vs| == 0 ==> per == 0
    ensures 0 <= per <= 100
    ensures per == 100 <==> 0 < |vs| && Ups(vs) == |vs|
  {
    if |vs| == 0 then 0
    else
      FloorPercent(Ups(vs), |vs|);
      (100 * Ups(vs)) / |vs|
  }

  ghost predicate AllUp(vs: seq<Vote>)
  {
    forall i :: 0 <= i < |vs| ==> vs[i].vote == UpVote
  }

  /** The score and percentage a post carries agree with its votes. */
  ghost predicate Consistent(p: Post)
  {
    p.score == Score(p.votes) && p.upvotePercentage == Percentage(p.votes)
  }

  /** No user holds two votes on the post. */
  ghost predicate UniqueVoters(vs: seq<Vote>)
  {
    forall i, j :: 0 <= i < j < |vs| ==> vs[i].userID != vs[j].userID
  }

  /** Every vote names the post it belongs to. */
  ghost predicate VotesOf(vs: seq<Vote>, postID: nat)
  {
    forall i :: 0 <= i < |vs| ==> vs[i].postID == postID
  }

  /** Counting distributes over concatenation. */
  lemma {:induction false} UpsConcat(a: seq<Vote>, b: seq<Vote>)
    ensures Ups(a + b) == Ups(a) + Ups(b)
    decreases |b|
  {
    if b == [] {
      assert a + b == a;
    } else {
      var b' := b[..|b| - 1];
      assert (a + b)[..|a + b| - 1] == a + b';
      UpsConcat(a, b');
    }
  }

  /** All votes are up exactly when every vote was counted. */
  lemma {:induction false} AllUpIffCounted(vs: seq<Vote>)
    ensures AllUp(vs) <==> Ups(vs) == |vs|
    decreases |vs|
  {
    if vs != [] {
      var init := vs[..|vs| - 1];
      AllUpIffCounted(init);
      if AllUp(vs) {
        assert AllUp(init);
      } else if AllUp(init) {
        assert vs[|vs| - 1].vote != UpVote;
      }
    }
  }

  /** A non-zero multiple of `n` is at least `n` away from zero. */
  lemma MulAwayFromZero(t: int, n: int)
    requires 0 < n
    ensures t >= 1 ==> t * n >= n
    ensures t <= -1 ==> t * n <= -n
  {
    if t >= 1 {
      assert t * n == (t - 1) * n + n;
    } else if t <= -1 {
      assert t * n == (t + 1) * n - n;
    }
  }

  /** Integer division is pinned down by the bracket it falls in. */
  lemma DivUnique(x: int, n: int, q: int)
    requires 0 < n && q * n <= x < q * n + n
    ensures x / n == q
  {
    var d, m := x / n, x % n;
    assert x == d * n + m && 0 <= m < n;
    var t := d - q;
    assert t * n == d * n - q * n;
    MulAwayFromZero(t, n);
  }

  /** Rounding 100 * u / n down stays within [0, 100] and reaches 100 only
      when u == n. */
  lemma FloorPercent(u: nat, n: nat)
    requires 0 < n && u <= n
    ensures 0 <= (100 * u) / n <= 100
    ensures (100 * u) / n == 100 <==> u == n
  {
    var q, m := (100 * u) / n, (100 * u) % n;
    assert 100 * u == q * n + m && 0 <= m < n;
    if u == n {
      DivUnique(100 * u, n, 100);
    }
    assert q >= 100 ==> (q - 100) * n >= 0;
    assert q < 0 ==> (q + 1) * n <= 0;
  }

  /** The percentage is 0 without votes, lies in [0, 100], and is 100
      exactly when there are votes and all of them are up. */
  lemma PercentageBounds(vs: seq<Vote>)
    ensures |vs| == 0 ==> Percentage(vs) == 0
    ensures 0 <= Percentage(vs) <= 100
    ensures Percentage(vs) == 100 <==> |vs| > 0 && AllUp(vs)
  {
    AllUpIffCounted(vs);
  }

  /** A single vote counts one exactly when it is up. */
  lemma UpsSingle(v: Vote)
    ensures Ups([v]) == if v.vote == UpVote then 1 else 0
  {
    assert [v][..0] == [];
  }

  /** Replacing one vote changes the count by that vote's difference. */
  lemma UpsUpdate(vs: seq<Vote>, k: nat, v: Vote)
    requires k < |vs|
    ensures Ups(vs[k := v]) ==
      Ups(vs) - (if vs[k].vote == UpVote then 1 else 0) + (if v.vote == UpVote then 1 else 0)
  {
    var front, back := vs[..k], vs[k + 1..];
    assert vs == (front + [vs[k]]) + back;
    assert vs[k := v] == (front + [v]) + back;
    UpsConcat(front + [vs[k]], back);
    UpsConcat(front, [vs[k]]);
    UpsConcat(front + [v], back);
    UpsConcat(front, [v]);
    UpsSingle(vs[k]);
    UpsSingle(v);
  }

  /** A vote between two runs of votes adds its own count to theirs. */
  lemma UpsSplit(front: seq<Vote>, v: Vote, back: seq<Vote>)
    ensures Ups(front + [v] + back) == Ups(front + back) + (if v.vote == UpVote then 1 else 0)
  {
    UpsConcat(front + [v], back);
    UpsConcat(front, [v]);
    UpsConcat(front, back);
    UpsSingle(v);
  }

  /** Removing one vote takes that vote out of the count. */
  lemma UpsRemove(vs: seq<Vote>, k: nat)
    requires k < |vs|
    ensures Ups(RemoveAt(vs, k)) == Ups(vs) - (if vs[k].vote == UpVote then 1 else 0)
  {
    RemoveAtSplit(vs, k);
    UpsSplit(vs[..k], vs[k], vs[k + 1..]);
  }

  /** The linear scan for a user's vote: the FIRST vote by `userID`, or -1. */
  function VoteIndex(vs: seq<Vote>, userID: nat): (k: int)
    ensures -1 <= k < |vs|
    ensures k < 0 <==> forall i :: 0 <= i < |vs| ==> vs[i].userID != userID
    ensures 0 <= k ==> vs[k].userID == userID
    ensures 0 <= k ==> forall i :: 0 <= i < k ==> vs[i].userID != userID
  {
    if vs == [] then -1
    else if vs[0].userID == userID then 0
    else
      var k := VoteIndex(vs[1..], userID);
      if k < 0 then -1 else k + 1
  }

  /** Under unique voters, the vote found is the only one by that user. */
  lemma VoteIndexUnique(vs: seq<Vote>, userID: nat, i: nat)
    requires UniqueVoters(vs) && i < |vs| && vs[i].userID == userID
    ensures VoteIndex(vs, userID) == i
  {
  }

  /** A vote appended for a user who had none is the one the scan finds, and
      the list keeps one vote per user and only votes for the post. */
  lemma VoteIndexAppendNew(vs: seq<Vote>, v: Vote)
    requires VoteIndex(vs, v.userID) < 0
    ensures VoteIndex(vs + [v], v.userID) == |vs|
    ensures UniqueVoters(vs) ==> UniqueVoters(vs + [v])
    ensures VotesOf(vs, v.postID) ==> VotesOf(vs + [v], v.postID)
  {
    var ws := vs + [v];
    assert ws[|vs|].userID == v.userID;
    if UniqueVoters(vs) {
      forall i, j | 0 <= i < j < |ws|
        ensures ws[i].userID != ws[j].userID
      {
        assert ws[i] == vs[i];
        if j < |vs| {
          assert ws[j] == vs[j];
        }
      }
    }
    if VotesOf(vs, v.postID) {
      forall i | 0 <= i < |ws|
        ensures ws[i].postID == v.postID
      {
        if i < |vs| {
          assert ws[i] == vs[i];
        }
      }
    }
  }

  /** Changing the direction of the vote the scan found keeps it where the
      scan finds it, keeps one vote per user and only votes for the post. */
  lemma VoteIndexRevote(vs: seq<Vote>, userID: nat, x: int, postID: nat)
    requires 0 <= VoteIndex(vs, userID)
    ensures var k := VoteIndex(vs, userID);
      var ws := vs[k := vs[k].(vote := x)];
      && VoteIndex(ws, userID) == k
      && (UniqueVoters(vs) ==> UniqueVoters(ws))
      && (VotesOf(vs, postID) ==> VotesOf(ws, postID))
  {
    var k := VoteIndex(vs, userID);
    var ws := vs[k := vs[k].(vote := x)];
    assert forall i :: 0 <= i < |vs| ==> ws[i].userID == vs[i].userID && ws[i].postID == vs[i].postID;
  }

  /** Every field other than the votes, score and percentage is left alone. */
  ghost predicate SameButVotes(p: Post, r: Post)
  {
    r.(votes := p.votes, score := p.score, upvotePercentage := p.upvotePercentage) == p
  }

  /** UpVote on a found post: a user without a vote gets an up vote appended
      and the score goes up by one without a recount; a user with a vote has
      it turned up and the score is recounted. The percentage is always
      recounted. */
  function UpVoted(p: Post, userID: nat): (r: Post)
    ensures SameButVotes(p, r)
    ensures |r.votes| == |p.votes| + (if VoteIndex(p.votes, userID) < 0 then 1 else 0)
    ensures forall i :: 0 <= i < |p.votes| ==> r.votes[i].userID == p.votes[i].userID
    ensures forall i :: 0 <= i < |p.votes| && p.votes[i].userID != userID ==> r.votes[i] == p.votes[i]
    ensures 0 <= VoteIndex(r.votes, userID) && r.votes[VoteIndex(r.votes, userID)].vote == UpVote
    ensures r.upvotePercentage == Percentage(r.votes)
    ensures UniqueVoters(p.votes) ==> UniqueVoters(r.votes)
    ensures VotesOf(p.votes, p.id) ==> VotesOf(r.votes, p.id)
  {
    var k := VoteIndex(p.votes, userID);
    if k < 0 then
      var vs := p.votes + [Vote(p.id, userID, UpVote)];
      VoteIndexAppendNew(p.votes, Vote(p.id, userID, UpVote));
      p.(votes := vs, score := p.score + 1, upvotePercentage := Percentage(vs))
    else
      var vs := p.votes[k := p.votes[k].(vote := UpVote)];
      VoteIndexRevote(p.votes, userID, UpVote, p.id);
      p.(votes := vs, score := Score(vs), upvotePercentage := Percentage(vs))
  }

  /** The first-vote fast path (`Score++`) agrees with a full recount exactly
      when the score agreed with the votes before the call. */
  lemma FirstUpVoteFastPath(p: Post, userID: nat)
    requires VoteIndex(p.votes, userID) < 0
    ensures UpVoted(p, userID).score == Score(UpVoted(p, userID).votes) <==> p.score == Score(p.votes)
  {
    var vs := p.votes + [Vote(p.id, userID, UpVote)];
    UpsConcat(p.votes, [Vote(p.id, userID, UpVote)]);
    assert Ups([Vote(p.id, userID, UpVote)]) == 1 by {
      assert [Vote(p.id, userID, UpVote)][..0] == [];
    }
  }

  /** A repeated or changed up vote recounts, so it leaves the post
      consistent whatever its score was before. */
  lemma RepeatUpVoteRecounts(p: Post, userID: nat)
    requires 0 <= VoteIndex(p.votes, userID)
    ensures Consistent(UpVoted(p, userID))
  {
  }

  /** UpVote keeps a consistent post consistent. */
  lemma UpVotePreservesConsistency(p: Post, userID: nat)
    requires Consistent(p)
    ensures Consistent(UpVoted(p, userID))
  {
    if VoteIndex(p.votes, userID) < 0 {
      FirstUpVoteFastPath(p, userID);
    }
  }

  /** DownVote on a found post: a user without a vote gets a down vote
      appended, a user with a vote has it turned down; both branches recount
      the score and the percentage. */
  function DownVoted(p: Post, userID: nat): (r: Post)
    ensures SameButVotes(p, r)
    ensures |r.votes| == |p.votes| + (if VoteIndex(p.votes, userID) < 0 then 1 else 0)
    ensures forall i :: 0 <= i < |p.votes| ==> r.votes[i].userID == p.votes[i].userID
    ensures forall i :: 0 <= i < |p.votes| && p.votes[i].userID != userID ==> r.votes[i] == p.votes[i]
    ensures 0 <= VoteIndex(r.votes, userID) && r.votes[VoteIndex(r.votes, userID)].vote == DownVote
    ensures Consistent(r)
    ensures UniqueVoters(p.votes) ==> UniqueVoters(r.votes)
    ensures VotesOf(p.votes, p.id) ==> VotesOf(r.votes, p.id)
  {
    var k := VoteIndex(p.votes, userID);
    if k < 0 then
      var vs := p.votes + [Vote(p.id, userID, DownVote)];
      VoteIndexAppendNew(p.votes, Vote(p.id, userID, DownVote));
      p.(votes := vs, score := Score(vs), upvotePercentage := Percentage(vs))
    else
      var vs := p.votes[k := p.votes[k].(vote := DownVote)];
      VoteIndexRevote(p.votes, userID, DownVote, p.id);
      p.(votes := vs, score := Score(vs), upvotePercentage := Percentage(vs))
  }

  /** UnVote on a found post where the user has a vote: that vote is removed,
      the others keep their order, and both figures are recounted. */
  function UnVoted(p: Post, userID: nat): (r: Post)
    requires 0 <= VoteIndex(p.votes, userID)
    ensures SameButVotes(p, r)
    ensures |r.votes| == |p.votes| - 1
    ensures r.votes == RemoveAt(p.votes, VoteIndex(p.votes, userID))
    ensures Consistent(r)
    ensures UniqueVoters(p.votes) ==> UniqueVoters(r.votes) && VoteIndex(r.votes, userID) < 0
    ensures VotesOf(p.votes, p.id) ==> VotesOf(r.votes, p.id)
  {
    var vs := RemoveAt(p.votes, VoteIndex(p.votes, userID));
    p.(votes := vs, score := Score(vs), upvotePercentage := Percentage(vs))
  }

  /** Up and down votes change the count by exactly the vote changed. */
  lemma VoteDeltas(p: Post, userID: nat)
    ensures var k := VoteIndex(p.votes, userID);
      Ups(UpVoted(p, userID).votes) == Ups(p.votes) + (if k < 0 || p.votes[k].vote != UpVote then 1 else 0)
    ensures var k := VoteIndex(p.votes, userID);
      Ups(DownVoted(p, userID).votes) == Ups(p.votes) - (if 0 <= k && p.votes[k].vote == UpVote then 1 else 0)
  {
    var k := VoteIndex(p.votes, userID);
    if k < 0 {
      UpsConcat(p.votes, [Vote(p.id, userID, UpVote)]);
      UpsConcat(p.votes, [Vote(p.id, userID, DownVote)]);
      assert [Vote(p.id, userID, UpVote)][..0] == [];
      assert [Vote(p.id, userID, DownVote)][..0] == [];
    } else {
      UpsUpdate(p.votes, k, p.votes[k].(vote := UpVote));
      UpsUpdate(p.votes, k, p.votes[k].(vote := DownVote));
    }
  }

  /** The voting scenario, one step at a time: user 1 up-votes a fresh post,
      user 2 up-votes it, user 1 turns to a down-vote, user 2 withdraws. */
  lemma FirstUpVoteStep(p: Post)
    requires p.votes == [] && p.score == 0
    ensures UpVoted(p, 1).votes == [Vote(p.id, 1, UpVote)]
    ensures UpVoted(p, 1).score == 1 && UpVoted(p, 1).upvotePercentage == 100
  {
    var va := Vote(p.id, 1, UpVote);
    assert VoteIndex(p.votes, 1) < 0;
    assert p.votes + [va] == [va];
    UpsSingle(va);
    assert Percentage([va]) == 100;
  }

  lemma SecondUpVoteStep(p: Post)
    requires p.votes == [Vote(p.id, 1, UpVote)] && p.score == 1
    ensures UpVoted(p, 2).votes == [Vote(p.id, 1, UpVote), Vote(p.id, 2, UpVote)]
    ensures UpVoted(p, 2).score == 2 && UpVoted(p, 2).upvotePercentage == 100
  {
    var va, vb := Vote(p.id, 1, UpVote), Vote(p.id, 2, UpVote);
    assert VoteIndex(p.votes, 2) < 0;
    UpsConcat([va], [vb]);
    UpsSingle(va);
    UpsSingle(vb);
  }

  lemma DownVoteStep(p: Post)
    requires p.votes == [Vote(p.id, 1, UpVote), Vote(p.id, 2, UpVote)]
    ensures DownVoted(p, 1).votes == [Vote(p.id, 1, DownVote), Vote(p.id, 2, UpVote)]
    ensures DownVoted(p, 1).score == 0 && DownVoted(p, 1).upvotePercentage == 50
  {
    var da, vb := Vote(p.id, 1, DownVote), Vote(p.id, 2, UpVote);
    assert VoteIndex(p.votes, 1) == 0;
    UpsConcat([da], [vb]);
    UpsSingle(da);
    UpsSingle(vb);
    assert Ups([da, vb]) == 1;
  }

  lemma UnVoteStep(p: Post)
    requires p.votes == [Vote(p.id, 1, DownVote), Vote(p.id, 2, UpVote)]
    ensures VoteIndex(p.votes, 2) == 1
    ensures UnVoted(p, 2).votes == [Vote(p.id, 1, DownVote)]
    ensures UnVoted(p, 2).score == -1 && UnVoted(p, 2).upvotePercentage == 0
  {
    var da := Vote(p.id, 1, DownVote);
    assert VoteIndex(p.votes, 2) == 1;
    assert RemoveAt(p.votes, 1) == [da];
    UpsSingle(da);
  }

  /** The whole scenario: scores 1, 2, 0, -1 and percentages 100, 100, 50, 0. */
  lemma VotingScenario(p: Post)
    requires p.votes == [] && p.score == 0
    ensures var p1 := UpVoted(p, 1); var p2 := UpVoted(p1, 2); var p3 := DownVoted(p2, 1);
      && p1.score == 1 && p1.upvotePercentage == 100
      && p2.score == 2 && p2.upvotePercentage == 100
      && p3.score == 0 && p3.upvotePercentage == 50
      && 0 <= VoteIndex(p3.votes, 2)
      && UnVoted(p3, 2).score == -1 && UnVoted(p3, 2).upvotePercentage == 0
  {
    FirstUpVoteStep(p);
    var p1 := UpVoted(p, 1);
    SecondUpVoteStep(p1);
    var p2 := UpVoted(p1, 2);
    DownVoteStep(p2);
    UnVoteStep(DownVoted(p2, 1));
  }
}
