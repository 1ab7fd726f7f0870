/** The post store: the posts in creation order (until a listing sorts them),
    the id counter, and the vote operations that edit a post's votes in place. */
module PostRepo {
  import opened Results
  import opened Slices
  import opened UserRepo
  import opened Posts

  /** `SetScore`: one pass over the votes, +1 for an up vote and -1 for any
      other value. */
  method SetScore(votes: seq<Vote>) returns (count: int)
    ensures count == Score(votes)
    ensures -|votes| <= count <= |votes|
  {
    count := 0;
    ghost var ups := 0;
    var i := 0;
    while i < |votes|
      invariant 0 <= i <= |votes|
      invariant ups == Ups(votes[..i])
      invariant count == ups - (i - ups)
    {
      assert votes[..i + 1][..i] == votes[..i];
      if votes[i].vote == UpVote {
        count := count + 1;
        ups := ups + 1;
      } else {
        count := count - 1;
      }
      i := i + 1;
    }
    assert votes[..i] == votes;
  }

  /** `UpVotePer`: counts the up votes, then gives 0 for no votes and the
      rounded-down share of up votes in percent otherwise. */
  method UpVotePer(votes: seq<Vote>) returns (per: int)
    ensures per == Percentage(votes)
    ensures |votes| == 0 ==> per == 0
    ensures 0 <= per <= 100
    ensures per == 100 <==> |votes| > 0 && AllUp(votes)
  {
    var count := 0;
    var i := 0;
    while i < |votes|
      invariant 0 <= i <= |votes|
      invariant count == Ups(votes[..i])
    {
      assert votes[..i + 1][..i] == votes[..i];
      if votes[i].vote == UpVote {
        count := count + 1;
      }
      i := i + 1;
    }
    assert votes[..i] == votes;
    PercentageBounds(votes);
    if |votes| == 0 {
      return 0;
    }
    per := (100 * count) / |votes|;
  }

  /** The scan for a user's vote, stopping at the first match. */
  method FindVote(votes: seq<Vote>, userID: nat) returns (voteIdx: int)
    ensures voteIdx == VoteIndex(votes, userID)
  {
    voteIdx := -1;
    var idx := 0;
    while idx < |votes|
      invariant 0 <= idx <= |votes|
      invariant forall i :: 0 <= i < idx ==> votes[i].userID != userID
    {
      if votes[idx].userID == userID {
        voteIdx := idx;
        break;
      }
      idx := idx + 1;
    }
  }

  /** The position of the FIRST post with that id, or -1. The Go code
      writes this scan over posts (keyed by post id) separately from the
      scan over a post's votes (keyed by user id, `Posts.VoteIndex`), so
      the model keeps them as two specification functions as well. */
  function PostIndex(s: seq<Post>, id: nat): (k: int)
    ensures -1 <= k < |s|
    ensures k < 0 <==> forall i :: 0 <= i < |s| ==> s[i].id != id
    ensures 0 <= k ==> s[k].id == id
    ensures 0 <= k ==> forall i :: 0 <= i < k ==> s[i].id != id
  {
    if s == [] then -1
    else if s[0].id == id then 0
    else
      var k := PostIndex(s[1..], id);
      if k < 0 then -1 else k + 1
  }

  /** The scan of Read and of the vote operations, which stops at the first
      match. */
  method FindPost(s: seq<Post>, id: nat) returns (detect: int)
    ensures detect == PostIndex(s, id)
  {
    detect := -1;
    var idx := 0;
    while idx < |s|
      invariant 0 <= idx <= |s|
      invariant forall i :: 0 <= i < idx ==> s[i].id != id
    {
      if s[idx].id == id {
        detect := idx;
        break;
      }
      idx := idx + 1;
    }
  }

  /** The scan of Delete, which goes on after a match and so settles on the
      LAST post with that id, or -1. */
  method FindLastPost(s: seq<Post>, id: nat) returns (detect: int)
    ensures -1 <= detect < |s|
    ensures detect < 0 <==> forall i :: 0 <= i < |s| ==> s[i].id != id
    ensures 0 <= detect ==> s[detect].id == id
    ensures 0 <= detect ==> forall i :: detect < i < |s| ==> s[i].id != id
  {
    detect := -1;
    var idx := 0;
    while idx < |s|
      invariant 0 <= idx <= |s|
      invariant -1 <= detect < idx
      invariant detect < 0 ==> forall i :: 0 <= i < idx ==> s[i].id != id
      invariant 0 <= detect ==> s[detect].id == id
      invariant 0 <= detect ==> forall i :: detect < i < idx ==> s[i].id != id
    {
      if s[idx].id == id {
        detect := idx;
      }
      idx := idx + 1;
    }
  }

  /** No two posts share an id. */
  ghost predicate DistinctIds(s: seq<Post>)
  {
    forall i, j :: 0 <= i < |s| && 0 <= j < |s| && i != j ==> s[i].id != s[j].id
  }

  /** Non-increasing score; nothing is said about the order of equal scores. */
  ghost predicate SortedByScore(s: seq<Post>)
  {
    forall i, j :: 0 <= i < j < |s| ==> s[i].score >= s[j].score
  }

  /** Exchanging two posts keeps the ids distinct. */
  lemma SwapKeepsDistinctIds(s: seq<Post>, i: nat, j: nat)
    requires i < |s| && j < |s| && DistinctIds(s)
    ensures DistinctIds(Swap(s, i, j))
  {
    var r := Swap(s, i, j);
    forall a, b | 0 <= a < |r| && 0 <= b < |r| && a != b
      ensures r[a].id != r[b].id
    {
      var a' := if a == i then j else if a == j then i else a;
      var b' := if b == i then j else if b == j then i else b;
      assert r[a] == s[a'] && r[b] == s[b'];
    }
  }

  /** Compacting keeps the ids distinct. */
  lemma RemoveKeepsDistinctIds(s: seq<Post>, k: nat)
    requires k < |s| && DistinctIds(s)
    ensures DistinctIds(RemoveAt(s, k))
  {
    var r := RemoveAt(s, k);
    forall a, b | 0 <= a < |r| && 0 <= b < |r| && a != b
      ensures r[a].id != r[b].id
    {
      var a' := if a < k then a else a + 1;
      var b' := if b < k then b else b + 1;
      assert r[a] == s[a'] && r[b] == s[b'];
    }
  }

  /** The first `i + 1` posts are in order once the post at `j` is left out,
      and that post outscores every post after it up to `i`: the state of
      the insertion of `r[i]`. */
  ghost predicate Inserting(r: seq<Post>, i: nat, j: nat)
    requires j <= i < |r|
  {
    && (forall a, b :: 0 <= a < b <= i && a != j && b != j ==> r[a].score >= r[b].score)
    && (forall b :: j < b <= i ==> r[j].score > r[b].score)
  }

  /** Moving the inserted post one place to the front keeps the insertion
      state. */
  lemma InsertingSwap(r: seq<Post>, i: nat, j: nat)
    requires 0 < j <= i < |r| && Inserting(r, i, j) && r[j - 1].score < r[j].score
    ensures Inserting(Swap(r, j - 1, j), i, j - 1)
  {
    var t := Swap(r, j - 1, j);
    assert t[j - 1] == r[j] && t[j] == r[j - 1];
    assert forall a :: 0 <= a <= i && a != j - 1 && a != j ==> t[a] == r[a];
  }

  /** An insertion that stops is complete: the first `i + 1` posts are in
      order. */
  lemma InsertingDone(r: seq<Post>, i: nat, j: nat)
    requires j <= i < |r| && Inserting(r, i, j)
    requires j == 0 || r[j - 1].score >= r[j].score
    ensures forall a, b :: 0 <= a < b <= i ==> r[a].score >= r[b].score
  {
  }

  /** `sort.Slice` with "greater score first": the result is a permutation
      of the input in non-increasing score order. An insertion sort by
      adjacent exchanges stands in for Go's algorithm; the order of equal
      scores is not part of the contract. */
  method SortByScore(s: seq<Post>) returns (r: seq<Post>)
    ensures SortedByScore(r)
    ensures multiset(r) == multiset(s)
    ensures DistinctIds(s) ==> DistinctIds(r)
  {
    r := s;
    var i := 0;
    while i < |r|
      invariant |r| == |s|
      invariant 0 <= i <= |r|
      invariant forall a, b :: 0 <= a < b < i ==> r[a].score >= r[b].score
      invariant multiset(r) == multiset(s)
      invariant DistinctIds(s) ==> DistinctIds(r)
    {
      var j := i;
      while 0 < j && r[j - 1].score < r[j].score
        invariant 0 <= j <= i < |r|
        invariant |r| == |s|
        invariant Inserting(r, i, j)
        invariant multiset(r) == multiset(s)
        invariant DistinctIds(s) ==> DistinctIds(r)
      {
        InsertingSwap(r, i, j);
        if DistinctIds(r) {
          SwapKeepsDistinctIds(r, j - 1, j);
        }
        r := Swap(r, j - 1, j);
        j := j - 1;
      }
      InsertingDone(r, i, j);
      i := i + 1;
    }
  }

  /** The posts of one category, in store order. */
  function ByCategory(s: seq<Post>, category: string): (r: seq<Post>)
    ensures |r| <= |s|
    ensures forall p :: multiset(r)[p] == if p.category == category then multiset(s)[p] else 0
  {
    if s == [] then []
    else
      var last := s[|s| - 1];
      assert s == s[..|s| - 1] + [last];
      ByCategory(s[..|s| - 1], category) + (if last.category == category then [last] else [])
  }

  /** The posts of one author, in store order. */
  function ByAuthor(s: seq<Post>, login: string): (r: seq<Post>)
    ensures |r| <= |s|
    ensures forall p :: multiset(r)[p] == if p.author.username == login then multiset(s)[p] else 0
  {
    if s == [] then []
    else
      var last := s[|s| - 1];
      assert s == s[..|s| - 1] + [last];
      ByAuthor(s[..|s| - 1], login) + (if last.author.username == login then [last] else [])
  }

  /** The in-place edit UpVote makes to the post it found: append an up vote
      and bump the score (`Score++`), or overwrite the caller's vote and
      recount; the percentage is recounted either way. */
  method ApplyUpVote(p: Post, userID: nat) returns (q: Post)
    ensures q == UpVoted(p, userID)
  {
    q := p;
    var voteIdx := FindVote(q.votes, userID);
    if voteIdx < 0 {
      q := q.(votes := q.votes + [Vote(p.id, userID, UpVote)]);
      q := q.(score := q.score + 1);
      var per := UpVotePer(q.votes);
      q := q.(upvotePercentage := per);
    } else {
      q := q.(votes := q.votes[voteIdx := q.votes[voteIdx].(vote := UpVote)]);
      var score := SetScore(q.votes);
      var per := UpVotePer(q.votes);
      q := q.(score := score, upvotePercentage := per);
    }
  }

  /** The in-place edit DownVote makes: append a down vote or overwrite the
      caller's vote, then recount both figures. */
  method ApplyDownVote(p: Post, userID: nat) returns (q: Post)
    ensures q == DownVoted(p, userID)
  {
    q := p;
    var voteIdx := FindVote(q.votes, userID);
    if voteIdx < 0 {
      q := q.(votes := q.votes + [Vote(p.id, userID, DownVote)]);
    } else {
      q := q.(votes := q.votes[voteIdx := q.votes[voteIdx].(vote := DownVote)]);
    }
    var score := SetScore(q.votes);
    var per := UpVotePer(q.votes);
    q := q.(score := score, upvotePercentage := per);
  }

  /** The in-place edit UnVote makes: compact the caller's vote out of the
      list and recount. Without a vote by the caller, the removal at index
      -1 is out of range. */
  method ApplyUnVote(p: Post, userID: nat) returns (r: Result<Post>)
    ensures VoteIndex(p.votes, userID) < 0 ==> r == Err(ErrIndexOutOfRange)
    ensures 0 <= VoteIndex(p.votes, userID) ==> r == Ok(UnVoted(p, userID))
  {
    var voteIdx := FindVote(p.votes, userID);
    if voteIdx < 0 {
      return Err(ErrIndexOutOfRange);
    }
    var q := p.(votes := RemoveAt(p.votes, voteIdx));
    var score := SetScore(q.votes);
    var per := UpVotePer(q.votes);
    q := q.(score := score, upvotePercentage := per);
    r := Ok(q);
  }

  /** What the store keeps true of every post it holds. */
  ghost predicate WellFormed(p: Post, lastID: nat)
  {
    1 <= p.id <= lastID && UniqueVoters(p.votes) && VotesOf(p.votes, p.id)
  }

  class PostsDataRepo {
    var lastID: nat
    var data: seq<Post>

    /** Ids are distinct and already handed out; no user votes twice on a
        post; every vote names its post. */
    ghost predicate Valid()
      reads this
    {
      DistinctIds(data) && forall p :: p in data ==> WellFormed(p, lastID)
    }

    /** Every post's score and percentage agree with its votes. */
    ghost predicate AllConsistent()
      reads this
    {
      forall p :: p in data ==> Consistent(p)
    }

    /** An empty store whose counter starts at 0. */
    constructor ()
      ensures Valid() && AllConsistent()
      ensures lastID == 0 && data == []
    {
      lastID := 0;
      data := [];
    }

    /** Gives the post the next id, empty comment and vote lists and the time
        `now`, and appends it. The score and percentage are kept as given, so
        the new post agrees with its (empty) votes exactly when both are 0. */
    method Create(post: Post, now: string) returns (id: nat)
      requires Valid()
      modifies this
      ensures Valid()
      ensures id == old(lastID) + 1 && lastID == id
      ensures data == old(data) + [post.(id := id, comments := [], created := now, votes := [])]
      ensures forall p :: p in old(data) ==> p.id < id
      ensures Consistent(data[|data| - 1]) <==> post.score == 0 && post.upvotePercentage == 0
      ensures old(AllConsistent()) && post.score == 0 && post.upvotePercentage == 0 ==> AllConsistent()
    {
      lastID := lastID + 1;
      var stored := post.(id := lastID, comments := [], created := now, votes := []);
      forall i | 0 <= i < |data|
        ensures data[i].id < stored.id
      {
        assert data[i] in data;
      }
      data := data + [stored];
      id := lastID;
    }

    /** Sorts the store's own list in place by non-increasing score and
        returns it. */
    method ReadAll() returns (r: seq<Post>)
      requires Valid()
      modifies this
      ensures Valid()
      ensures r == data && lastID == old(lastID)
      ensures SortedByScore(data)
      ensures multiset(data) == multiset(old(data))
      ensures old(AllConsistent()) ==> AllConsistent()
    {
      ghost var before := data;
      data := SortByScore(data);
      forall p | p in data
        ensures p in before
      {
        assert p in multiset(data);
      }
      r := data;
    }

    /** Exactly the posts of that category, by non-increasing score. */
    method ReadCategory(category: string) returns (r: seq<Post>)
      requires Valid()
      ensures SortedByScore(r)
      ensures multiset(r) == multiset(ByCategory(data, category))
      ensures forall p :: p in r <==> p in data && p.category == category
    {
      var res := [];
      var i := 0;
      while i < |data|
        invariant 0 <= i <= |data|
        invariant res == ByCategory(data[..i], category)
      {
        assert data[..i + 1][..i] == data[..i];
        if data[i].category == category {
          res := res + [data[i]];
        }
        i := i + 1;
      }
      assert data[..i] == data;
      r := SortByScore(res);
      forall p
        ensures p in r <==> p in data && p.category == category
      {
        assert p in r <==> multiset(r)[p] > 0;
        assert p in data <==> multiset(data)[p] > 0;
      }
    }

    /** The post with that id, or ErrNoPost. */
    method Read(id: nat) returns (r: Result<Post>)
      requires Valid()
      ensures r.Ok? <==> exists i :: 0 <= i < |data| && data[i].id == id
      ensures r.Ok? ==> r.value.id == id && r.value in data
      ensures r.Ok? ==> forall p :: p in data && p.id == id ==> p == r.value
      ensures r.Err? ==> r.error == ErrNoPost
    {
      var detect := FindPost(data, id);
      if detect < 0 {
        return Err(ErrNoPost);
      }
      r := Ok(data[detect]);
    }

    /** Exactly the posts whose author has that login, by non-increasing
        score. */
    method ReadUser(login: string) returns (r: seq<Post>)
      requires Valid()
      ensures SortedByScore(r)
      ensures multiset(r) == multiset(ByAuthor(data, login))
      ensures forall p :: p in r <==> p in data && p.author.username == login
    {
      var res := [];
      var i := 0;
      while i < |data|
        invariant 0 <= i <= |data|
        invariant res == ByAuthor(data[..i], login)
      {
        assert data[..i + 1][..i] == data[..i];
        if data[i].author.username == login {
          res := res + [data[i]];
        }
        i := i + 1;
      }
      assert data[..i] == data;
      r := SortByScore(res);
      forall p
        ensures p in r <==> p in data && p.author.username == login
      {
        assert p in r <==> multiset(r)[p] > 0;
        assert p in data <==> multiset(data)[p] > 0;
      }
    }

    /** Replacing the post at `k` by one with the same id and well-formed
        votes keeps the store valid. */
    lemma ReplaceKeepsValid(k: nat, q: Post)
      requires Valid() && k < |data|
      requires q.id == data[k].id && UniqueVoters(q.votes) && VotesOf(q.votes, q.id)
      ensures DistinctIds(data[k := q])
      ensures forall p :: p in data[k := q] ==> WellFormed(p, lastID)
    {
      assert data[k] in data;
      forall p | p in data[k := q]
        ensures WellFormed(p, lastID)
      {
        var i :| 0 <= i < |data| && data[k := q][i] == p;
        assert i != k ==> data[i] in data;
      }
    }

    /** Replacing the post at `k` by a consistent one keeps all consistent. */
    lemma ReplaceKeepsConsistent(k: nat, q: Post)
      requires AllConsistent() && k < |data| && Consistent(q)
      ensures forall p :: p in data[k := q] ==> Consistent(p)
    {
      forall p | p in data[k := q]
        ensures Consistent(p)
      {
        var i :| 0 <= i < |data| && data[k := q][i] == p;
        assert i != k ==> data[i] in data;
      }
    }

    /** Adds the caller's up vote or turns their existing vote up, then
        updates score and percentage as `UpVoted` describes. An unknown
        post id gives ErrNoPost and changes nothing. */
    method UpVote(id: nat, u: User) returns (r: Result<Post>)
      requires Valid()
      modifies this
      ensures Valid()
      ensures lastID == old(lastID)
      ensures PostIndex(old(data), id) < 0 ==> r == Err(ErrNoPost) && data == old(data)
      ensures 0 <= PostIndex(old(data), id) ==>
        var k := PostIndex(old(data), id);
        data == old(data)[k := UpVoted(old(data)[k], u.id)] && r == Ok(data[k])
      ensures old(AllConsistent()) ==> AllConsistent()
    {
      var detect := FindPost(data, id);
      if detect < 0 {
        return Err(ErrNoPost);
      }
      assert data[detect] in data;
      var p := ApplyUpVote(data[detect], u.id);
      ReplaceKeepsValid(detect, p);
      if AllConsistent() {
        UpVotePreservesConsistency(data[detect], u.id);
        ReplaceKeepsConsistent(detect, p);
      }
      data := data[detect := p];
      r := Ok(p);
    }

    /** Adds the caller's down vote or turns their existing vote down, then
        recounts score and percentage. An unknown post id gives ErrNoPost
        and changes nothing. */
    method DownVote(id: nat, u: User) returns (r: Result<Post>)
      requires Valid()
      modifies this
      ensures Valid()
      ensures lastID == old(lastID)
      ensures PostIndex(old(data), id) < 0 ==> r == Err(ErrNoPost) && data == old(data)
      ensures 0 <= PostIndex(old(data), id) ==>
        var k := PostIndex(old(data), id);
        data == old(data)[k := DownVoted(old(data)[k], u.id)] && r == Ok(data[k])
      ensures old(AllConsistent()) ==> AllConsistent()
    {
      var detect := FindPost(data, id);
      if detect < 0 {
        return Err(ErrNoPost);
      }
      assert data[detect] in data;
      var p := ApplyDownVote(data[detect], u.id);
      ReplaceKeepsValid(detect, p);
      if AllConsistent() {
        ReplaceKeepsConsistent(detect, p);
      }
      data := data[detect := p];
      r := Ok(p);
    }

    /** Removes the caller's vote, keeping the other votes in order, and
        recounts. An unknown post gives ErrNoPost; a caller without a vote
        reaches the out-of-range removal at index -1. Neither changes
        anything. */
    method UnVote(id: nat, u: User) returns (r: Result<Post>)
      requires Valid()
      modifies this
      ensures Valid()
      ensures lastID == old(lastID)
      ensures PostIndex(old(data), id) < 0 ==> r == Err(ErrNoPost) && data == old(data)
      ensures 0 <= PostIndex(old(data), id) && VoteIndex(old(data)[PostIndex(old(data), id)].votes, u.id) < 0 ==>
        r == Err(ErrIndexOutOfRange) && data == old(data)
      ensures 0 <= PostIndex(old(data), id) && 0 <= VoteIndex(old(data)[PostIndex(old(data), id)].votes, u.id) ==>
        var k := PostIndex(old(data), id);
        data == old(data)[k := UnVoted(old(data)[k], u.id)] && r == Ok(data[k])
      ensures old(AllConsistent()) ==> AllConsistent()
    {
      var detect := FindPost(data, id);
      if detect < 0 {
        return Err(ErrNoPost);
      }
      assert data[detect] in data;
      r := ApplyUnVote(data[detect], u.id);
      if r.Err? {
        return;
      }
      var p := r.value;
      ReplaceKeepsValid(detect, p);
      if AllConsistent() {
        ReplaceKeepsConsistent(detect, p);
      }
      data := data[detect := p];
    }

    /** Removes the post with that id and keeps the others in order; the
        counter stays, so the id is never handed out again. An unknown id
        gives ErrNoPost and changes nothing. */
    method Delete(id: nat) returns (r: Result<bool>)
      requires Valid()
      modifies this
      ensures Valid()
      ensures lastID == old(lastID)
      ensures PostIndex(old(data), id) < 0 ==> r == Err(ErrNoPost) && data == old(data)
      ensures 0 <= PostIndex(old(data), id) ==>
        r == Ok(true) && data == RemoveAt(old(data), PostIndex(old(data), id))
      ensures forall p :: p in data ==> p.id != id
      ensures old(AllConsistent()) ==> AllConsistent()
    {
      var detect := FindLastPost(data, id);
      if detect < 0 {
        return Err(ErrNoPost);
      }
      RemoveKeepsDistinctIds(data, detect);
      var rest := RemoveAt(data, detect);
      forall p | p in rest
        ensures p in data && p.id != id
      {
        var i :| 0 <= i < |rest| && rest[i] == p;
        var i' := if i < detect then i else i + 1;
        assert rest[i] == data[i'];
      }
      data := rest;
      r := Ok(true);
    }
  }
}
