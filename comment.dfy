/** The comment record and the comment store: per post, an id counter and the
    ordered list of that post's comments. */
module CommentRepo {
  import opened Results
  import opened Slices
  import opened UserRepo

  /** A comment on the post `postID`; `id` is unique within that post. */
  datatype Comment = Comment(id: nat, author: User, created: string, body: string, postID: nat)

  /** Comment ids grow strictly along the list. */
  ghost predicate Increasing(s: seq<Comment>)
  {
    forall i, j :: 0 <= i < j < |s| ==> s[i].id < s[j].id
  }

  /** Compacting a list keeps its ids strictly increasing. */
  lemma RemovePreservesIncreasing(s: seq<Comment>, k: nat)
    requires k < |s| && Increasing(s)
    ensures Increasing(RemoveAt(s, k))
  {
    var r := RemoveAt(s, k);
    forall i, j | 0 <= i < j < |r|
      ensures r[i].id < r[j].id
    {
      var i' := if i < k then i else i + 1;
      var j' := if j < k then j else j + 1;
      assert r[i] == s[i'] && r[j] == s[j'];
    }
  }

  /** In a strictly increasing list, an id occurs at most once. */
  lemma IncreasingHasUniqueIds(s: seq<Comment>, k: nat)
    requires k < |s| && Increasing(s)
    ensures forall c :: c in RemoveAt(s, k) ==> c.id != s[k].id
  {
    var r := RemoveAt(s, k);
    forall c | c in r
      ensures c.id != s[k].id
    {
      var i :| 0 <= i < |r| && r[i] == c;
      if i < k {
        assert s[i].id < s[k].id;
      } else {
        assert s[k].id < s[i + 1].id;
      }
    }
  }

  /** One post's list: only that post's comments, in strictly increasing id
      order, with ids its counter `last` has already handed out. */
  ghost predicate ListValid(postID: nat, list: seq<Comment>, last: nat)
  {
    && Increasing(list)
    && (forall c :: c in list ==> c.postID == postID && 1 <= c.id <= last)
  }

  /** Removing one comment from a valid list leaves a valid list one shorter
      in which that comment's id no longer occurs. */
  lemma RemoveKeepsListValid(postID: nat, list: seq<Comment>, last: nat, k: nat)
    requires k < |list| && ListValid(postID, list, last)
    ensures ListValid(postID, RemoveAt(list, k), last)
    ensures |RemoveAt(list, k)| == |list| - 1
    ensures forall c :: c in RemoveAt(list, k) ==> c.id != list[k].id
  {
    RemovePreservesIncreasing(list, k);
    IncreasingHasUniqueIds(list, k);
    RemoveAtSubset(list, k);
  }

  /** The scan in Delete: it goes on after a match, so it settles on the LAST
      comment with that id, or -1 when there is none. */
  method FindComment(list: seq<Comment>, commentID: nat) returns (detect: int)
    ensures -1 <= detect < |list|
    ensures detect < 0 <==> forall i :: 0 <= i < |list| ==> list[i].id != commentID
    ensures 0 <= detect ==> list[detect].id == commentID
    ensures 0 <= detect ==> forall i :: detect < i < |list| ==> list[i].id != commentID
  {
    detect := -1;
    var idx := 0;
    while idx < |list|
      invariant 0 <= idx <= |list|
      invariant -1 <= detect < idx
      invariant detect < 0 ==> forall i :: 0 <= i < idx ==> list[i].id != commentID
      invariant 0 <= detect ==> list[detect].id == commentID
      invariant 0 <= detect ==> forall i :: detect < i < idx ==> list[i].id != commentID
    {
      if list[idx].id == commentID {
        detect := idx;
      }
      idx := idx + 1;
    }
  }

  class CommentsDataRepo {
    var lastID: map<nat, nat>
    var data: map<nat, seq<Comment>>

    /** `LastID[postID]` with Go's zero value for a post never commented on. */
    function LastOf(postID: nat): nat
      reads this
    {
      if postID in lastID then lastID[postID] else 0
    }

    /** `Data[postID]` with Go's nil (empty) slice for a post never commented on. */
    function CommentsOf(postID: nat): seq<Comment>
      reads this
    {
      if postID in data then data[postID] else []
    }

    /** Each post's list holds only that post's comments, in strictly
        increasing id order, with ids its counter has already handed out. */
    ghost predicate Valid()
      reads this
    {
      forall p :: p in data ==> ListValid(p, data[p], LastOf(p))
    }

    /** An empty store. */
    constructor ()
      ensures Valid()
      ensures lastID == map[] && data == map[]
    {
      lastID := map[];
      data := map[];
    }

    /** Bumps the post's counter, gives the comment that value and the time
        `now`, and appends it to the post's list. Nothing else changes. */
    method Create(comm: Comment, now: string) returns (id: nat)
      requires Valid()
      modifies this
      ensures Valid()
      ensures id == old(LastOf(comm.postID)) + 1
      ensures lastID == old(lastID)[comm.postID := id]
      ensures data == old(data)[comm.postID := old(CommentsOf(comm.postID)) + [comm.(id := id, created := now)]]
      ensures forall p :: p != comm.postID ==> LastOf(p) == old(LastOf(p)) && CommentsOf(p) == old(CommentsOf(p))
    {
      var p := comm.postID;
      lastID := lastID[p := LastOf(p) + 1];
      var stored := comm.(id := lastID[p], created := now);
      data := data[p := CommentsOf(p) + [stored]];
      id := lastID[p];
    }

    /** The post's comments in insertion order; empty, not an error, for a
        post without comments. */
    method ReadAll(postID: nat) returns (r: seq<Comment>)
      requires Valid()
      ensures postID !in data ==> r == []
      ensures postID in data ==> r == data[postID]
      ensures Increasing(r)
      ensures forall c :: c in r ==> c.postID == postID && c.id <= LastOf(postID)
    {
      r := CommentsOf(postID);
    }

    /** The whole post-to-comments map. */
    method List() returns (r: map<nat, seq<Comment>>)
      requires Valid()
      ensures r == data
      ensures forall p :: p in r ==> Increasing(r[p])
    {
      r := data;
    }

    /** Removes the one comment with that id from the post's list, keeping
        the others in order; no counter moves, so the id is never handed out
        again. An unknown id is refused and nothing changes. */
    method Delete(postID: nat, commentID: nat) returns (r: Result<bool>)
      requires Valid()
      modifies this
      ensures Valid()
      ensures lastID == old(lastID)
      ensures (forall c :: c in old(CommentsOf(postID)) ==> c.id != commentID) ==>
        r == Err(ErrNoComm) && data == old(data)
      ensures (exists c :: c in old(CommentsOf(postID)) && c.id == commentID) ==>
        && r == Ok(true)
        && (exists k :: 0 <= k < |old(CommentsOf(postID))|
             && old(CommentsOf(postID))[k].id == commentID
             && data == old(data)[postID := RemoveAt(old(CommentsOf(postID)), k)])
        && |CommentsOf(postID)| == |old(CommentsOf(postID))| - 1
        && (forall c :: c in CommentsOf(postID) ==> c.id != commentID)
        && (forall p :: p != postID ==> CommentsOf(p) == old(CommentsOf(p)))
    {
      var list := CommentsOf(postID);
      var detect := FindComment(list, commentID);
      if detect < 0 {
        return Err(ErrNoComm);
      }
      var rest := RemoveAt(list, detect);
      assert ListValid(postID, list, LastOf(postID));
      RemoveKeepsListValid(postID, list, LastOf(postID), detect);
      data := data[postID := rest];
      assert CommentsOf(postID) == rest;
      r := Ok(true);
    }
  }

  /** Two comments on post 1 get ids 1 and 2; deleting the first leaves the
      second alone in the list. */
  method CommentScenario(alice: User)
  {
    var repo := new CommentsDataRepo();
    var id1 := repo.Create(Comment(0, alice, "", "hi", 1), "t1");
    assert id1 == 1;
    var id2 := repo.Create(Comment(0, alice, "", "again", 1), "t2");
    assert id2 == 2;
    var c1, c2 := Comment(1, alice, "t1", "hi", 1), Comment(2, alice, "t2", "again", 1);
    assert repo.CommentsOf(1) == [c1, c2];
    var ok := repo.Delete(1, 1);
    assert ok == Ok(true);
    var rest := repo.ReadAll(1);
    assert |rest| == 1 && rest[0].id != 1;
  }
}
