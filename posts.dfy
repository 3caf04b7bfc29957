/**
 * The embedded sub-documents of a post (its likes and comments) and the rule
 * each handler of the posts router (routes/api/posts.js) applies to them:
 * which HTTP status it answers with and what the list looks like afterwards.
 * The handlers themselves, which update a post in place, are in PostsRouter.
 */
module Posts {
  import opened JsArray

  /** The string form of a user's ObjectId (`req.user.id`, `like.user.toString()`). */
  type UserId = string
  type CommentId = string

  /** One entry of `post.likes`: `{ user }`. */
  datatype Like = Like(user: UserId)

  /** One entry of `post.comments`: its id, the commenter and the commenter's display data. */
  datatype Comment = Comment(id: CommentId, user: UserId, text: string, name: string, avatar: string)

  /** The requester's User document as `findById(...).select('-password')` returns it. */
  datatype Author = Author(name: string, avatar: string)

  datatype Option<T> = None | Some(value: T)

  /** The statuses the handlers answer with: 200, 400, 401, 404 and 500. */
  datatype Status = Ok | BadRequest | Unauthorized | NotFound | ServerError

  /** What a handler answers and the sub-document list it leaves on the post. */
  datatype Outcome<T> = Outcome(status: Status, after: T)

  /** `likes.map(like => like.user.toString())` */
  function Likers(likes: seq<Like>): (users: seq<UserId>)
    ensures |users| == |likes|
    ensures forall i :: 0 <= i < |likes| ==> users[i] == likes[i].user
  {
    if likes == [] then [] else [likes[0].user] + Likers(likes[1..])
  }

  /** `comments.map(comment => comment.user.toString())` */
  function Commenters(comments: seq<Comment>): (users: seq<UserId>)
    ensures |users| == |comments|
    ensures forall i :: 0 <= i < |comments| ==> users[i] == comments[i].user
  {
    if comments == [] then [] else [comments[0].user] + Commenters(comments[1..])
  }

  /** `comments.map(comment => comment.id)` */
  function CommentIds(comments: seq<Comment>): (ids: seq<CommentId>)
    ensures |ids| == |comments|
    ensures forall i :: 0 <= i < |comments| ==> ids[i] == comments[i].id
  {
    if comments == [] then [] else [comments[0].id] + CommentIds(comments[1..])
  }

  /** The invariant the like handlers keep: no user has liked a post twice. */
  predicate LikesUnique(likes: seq<Like>) {
    forall i, j :: 0 <= i < j < |likes| ==> likes[i].user != likes[j].user
  }

  /** Sub-document ids are distinct, as the database's generated ids are. */
  predicate CommentIdsUnique(comments: seq<Comment>) {
    forall i, j :: 0 <= i < j < |comments| ==> comments[i].id != comments[j].id
  }

  /** `comments.find(comment => comment.id === commentId)`: the first comment with that id. */
  function FindComment(comments: seq<Comment>, commentId: CommentId): (found: Option<Comment>)
    ensures found.None? <==> forall i :: 0 <= i < |comments| ==> comments[i].id != commentId
    ensures found.Some? ==>
              exists i :: 0 <= i < |comments| && comments[i] == found.value && comments[i].id == commentId
                          && forall j :: 0 <= j < i ==> comments[j].id != commentId
  {
    var i := IndexOf(CommentIds(comments), commentId);
    if i < 0 then None else Some(comments[i])
  }

  // ---------------------------------------------------------------------
  // PUT like/:id and PUT unlike/:id
  // ---------------------------------------------------------------------

  /**
   * PUT like/:id on an existing post: 400 when the requester already has a
   * like, otherwise the requester's like goes to the front.
   */
  function LikeStep(likes: seq<Like>, me: UserId): (r: Outcome<seq<Like>>)
    ensures r.status == Ok || r.status == BadRequest
    ensures r.status == BadRequest <==> exists i :: 0 <= i < |likes| && likes[i].user == me
    ensures r.status == BadRequest ==> r.after == likes
    ensures r.status == Ok ==>
              |r.after| == |likes| + 1 && r.after[0] == Like(me) && r.after[1..] == likes
  {
    if Count(Likers(likes), me) > 0 then Outcome(BadRequest, likes)
    else Outcome(Ok, [Like(me)] + likes)
  }

  /**
   * PUT unlike/:id on an existing post: 400 when the requester has no like,
   * otherwise the requester's first like is spliced out and the rest keep
   * their order.
   */
  function UnlikeStep(likes: seq<Like>, me: UserId): (r: Outcome<seq<Like>>)
    ensures r.status == Ok || r.status == BadRequest
    ensures r.status == BadRequest <==> forall i :: 0 <= i < |likes| ==> likes[i].user != me
    ensures r.status == BadRequest ==> r.after == likes
    ensures r.status == Ok ==>
              var k := IndexOf(Likers(likes), me);
              && 0 <= k < |likes|
              && likes[k].user == me
              && (forall j :: 0 <= j < k ==> likes[j].user != me)
              && r.after == RemoveAt(likes, k)
  {
    if Count(Likers(likes), me) == 0 then Outcome(BadRequest, likes)
    else
      var removeIndex := IndexOf(Likers(likes), me);
      Outcome(Ok, Splice(likes, removeIndex))
  }

  /** A like keeps every user at most once in `likes`, and the requester is then there exactly once. */
  lemma LikeKeepsLikesUnique(likes: seq<Like>, me: UserId)
    requires LikesUnique(likes)
    ensures LikesUnique(LikeStep(likes, me).after)
    ensures Count(Likers(LikeStep(likes, me).after), me) == 1
  {
    var r := LikeStep(likes, me);
    if r.status == Ok {
      assert me !in Likers(likes);
      assert Likers(r.after) == [me] + Likers(likes) by {
        assert r.after[1..] == likes;
      }
      CountUnshift(Likers(likes), me, me);
    } else {
      var i :| 0 <= i < |likes| && likes[i].user == me;
      LikersUniqueCount(likes, i);
    }
  }

  /** In likes without repeats, the user at position `i` is counted once. */
  lemma {:induction false} LikersUniqueCount(likes: seq<Like>, i: int)
    requires LikesUnique(likes) && 0 <= i < |likes|
    ensures Count(Likers(likes), likes[i].user) == 1
  {
    var rest := likes[1..];
    assert LikesUnique(rest) by {
      forall a, b | 0 <= a < b < |rest| ensures rest[a].user != rest[b].user {
        assert rest[a] == likes[a + 1] && rest[b] == likes[b + 1];
      }
    }
    assert Likers(likes)[1..] == Likers(rest);
    if i == 0 {
      assert forall j :: 0 <= j < |rest| ==> rest[j].user != likes[0].user by {
        forall j | 0 <= j < |rest| ensures rest[j].user != likes[0].user {
          assert rest[j] == likes[j + 1];
        }
      }
      assert likes[0].user !in Likers(rest);
    } else {
      LikersUniqueCount(rest, i - 1);
      assert rest[i - 1] == likes[i];
      assert likes[0].user != likes[i].user;
    }
  }

  /** An unlike keeps every user at most once in `likes`, and the requester then has no like left. */
  lemma UnlikeKeepsLikesUnique(likes: seq<Like>, me: UserId)
    requires LikesUnique(likes)
    ensures LikesUnique(UnlikeStep(likes, me).after)
    ensures forall i :: 0 <= i < |UnlikeStep(likes, me).after| ==> UnlikeStep(likes, me).after[i].user != me
  {
    var r := UnlikeStep(likes, me);
    if r.status == Ok {
      var k := IndexOf(Likers(likes), me);
      forall a, b | 0 <= a < b < |r.after| ensures r.after[a].user != r.after[b].user {
        var a', b' := if a < k then a else a + 1, if b < k then b else b + 1;
        assert r.after[a] == likes[a'] && r.after[b] == likes[b'];
      }
      forall i | 0 <= i < |r.after| ensures r.after[i].user != me {
        var i' := if i < k then i else i + 1;
        assert r.after[i] == likes[i'] && i' != k;
      }
    }
  }

  /**
   * Without assuming anything about `likes`: a successful unlike lowers the
   * requester's like count by exactly one and leaves every other user's count alone.
   */
  lemma UnlikeDropsOneLike(likes: seq<Like>, me: UserId, u: UserId)
    requires UnlikeStep(likes, me).status == Ok
    ensures Count(Likers(UnlikeStep(likes, me).after), u)
            == Count(Likers(likes), u) - (if u == me then 1 else 0)
  {
    var k := IndexOf(Likers(likes), me);
    var after := UnlikeStep(likes, me).after;
    assert Likers(after) == RemoveAt(Likers(likes), k) by {
      var ls := Likers(likes);
      assert |RemoveAt(ls, k)| == |after|;
      forall j | 0 <= j < |after| ensures Likers(after)[j] == RemoveAt(ls, k)[j] {
        assert after[j] == likes[if j < k then j else j + 1];
      }
    }
    CountRemoveAt(Likers(likes), k, u);
  }

  /** Unlike undoes a like: liking and then unliking gives back the old likes. */
  lemma LikeThenUnlike(likes: seq<Like>, me: UserId)
    requires forall i :: 0 <= i < |likes| ==> likes[i].user != me
    ensures LikeStep(likes, me).status == Ok
    ensures UnlikeStep(LikeStep(likes, me).after, me) == Outcome(Ok, likes)
  {
    var liked := LikeStep(likes, me).after;
    assert Likers(liked)[0] == me;
    assert liked[0].user == me;
    var r := UnlikeStep(liked, me);
    assert r.after == liked[1..];
  }

  /**
   * Like undoes an unlike up to order: on likes without repeats, unliking
   * and then liking again gives back the same likes, the requester's now first.
   */
  lemma UnlikeThenLike(likes: seq<Like>, me: UserId)
    requires LikesUnique(likes)
    requires exists i :: 0 <= i < |likes| && likes[i].user == me
    ensures var unliked := UnlikeStep(likes, me).after;
            && LikeStep(unliked, me).status == Ok
            && LikeStep(unliked, me).after[0] == Like(me)
            && multiset(LikeStep(unliked, me).after) == multiset(likes)
  {
    UnlikeKeepsLikesUnique(likes, me);
    var k := IndexOf(Likers(likes), me);
    var unliked := UnlikeStep(likes, me).after;
    assert unliked == RemoveAt(likes, k);
    assert likes[k] == Like(me);
    var relike := LikeStep(unliked, me).after;
    assert relike == [Like(me)] + unliked;
  }

  // ---------------------------------------------------------------------
  // POST comment/:id
  // ---------------------------------------------------------------------

  /**
   * POST comment/:id on an existing post: 400 for empty text (the validator
   * runs first), 500 when the requester's User document is missing (reading
   * its name throws), otherwise a comment carrying the requester's id, name
   * and avatar goes to the front. `newId` is the id the database gives the
   * new sub-document.
   */
  function AddCommentStep(comments: seq<Comment>, me: UserId, author: Option<Author>,
                          text: string, newId: CommentId): (r: Outcome<seq<Comment>>)
    ensures r.status == BadRequest <==> text == []
    ensures r.status == ServerError <==> text != [] && author.None?
    ensures r.status == Ok <==> text != [] && author.Some?
    ensures r.status != Ok ==> r.after == comments
    ensures r.status == Ok ==>
              && |r.after| == |comments| + 1
              && r.after[0].id == newId && r.after[0].user == me && r.after[0].text == text
              && r.after[0].name == author.value.name && r.after[0].avatar == author.value.avatar
              && r.after[1..] == comments
  {
    if text == [] then Outcome(BadRequest, comments)
    else if author.None? then Outcome(ServerError, comments)
    else
      var c := Comment(newId, me, text, author.value.name, author.value.avatar);
      Outcome(Ok, [c] + comments)
  }

  /** A comment with a fresh id keeps comment ids distinct. */
  lemma AddCommentKeepsIdsUnique(comments: seq<Comment>, me: UserId, author: Option<Author>,
                                 text: string, newId: CommentId)
    requires CommentIdsUnique(comments)
    requires forall i :: 0 <= i < |comments| ==> comments[i].id != newId
    ensures CommentIdsUnique(AddCommentStep(comments, me, author, text, newId).after)
  {
    var r := AddCommentStep(comments, me, author, text, newId);
    if r.status == Ok {
      forall a, b | 0 <= a < b < |r.after| ensures r.after[a].id != r.after[b].id {
        assert r.after[b] == comments[b - 1];
        if a > 0 {
          assert r.after[a] == comments[a - 1];
        }
      }
    }
  }

  // ---------------------------------------------------------------------
  // DELETE comment/:post_id/:comment_id
  // ---------------------------------------------------------------------

  /**
   * DELETE comment/:post_id/:comment_id on an existing post, as the router
   * does it: 404 when no comment has the id, 401 when the comment with that
   * id belongs to someone else, otherwise it splices out the FIRST COMMENT
   * BY THE REQUESTER, which need not be the comment that was asked for.
   */
  function DeleteCommentStep(comments: seq<Comment>, commentId: CommentId, me: UserId)
    : (r: Outcome<seq<Comment>>)
    ensures r.status == Ok || r.status == NotFound || r.status == Unauthorized
    ensures r.status == NotFound <==> forall i :: 0 <= i < |comments| ==> comments[i].id != commentId
    ensures r.status == Unauthorized <==>
              FindComment(comments, commentId).Some? && FindComment(comments, commentId).value.user != me
    ensures r.status != Ok ==> r.after == comments
    ensures r.status == Ok ==>
              var k := IndexOf(Commenters(comments), me);
              && 0 <= k < |comments|
              && comments[k].user == me
              && (forall j :: 0 <= j < k ==> comments[j].user != me)
              && r.after == RemoveAt(comments, k)
  {
    var comment := FindComment(comments, commentId);
    if comment.None? then Outcome(NotFound, comments)
    else if comment.value.user != me then Outcome(Unauthorized, comments)
    else
      assert Commenters(comments)[IndexOf(CommentIds(comments), commentId)] == me;
      var removeIndex := IndexOf(Commenters(comments), me);
      Outcome(Ok, Splice(comments, removeIndex))
  }

  /**
   * DELETE comment/:post_id/:comment_id as it is evidently meant to work:
   * the same checks, but the comment spliced out is the one that was found
   * by its id.
   */
  function DeleteRequestedCommentStep(comments: seq<Comment>, commentId: CommentId, me: UserId)
    : (r: Outcome<seq<Comment>>)
    ensures r.status == DeleteCommentStep(comments, commentId, me).status
    ensures r.status != Ok ==> r.after == comments
    ensures r.status == Ok ==>
              var i := IndexOf(CommentIds(comments), commentId);
              && 0 <= i < |comments|
              && comments[i].id == commentId && comments[i].user == me
              && (forall j :: 0 <= j < i ==> comments[j].id != commentId)
              && r.after == RemoveAt(comments, i)
  {
    var comment := FindComment(comments, commentId);
    if comment.None? then Outcome(NotFound, comments)
    else if comment.value.user != me then Outcome(Unauthorized, comments)
    else Outcome(Ok, Splice(comments, IndexOf(CommentIds(comments), commentId)))
  }

  /**
   * With distinct comment ids, the corrected deletion removes exactly the
   * requested comment: its id is gone, nothing else is lost, and ids stay distinct.
   */
  lemma DeleteRequestedCommentRemovesIt(comments: seq<Comment>, commentId: CommentId, me: UserId)
    requires CommentIdsUnique(comments)
    requires exists i :: 0 <= i < |comments| && comments[i].id == commentId && comments[i].user == me
    ensures DeleteRequestedCommentStep(comments, commentId, me).status == Ok
    ensures var after := DeleteRequestedCommentStep(comments, commentId, me).after;
            && (forall j :: 0 <= j < |after| ==> after[j].id != commentId)
            && multiset(after) + multiset{FindComment(comments, commentId).value} == multiset(comments)
            && CommentIdsUnique(after)
  {
    var i := IndexOf(CommentIds(comments), commentId);
    var after := DeleteRequestedCommentStep(comments, commentId, me).after;
    assert after == RemoveAt(comments, i);
    assert FindComment(comments, commentId).value == comments[i];
    RemoveAtKeepsIdsUnique(comments, i);
  }

  /**
   * Removing one comment keeps comment ids distinct, and with distinct ids
   * the removed comment's id is gone.
   */
  lemma RemoveAtKeepsIdsUnique(comments: seq<Comment>, k: nat)
    requires CommentIdsUnique(comments) && k < |comments|
    ensures CommentIdsUnique(RemoveAt(comments, k))
    ensures forall j :: 0 <= j < |RemoveAt(comments, k)| ==> RemoveAt(comments, k)[j].id != comments[k].id
  {
    var after := RemoveAt(comments, k);
    forall a, b | 0 <= a < b < |after| ensures after[a].id != after[b].id {
      var a', b' := if a < k then a else a + 1, if b < k then b else b + 1;
      assert after[a] == comments[a'] && after[b] == comments[b'];
    }
    forall j | 0 <= j < |after| ensures after[j].id != comments[k].id {
      var j' := if j < k then j else j + 1;
      assert after[j] == comments[j'] && j' != k;
    }
  }

  /** The router's deletion keeps comment ids distinct too. */
  lemma DeleteCommentKeepsIdsUnique(comments: seq<Comment>, commentId: CommentId, me: UserId)
    requires CommentIdsUnique(comments)
    ensures CommentIdsUnique(DeleteCommentStep(comments, commentId, me).after)
  {
    if DeleteCommentStep(comments, commentId, me).status == Ok {
      var k := IndexOf(Commenters(comments), me);
      assert DeleteCommentStep(comments, commentId, me).after == RemoveAt(comments, k);
      RemoveAtKeepsIdsUnique(comments, k);
    }
  }

  /**
   * When the router's deletion succeeds, the requester's first comment is at
   * or before the requested one, and at it exactly when no earlier comment
   * is the requester's.
   */
  lemma {:induction false} FirstCommentByRequester(comments: seq<Comment>, commentId: CommentId, me: UserId)
    requires DeleteCommentStep(comments, commentId, me).status == Ok
    ensures var i, k := IndexOf(CommentIds(comments), commentId), IndexOf(Commenters(comments), me);
            && 0 <= k <= i < |comments|
            && comments[i].user == me
            && (k == i <==> forall j :: 0 <= j < i ==> comments[j].user != me)
  {
    var i := IndexOf(CommentIds(comments), commentId);
    var k := IndexOf(Commenters(comments), me);
    assert FindComment(comments, commentId).value == comments[i];
    assert comments[i].user == me;
    assert Commenters(comments)[i] == me;
    if k < i {
      assert comments[k].user == me;
    }
  }

  /**
   * With distinct comment ids, the router deletes the requested comment
   * exactly when it is the requester's earliest comment in the list; in
   * every other case the requested comment survives and an earlier comment
   * of the same user is removed in its place.
   */
  lemma DeleteCommentRemovesRequestedIff(comments: seq<Comment>, commentId: CommentId, me: UserId)
    requires CommentIdsUnique(comments)
    requires DeleteCommentStep(comments, commentId, me).status == Ok
    ensures var i := IndexOf(CommentIds(comments), commentId);
            && 0 <= i < |comments|
            && ((comments[i] !in DeleteCommentStep(comments, commentId, me).after)
                <==> (forall j :: 0 <= j < i ==> comments[j].user != me))
  {
    FirstCommentByRequester(comments, commentId, me);
    var i := IndexOf(CommentIds(comments), commentId);
    var k := IndexOf(Commenters(comments), me);
    assert DeleteCommentStep(comments, commentId, me).after == RemoveAt(comments, k);
    RemoveAtKeepsOthers(comments, k, i);
  }

  /** With distinct ids, removing position `k` loses the comment at `i` exactly when `i` is `k`. */
  lemma RemoveAtKeepsOthers(comments: seq<Comment>, k: nat, i: nat)
    requires CommentIdsUnique(comments) && k < |comments| && i < |comments|
    ensures comments[i] in RemoveAt(comments, k) <==> i != k
  {
    var after := RemoveAt(comments, k);
    if i == k {
      forall j | 0 <= j < |after| ensures after[j] != comments[i] {
        var j' := if j < k then j else j + 1;
        assert after[j] == comments[j'] && j' != i;
      }
    } else {
      var j := if i < k then i else i - 1;
      assert after[j] == comments[i];
    }
  }

  /**
   * With distinct comment ids, the router's deletion and the corrected one
   * agree exactly when the requested comment is the requester's earliest.
   */
  lemma DeleteCommentAgreesIff(comments: seq<Comment>, commentId: CommentId, me: UserId)
    requires CommentIdsUnique(comments)
    requires DeleteCommentStep(comments, commentId, me).status == Ok
    ensures var i := IndexOf(CommentIds(comments), commentId);
            && 0 <= i < |comments|
            && ((DeleteCommentStep(comments, commentId, me) == DeleteRequestedCommentStep(comments, commentId, me))
                <==> (forall j :: 0 <= j < i ==> comments[j].user != me))
  {
    FirstCommentByRequester(comments, commentId, me);
    var i := IndexOf(CommentIds(comments), commentId);
    var k := IndexOf(Commenters(comments), me);
    var asWritten := DeleteCommentStep(comments, commentId, me).after;
    var intended := DeleteRequestedCommentStep(comments, commentId, me).after;
    if k == i {
      assert asWritten == RemoveAt(comments, k);
      assert intended == RemoveAt(comments, i);
    } else {
      assert asWritten[i - 1] == comments[i];
      assert intended[i - 1] == comments[i - 1];
      assert comments[i - 1].id != comments[i].id;
    }
  }

  /**
   * The input that shows the deletion bug: a user has two comments, the
   * newer one first (comments are unshifted). Asking to delete the older
   * one answers 200, but the newer one is gone and the older one is still there.
   */
  lemma DeleteCommentRemovesWrongComment()
    ensures var newer := Comment("a", "u", "second", "U", "");
            var older := Comment("b", "u", "first", "U", "");
            DeleteCommentStep([newer, older], "b", "u") == Outcome(Ok, [older])
  {
    var newer := Comment("a", "u", "second", "U", "");
    var older := Comment("b", "u", "first", "U", "");
    var comments := [newer, older];
    assert CommentIds(comments) == ["a", "b"];
    assert Commenters(comments) == ["u", "u"];
    assert IndexOf(CommentIds(comments), "b") == 1;
    assert IndexOf(Commenters(comments), "u") == 0;
    assert RemoveAt(comments, 0) == [older];
  }

  /** A new comment can be deleted straight away: deleting it by its id restores the old comments. */
  lemma AddThenDeleteComment(comments: seq<Comment>, me: UserId, author: Author,
                             text: string, newId: CommentId)
    requires text != []
    ensures var added := AddCommentStep(comments, me, Some(author), text, newId);
            && added.status == Ok
            && DeleteCommentStep(added.after, newId, me) == Outcome(Ok, comments)
            && DeleteRequestedCommentStep(added.after, newId, me) == Outcome(Ok, comments)
  {
    var added := AddCommentStep(comments, me, Some(author), text, newId).after;
    assert CommentIds(added)[0] == newId;
    assert Commenters(added)[0] == me;
    assert RemoveAt(added, 0) == comments;
  }
}
