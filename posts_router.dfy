/**
 * The handlers of the posts router (routes/api/posts.js) as methods that
 * update a post in place. `findById` is the caller's business: a handler
 * that works on one post receives what `findById` produced, `null` when no
 * post was found. The rules each handler follows are the functions of
 * module Posts.
 */
module PostsRouter {
  import opened JsArray
  import opened Posts
  import opened ObjectIds

  type PostId = string

  /** A post document: its author and the two embedded arrays the handlers change. */
  class Post {
    const owner: UserId
    var likes: seq<Like>
    var comments: seq<Comment>

    /** What the handlers keep: nobody likes a post twice, comment ids are distinct. */
    predicate Valid()
      reads this
    {
      LikesUnique(likes) && CommentIdsUnique(comments)
    }

    /** A post as loaded from the database. */
    constructor (owner: UserId, likes: seq<Like>, comments: seq<Comment>)
      ensures this.owner == owner && this.likes == likes && this.comments == comments
    {
      this.owner := owner;
      this.likes := likes;
      this.comments := comments;
    }
  }

  /**
   * PUT like/:id. A missing post answers 500: reading `post.likes` throws
   * inside the handler's try block.
   */
  method LikePost(post: Post?, me: UserId) returns (status: Status)
    modifies post
    ensures post == null ==> status == ServerError
    ensures post != null ==>
              && status == LikeStep(old(post.likes), me).status
              && post.likes == LikeStep(old(post.likes), me).after
              && post.comments == old(post.comments)
    ensures post != null && old(post.Valid()) ==> post.Valid()
  {
    if post == null {
      return ServerError;
    }
    if Count(Likers(post.likes), me) > 0 {
      return BadRequest;
    }
    if LikesUnique(post.likes) {
      LikeKeepsLikesUnique(post.likes, me);
    }
    post.likes := [Like(me)] + post.likes;
    status := Ok;
  }

  /** PUT unlike/:id. A missing post answers 500, as for a like. */
  method UnlikePost(post: Post?, me: UserId) returns (status: Status)
    modifies post
    ensures post == null ==> status == ServerError
    ensures post != null ==>
              && status == UnlikeStep(old(post.likes), me).status
              && post.likes == UnlikeStep(old(post.likes), me).after
              && post.comments == old(post.comments)
    ensures post != null && old(post.Valid()) ==> post.Valid()
  {
    if post == null {
      return ServerError;
    }
    if Count(Likers(post.likes), me) == 0 {
      return BadRequest;
    }
    if LikesUnique(post.likes) {
      UnlikeKeepsLikesUnique(post.likes, me);
    }
    var removeIndex := IndexOf(Likers(post.likes), me);
    post.likes := Splice(post.likes, removeIndex);
    status := Ok;
  }

  /**
   * POST comment/:id. Empty text answers 400 before anything is looked up;
   * a missing author or a missing post answers 500 (the handler reads
   * `user.name` and `post.comments` inside its try block). `newId` is the id
   * the database gives the new comment.
   */
  method CommentOnPost(post: Post?, me: UserId, author: Option<Author>, text: string, newId: CommentId)
    returns (status: Status)
    modifies post
    ensures post == null ==> status == (if text == [] then BadRequest else ServerError)
    ensures post != null ==>
              && status == AddCommentStep(old(post.comments), me, author, text, newId).status
              && post.comments == AddCommentStep(old(post.comments), me, author, text, newId).after
              && post.likes == old(post.likes)
    ensures post != null && old(post.Valid()) && newId !in CommentIds(old(post.comments)) ==> post.Valid()
  {
    if text == [] {
      return BadRequest;
    }
    if author.None? || post == null {
      return ServerError;
    }
    if CommentIdsUnique(post.comments) && newId !in CommentIds(post.comments) {
      AddCommentKeepsIdsUnique(post.comments, me, author, text, newId);
    }
    var newComment := Comment(newId, me, text, author.value.name, author.value.avatar);
    post.comments := [newComment] + post.comments;
    status := Ok;
  }

  /**
   * DELETE comment/:post_id/:comment_id as the router does it. A missing
   * post answers 500; otherwise the rule is DeleteCommentStep, which removes
   * the requester's first comment rather than necessarily the requested one.
   */
  method DeleteComment(post: Post?, commentId: CommentId, me: UserId) returns (status: Status)
    modifies post
    ensures post == null ==> status == ServerError
    ensures post != null ==>
              && status == DeleteCommentStep(old(post.comments), commentId, me).status
              && post.comments == DeleteCommentStep(old(post.comments), commentId, me).after
              && post.likes == old(post.likes)
    ensures post != null && old(post.Valid()) ==> post.Valid()
  {
    if post == null {
      return ServerError;
    }
    var comment := FindComment(post.comments, commentId);
    if comment.None? {
      return NotFound;
    }
    if comment.value.user != me {
      return Unauthorized;
    }
    if CommentIdsUnique(post.comments) {
      DeleteCommentKeepsIdsUnique(post.comments, commentId, me);
    }
    var removeIndex := IndexOf(Commenters(post.comments), me);
    post.comments := Splice(post.comments, removeIndex);
    status := Ok;
  }

  /**
   * DELETE comment/:post_id/:comment_id as it is evidently meant to work:
   * the comment removed is the one found by its id.
   */
  method DeleteRequestedComment(post: Post?, commentId: CommentId, me: UserId) returns (status: Status)
    modifies post
    ensures post == null ==> status == ServerError
    ensures post != null ==>
              && status == DeleteRequestedCommentStep(old(post.comments), commentId, me).status
              && post.comments == DeleteRequestedCommentStep(old(post.comments), commentId, me).after
              && post.likes == old(post.likes)
    ensures post != null && old(post.Valid()) && status == Ok ==>
              && post.Valid()
              && (forall j :: 0 <= j < |post.comments| ==> post.comments[j].id != commentId)
              && multiset(post.comments) + multiset{FindComment(old(post.comments), commentId).value}
                 == multiset(old(post.comments))
  {
    if post == null {
      return ServerError;
    }
    var comment := FindComment(post.comments, commentId);
    if comment.None? {
      return NotFound;
    }
    if comment.value.user != me {
      return Unauthorized;
    }
    ghost var before := post.comments;
    if post.Valid() {
      DeleteRequestedCommentRemovesIt(before, commentId, me);
    }
    var removeIndex := IndexOf(CommentIds(post.comments), commentId);
    post.comments := Splice(post.comments, removeIndex);
    assert post.comments == DeleteRequestedCommentStep(before, commentId, me).after;
    status := Ok;
  }


  /**
   * DELETE /:id: 404 for an id that does not cast or names no post, 401 for
   * a post of someone else. The store is keyed by canonical ids, so the
   * lookup uses the canonical spelling of the request's id.
   */
  function DeletePostStatus(posts: map<PostId, Post>, id: PostId, me: UserId): (status: Status)
    ensures status == Ok || status == NotFound || status == Unauthorized
    ensures status == NotFound <==> !IsObjectId(id) || Canonical(id) !in posts
    ensures status == Unauthorized <==> IsObjectId(id) && Canonical(id) in posts && posts[Canonical(id)].owner != me
  {
    if !IsObjectId(id) then NotFound
    else if Canonical(id) !in posts then NotFound
    else if posts[Canonical(id)].owner != me then Unauthorized
    else Ok
  }

  /** The owner may delete a stored post whatever the letter case of the id they send. */
  lemma DeleteByUpperCaseId(p: Post)
    ensures DeletePostStatus(map["507f1f77bcf86cd799439011" := p], "507F1F77BCF86CD799439011", p.owner) == Ok
  {
    UpperCaseIdIsCanonicalised();
  }

  /** The upper-case spelling of an ObjectId is canonicalised to its lower-case spelling. */
  lemma UpperCaseIdIsCanonicalised()
    ensures IsObjectId("507F1F77BCF86CD799439011")
    ensures Canonical("507F1F77BCF86CD799439011") == "507f1f77bcf86cd799439011"
  {
    var upper, lower := "507F1F77BCF86CD799439011", "507f1f77bcf86cd799439011";
    ExampleIdsAreHex(upper, lower);
    ExampleIdsAgree(upper, lower);
    CanonicalOfCanonical(lower);
    CaseDoesNotMatter(upper, lower);
  }

  /** A step of `UpperCaseIdIsCanonicalised`: both spellings of the example id cast. */
  lemma ExampleIdsAreHex(upper: string, lower: string)
    requires upper == "507F1F77BCF86CD799439011" && lower == "507f1f77bcf86cd799439011"
    ensures IsObjectId(upper) && IsCanonicalId(lower)
  {
  }

  /** A step of `UpperCaseIdIsCanonicalised`: the two spellings agree digit by digit up to case. */
  lemma ExampleIdsAgree(upper: string, lower: string)
    requires upper == "507F1F77BCF86CD799439011" && lower == "507f1f77bcf86cd799439011"
    requires IsObjectId(upper) && IsCanonicalId(lower)
    ensures forall i :: 0 <= i < 24 ==> LowerHex(upper[i]) == LowerHex(lower[i])
  {
  }

  /** The posts collection, as far as get-by-id and delete see it, keyed by canonical id. */
  class PostStore {
    var posts: map<PostId, Post>

    /**
     * Every key is an ObjectId in the spelling it prints as, so every stored
     * post is found by its own key (see `GetPost`).
     */
    predicate Valid()
      reads this
    {
      forall id :: id in posts ==> IsCanonicalId(id)
    }

    constructor ()
      ensures posts == map[] && Valid()
    {
      posts := map[];
    }

    /** GET /:id: the post, or 404 for an id that does not cast or names no post. */
    method GetPost(id: PostId) returns (status: Status, post: Post?)
      ensures status == Ok || status == NotFound
      ensures status == Ok <==> IsObjectId(id) && Canonical(id) in posts
      ensures status == Ok ==> post == posts[Canonical(id)]
      ensures status == NotFound ==> post == null
      ensures Valid() && id in posts ==> status == Ok && post == posts[id]
    {
      if Valid() && id in posts {
        CanonicalOfCanonical(id);
      }
      if !IsObjectId(id) {
        return NotFound, null;
      }
      var key := Canonical(id);
      if key !in posts {
        return NotFound, null;
      }
      return Ok, posts[key];
    }

    /** DELETE /:id: only the post's owner removes it; every other post stays. */
    method DeletePost(id: PostId, me: UserId) returns (status: Status)
      modifies this
      ensures status == DeletePostStatus(old(posts), id, me)
      ensures status == Ok ==> Canonical(id) !in posts && posts == old(posts) - {Canonical(id)}
      ensures status != Ok ==> posts == old(posts)
      ensures old(Valid()) ==> Valid()
    {
      if !IsObjectId(id) {
        return NotFound;
      }
      var key := Canonical(id);
      if key !in posts {
        return NotFound;
      }
      var post := posts[key];
      if post.owner != me {
        return Unauthorized;
      }
      posts := posts - {key};
      status := Ok;
    }
  }
}
