# Posts router of DevConnector, modelled in Dafny

DevConnector is a small social network built on an Express/Mongoose REST API.
This project models the part of its posts router (`routes/api/posts.js`) that
goes beyond plumbing. Each handler there loads one post document, checks
existence and ownership, and then changes one of the post's two embedded
arrays in place:

- `PUT like/:id` refuses a second like from the same user with 400. Otherwise it `unshift`s `{ user }` onto `post.likes`.
- `PUT unlike/:id` refuses a user without a like with 400. Otherwise it `splice`s out the like at `likes.map(user).indexOf(me)`.
- `POST comment/:id` answers 400 for empty text. Otherwise it `unshift`s a comment that carries the requester's id, name and avatar.
- `DELETE comment/:post_id/:comment_id` finds the comment by id and answers 404 when there is none. It answers 401 when that comment belongs to someone else. Otherwise it `splice`s out the comment at `comments.map(user).indexOf(me)`.
- `DELETE /:id` answers 404 for an unknown or malformed id and 401 for a post of someone else. Otherwise it removes the post. Any spelling of the post's ObjectId finds it.
- `GET /:id` answers 404 for an unknown or malformed id. Otherwise it returns the post.

The project has four modules:

- `JsArray` (`js_array.dfy`) states the JavaScript built-ins the handlers use on sequences. These are `filter(...).length` (`Count`), `indexOf` (`IndexOf`, which gives -1 when the element is absent) and `splice(start, 1)` (`Splice`). `Splice` follows JavaScript for a negative or out-of-range start.
- `Posts` (`posts.dfy`) holds the sub-documents (`Like`, `Comment`). It gives one function per handler, for example `LikeStep(likes, me)`. Each such function returns the HTTP status and the array the handler leaves on the post. The module also holds the lemmas about these functions.
- `ObjectIds` (`object_ids.dfy`) states which id strings cast to an ObjectId and the canonical spelling (`Canonical`) that every castable string stands for.
- `PostsRouter` (`posts_router.dfy`) holds the `Post` class, whose `likes` and `comments` fields the handlers reassign, and the handler methods. Each method is proved to follow the rule of its `Posts` function. It also holds a `PostStore` class for get-by-id and delete: a map from canonical post id to `Post`.

A handler that works on one post receives the result of `findById` as a `Post?`. `null` there means that no post was found or that the lookup threw. The like, unlike, comment and delete-comment handlers dereference the post inside their `try` block, so a missing post answers 500 (`ServerError`) there, not 404. A missing post answers 404 only in get-by-id and delete-post.

For get-by-id and delete-post, a malformed id makes `findById` throw a cast error of kind `ObjectId`, and the handler answers 404. `IsObjectId` models which strings cast: 12 characters, or 24 hex digits. That rule belongs to the ObjectId library, not to this repository. A string that casts is looked up as the ObjectId it denotes, not as text. So the 24-digit form matches in either letter case, and a 12-character string matches the ObjectId with those 12 bytes. The model keys `PostStore` by the 24 lower-case hex digits an ObjectId prints as, and looks a request up by `Canonical(id)`.

## Model

| member | source | states |
|---|---|---|
| `JsArray.Count` | routes/api/posts.js:139 | `filter(like => like.user === me).length` is at most the length, and it is 0 exactly when `me` does not occur |
| `JsArray.IndexOf` | routes/api/posts.js:183 | `indexOf` gives -1 exactly when the element is absent; otherwise it gives a position holding it with no earlier occurrence |
| `JsArray.Splice` | routes/api/posts.js:186 | `splice(start, 1)` removes exactly the element at `start` when `start` is in range and nothing when it is past the end. A start of -1 would remove the last element, which is why the handlers must never pass a failed `indexOf` |
| `JsArray.RemoveAt` | routes/api/posts.js:264 | removing position `k` leaves one element fewer. The elements before `k` stay in place, the later ones shift down by one, and the multiset loses exactly that element |
| `JsArray.CountRemoveAt` | routes/api/posts.js:186 | removing one element lowers that element's count by one and leaves every other count unchanged |
| `JsArray.CountUnshift` | routes/api/posts.js:148 | `unshift(x)` raises the count of `x` by one and leaves every other count unchanged |
| `Posts.Likers` | routes/api/posts.js:183 | `likes.map(like => like.user)` has the same length and holds the user of each like, position by position |
| `Posts.Commenters` | routes/api/posts.js:261 | `comments.map(comment => comment.user)` has the same length and holds the user of each comment, position by position |
| `Posts.CommentIds` | routes/api/posts.js:249 | the ids of the comments, position by position |
| `Posts.FindComment` | routes/api/posts.js:249 | `find` by id gives nothing exactly when no comment has the id. Otherwise it gives the first comment of the list with that id: no earlier comment has it |
| `Posts.LikeStep` | routes/api/posts.js:139-148 | a like answers 400 exactly when some like of the post is the requester's, and then `likes` is unchanged. Otherwise it answers 200 and the requester's like is at index 0, with the old likes after it in order |
| `Posts.UnlikeStep` | routes/api/posts.js:173-186 | an unlike answers 400 exactly when no like is the requester's, and then `likes` is unchanged. Otherwise it answers 200 and removes exactly the first like whose user is the requester. The result is one shorter and the other likes keep their order |
| `Posts.LikeKeepsLikesUnique` | routes/api/posts.js:139-148 | if no user appears twice in `likes`, none does after a like, and the requester then appears exactly once (whether the like succeeded or was refused) |
| `Posts.LikersUniqueCount` | routes/api/posts.js:139 | in likes without repeats, the `filter(...).length` of a user who has liked is exactly 1 |
| `Posts.UnlikeKeepsLikesUnique` | routes/api/posts.js:173-186 | if no user appears twice in `likes`, none does after an unlike, and the requester then has no like left |
| `Posts.UnlikeDropsOneLike` | routes/api/posts.js:183-186 | for any likes, a successful unlike lowers the requester's like count by exactly one and leaves every other user's count unchanged |
| `Posts.LikeThenUnlike` | routes/api/posts.js:139-186 | for a requester without a like, a like succeeds and the following unlike succeeds and restores the old likes exactly |
| `Posts.UnlikeThenLike` | routes/api/posts.js:139-186 | for likes without repeats that include the requester, an unlike and then a like succeed. The result holds the same likes (as a multiset), with the requester's like first |
| `Posts.AddCommentStep` | routes/api/posts.js:206-225 | a comment answers 400 exactly when the text is empty, and 500 exactly when the text is non-empty and the requester's User document is missing. In both cases `comments` is unchanged. Otherwise the new comment has the new id, the requester's id, the text and the requester's name and avatar; it is at index 0, with the old comments after it unchanged |
| `Posts.AddCommentKeepsIdsUnique` | routes/api/posts.js:222-225 | a comment with a fresh id keeps comment ids distinct |
| `Posts.DeleteCommentStep` | routes/api/posts.js:249-264 | deleting a comment answers 404 exactly when no comment has the id, and 401 exactly when the comment found by that id belongs to someone else. In both cases `comments` is unchanged. Otherwise it answers 200 and removes exactly the first comment whose user is the requester. The result is one shorter and the other comments keep their order |
| `Posts.DeleteCommentKeepsIdsUnique` | routes/api/posts.js:261-264 | the router's comment deletion keeps comment ids distinct |
| `Posts.FirstCommentByRequester` | routes/api/posts.js:249-261 | when a deletion succeeds, the requester's first comment (the one spliced out) lies at or before the requested comment. It lies at the requested comment exactly when no earlier comment is the requester's |
| `Posts.DeleteCommentRemovesRequestedIff` | routes/api/posts.js:249-264 | with distinct comment ids, a successful deletion removes the requested comment exactly when that comment is the requester's earliest comment in the list; otherwise the requested comment survives |
| `Posts.RemoveAtKeepsOthers` | routes/api/posts.js:264 | with distinct ids, splicing out position `k` loses the comment at position `i` exactly when `i` is `k` |
| `Posts.DeleteCommentAgreesIff` | routes/api/posts.js:249-264 | with distinct comment ids, the router's deletion and the corrected deletion give the same outcome exactly when the requested comment is the requester's earliest |
| `Posts.DeleteCommentRemovesWrongComment` | routes/api/posts.js:261-264 | a concrete input: user `u` has comments `a` (newer) and `b`. Asking to delete `b` answers 200, removes `a` and keeps `b` |
| `Posts.DeleteRequestedCommentStep` | routes/api/posts.js:249-264 | the corrected deletion answers the same statuses as the router. On 200 it removes exactly the first comment with the requested id, which belongs to the requester |
| `Posts.DeleteRequestedCommentRemovesIt` | routes/api/posts.js:249-264 | with distinct comment ids, when the requested comment exists and is the requester's, the corrected deletion answers 200. It leaves no comment with the requested id and loses nothing else (as a multiset). Ids stay distinct |
| `Posts.RemoveAtKeepsIdsUnique` | routes/api/posts.js:264 | splicing one comment out keeps ids distinct, and the removed comment's id no longer occurs |
| `Posts.AddThenDeleteComment` | routes/api/posts.js:225-264 | a comment just added can be deleted by its own author and id. Both the router's and the corrected deletion answer 200 and restore the old comments |
| `PostsRouter.LikePost` | routes/api/posts.js:132-160 | the like handler answers 500 for a missing post. Otherwise it answers and updates `likes` as `LikeStep` does, leaves `comments` alone and keeps the post's invariant |
| `PostsRouter.UnlikePost` | routes/api/posts.js:166-198 | the unlike handler answers 500 for a missing post. Otherwise it answers and updates `likes` as `UnlikeStep` does, leaves `comments` alone and keeps the post's invariant |
| `PostsRouter.CommentOnPost` | routes/api/posts.js:204-237 | the comment handler answers 400 for empty text even when the post is missing, and otherwise 500 for a missing post. Otherwise it follows `AddCommentStep`, leaves `likes` alone and keeps the invariant when the new id is fresh |
| `PostsRouter.DeleteComment` | routes/api/posts.js:243-276 | the delete-comment handler answers 500 for a missing post. Otherwise it follows `DeleteCommentStep`, leaves `likes` alone and keeps the post's invariant |
| `PostsRouter.DeleteRequestedComment` | routes/api/posts.js:243-276 | the corrected handler follows `DeleteRequestedCommentStep`. On 200, for a valid post, the requested id is gone and the multiset of comments lost exactly the found comment |
| `ObjectIds.LowerHex` | routes/api/posts.js:73 | a hex digit's lower-case form is a lower-case hex digit; a lower-case digit stays as it is and `A`-`F` move to `a`-`f` |
| `ObjectIds.LowerCase` | routes/api/posts.js:73 | lower-casing a string of hex digits keeps its length and lower-cases each digit in place |
| `ObjectIds.HexOfBytes` | routes/api/posts.js:73 | the hex encoding of a byte string is twice as long and made only of lower-case hex digits ; position `2i` holds the high hex digit and position `2i + 1` the low hex digit of byte `i` |
| `ObjectIds.HexDigitInjective` | routes/api/posts.js:73 | distinct values below 16 get distinct hex digits |
| `ObjectIds.HexOfBytesInjective` | routes/api/posts.js:73 | two byte strings of one length have the same hex encoding exactly when they hold the same bytes |
| `ObjectIds.SameBytesSameObjectId` | routes/api/posts.js:73 | two 12-character ids denote the same ObjectId exactly when their characters agree byte by byte |
| `ObjectIds.Canonical` | routes/api/posts.js:73 | the ObjectId that a castable id denotes, written as 24 lower-case hex digits: the 24-digit form lower-cased digit by digit, or the hex encoding of the 12-byte form |
| `ObjectIds.CanonicalIsFixedPoint` | routes/api/posts.js:73 | a canonical spelling casts again and canonicalising it a second time changes nothing |
| `ObjectIds.CanonicalOfCanonical` | routes/api/posts.js:73 | an id already written as 24 lower-case hex digits casts and is its own canonical spelling |
| `ObjectIds.CaseDoesNotMatter` | routes/api/posts.js:73 | two 24-digit ids that agree up to letter case denote the same ObjectId |
| `PostsRouter.DeletePostStatus` | routes/api/posts.js:100-122 | deleting a post answers 404 exactly when the id does not cast or its ObjectId names no post, and 401 exactly when that post belongs to someone else. Otherwise it answers 200 |
| `PostsRouter.UpperCaseIdIsCanonicalised` | routes/api/posts.js:100 | the upper-case spelling `507F1F77BCF86CD799439011` casts and denotes the same ObjectId as `507f1f77bcf86cd799439011` |
| `PostsRouter.DeleteByUpperCaseId` | routes/api/posts.js:100-116 | the owner of the post stored under `507f1f77bcf86cd799439011` who asks to delete `507F1F77BCF86CD799439011` gets 200 |
| `PostsRouter.PostStore.GetPost` | routes/api/posts.js:73-87 | get-by-id answers 200 with the stored post exactly when the id casts and its ObjectId names a post. Otherwise it answers 404 with no post. In a store keyed by canonical ids, every stored post is found by its own key |
| `PostsRouter.PostStore.DeletePost` | routes/api/posts.js:100-122 | delete-post answers `DeletePostStatus`. On 200 exactly the post with that ObjectId is removed from the collection; on any other status the collection is unchanged. Canonical keys stay canonical |

## Findings

| source | as written | input that shows it | evidently intended | confidence | as-written member | corrected member |
|---|---|---|---|---|---|---|
| routes/api/posts.js:261-264 | the comment spliced out is at `comments.map(c => c.user).indexOf(me)`, the requester's first comment | comments `[a by u, b by u]` (newest first); `u` deletes `b`: 200, `a` is removed and `b` stays | remove the comment whose id was requested and checked at lines 249-258 | high; not executed | `Posts.DeleteCommentRemovesWrongComment` | `Posts.DeleteRequestedCommentRemovesIt` |

`Posts.DeleteCommentStep` and `PostsRouter.DeleteComment` model the code as written. `Posts.DeleteRequestedCommentStep` and `PostsRouter.DeleteRequestedComment` are the corrected rule and handler. `Posts.DeleteCommentAgreesIff` shows that the two differ exactly when the requester has an earlier comment than the requested one.

## Left out

- Creating a post (`POST /`, lines 13-42) and listing all posts (`GET /`, lines 48-64) are not modelled. They are one database insert and one sorted query, with no list logic of their own.
- Persistence is not modelled. This covers `findById`, `save` and `remove`: `findById` is the caller's `Post?` (or the `PostStore` map), and `remove` is taking the id out of the map. A failing `save` (500) is not modelled.
- Response bodies (`res.json(post.likes)`, the `msg` objects) are not modelled. Only statuses and the resulting post state are.
- In the like, unlike, comment and delete-comment handlers, a malformed post id makes `findById` throw. That gives 500 just as a missing post does, so both are the `null` post.
- Authentication (`middleware/auth.js`, a call into `jsonwebtoken`) is not modelled. The requester's id `me` is an input. The express-validator check is reduced to "text is non-empty".
- The ids the database generates for new comments are an input (`newId`) to `CommentOnPost`. Distinct comment ids are assumed by the lemmas that need them, and likes' own `_id`s are not modelled.
- `ObjectIds.HexOfBytes` keeps the low eight bits of each character of a 12-character id. Which bytes a non-ASCII 12-character id stands for depends on the ObjectId library's version, and newer versions reject it. That difference is not modelled.
- Dates, the post's own text, name and avatar, `console.log`, and async/await are not modelled.
