# Content graph of a social-media backend, in Dafny

This project models the content graph of a Spring social-media backend:
- posts, which are public or private to their owner;
- comments on posts, with an optional parent comment;
- likes on posts and likes on comments.

It covers the operations of `PostService` and `CommentService`, the JPA entities `Post`, `Comment`, `PostLike` and `CommentLike`, and the four repositories they use.

The store is one class, `Store.SocialStore`. Its fields are the four tables:
- posts and comments, as maps from id to row;
- post likes and comment likes, as sequences of rows in insertion order.

It also holds the next identity value of each table and a creation clock. Each service operation that writes becomes a method that reassigns those fields. Each read-only operation becomes a function that `reads` the store. Every operation returns a `Result`:
- `NotFound` stands for `ResourceNotFoundException`;
- `Unauthorized` stands for `UnauthorizedException`;
- `InvalidArgument` stands for `IllegalArgumentException`.

Checks run in the source's order: the caller, then the entity, then the visibility or ownership gate, then anything else. A failing call changes nothing.

The gate has two forms:
- **View:** a post, and everything hanging off it, may be read, liked, commented on or replied to by anyone when it is public, and only by its owner otherwise.
- **Edit and delete:** allowed only to the author, whatever the visibility.

Ids and `createdAt` stamps are both issued in creation order. So the repositories' "order by createdAt" listings are the matching rows in increasing id order (comments, oldest first) or decreasing id order (posts, newest first).

The class invariant `Valid()` is `StoreInvariants.StoreOk`. It holds that:
- every row references an existing post, comment and user;
- a reply's parent is an older comment of the same post;
- ids and timestamps come from their counters;
- each like table has at most one row per (subject, user) and distinct ids.

Every method keeps the invariant. The module `StoreInvariants` proves this once per kind of write.

Modules:
- `Domain`: the rows, the error type and the gate predicates.
- `Seqs`: order-preserving filtering.
- `Likes`: one like table with the lookups, delete, cascade and toggle.
- `CommentQueries`: the comment repository's listings, counts and cascades.
- `PostQueries`: the post repository's listings and Spring's paging.
- `Views`: `PostResponse` and `CommentResponse` as seen by one viewer.
- `StoreInvariants`: the whole-store invariant and its preservation.
- `Store`: the class and the service operations.

Two behaviours of the code are worth naming:
- **Reply depth.** `createComment` accepts a parent that is itself a reply, so a thread can be any depth deep. Only the rendering goes one level deep: a comment's response lists its direct replies, and those carry no replies of their own.
- **Duplicate likes.** The code has no recovery from a duplicate-key race between two toggles. The model is sequential, so the unique key is an invariant that every toggle keeps.

## Model

| member | source | states |
|---|---|---|
| Domain.PrivateIsOwnerOnly | src/main/java/com/example/social_media_application/post/service/PostService.java:73-75 | The view gate: a public post is open to every viewer, and a private post to its owner and no one else. |
| Domain.OwnerGateIgnoresVisibility | src/main/java/com/example/social_media_application/post/service/PostService.java:87-89 | The ownership gate depends on the owner only, not on the visibility, and whoever passes it also passes the view gate. |
| Store.SocialStore.CreatePost | src/main/java/com/example/social_media_application/post/service/PostService.java:35-52 | An unknown caller gets NotFound and nothing changes. Otherwise exactly one post is added, under the next id, stamped with the current time and owned by the caller; a missing visibility makes it public. Every other table is untouched. The response shows 0 likes, 0 comments and not liked. The whole response is `mapToPostResponse` of the saved post. |
| Store.SocialStore.GetAllPosts | src/main/java/com/example/social_media_application/post/service/PostService.java:54-64 | NotFound for an unknown viewer, then InvalidArgument exactly for page < 0 or size < 1. Otherwise the page holds the viewer's feed (the public posts and the viewer's own, newest first) from entry page*size on, at most size of them and none past the end, each rendered by `mapToPostResponse`. So a page holds only posts the viewer may see, strictly newest first. The total is the number of posts the viewer may see. |
| Store.SocialStore.GetPostById | src/main/java/com/example/social_media_application/post/service/PostService.java:66-78 | NotFound, then NotFound, then Unauthorized, in that order. Succeeds exactly when the viewer passes the view gate. The response is `mapToPostResponse` of the stored post: all of its fields, its like count, its comment count (replies included), its likers and whether the viewer's like exists. |
| Store.SocialStore.UpdatePost | src/main/java/com/example/social_media_application/post/service/PostService.java:80-103 | Owner only, whatever the visibility; the same error order; nothing changes on error. Content is always replaced. The image and the visibility change only when supplied. The owner and createdAt stay, and no other table or counter moves. The response is `mapToPostResponse` of the updated post. |
| Store.SocialStore.DeletePost | src/main/java/com/example/social_media_application/post/service/PostService.java:105-118 | Owner only. The post goes, with every comment of the post (replies included), every like on the post and every like on those comments. Afterwards no comment or post like refers to the post. |
| Store.SocialStore.TogglePostLike | src/main/java/com/example/social_media_application/post/service/PostService.java:120-147 | Behind the view gate. The like table becomes its toggle, and only an added like consumes an id and a tick of the clock. The response's liked flag is the negation of the old one, and its count moves by exactly one. The whole response is `mapToPostResponse` of the post after the toggle. |
| Store.SocialStore.GetPostLikes | src/main/java/com/example/social_media_application/post/service/PostService.java:149-165 | Behind the view gate. The result holds exactly the users with a like on the post, one entry per like row. |
| Store.SocialStore.GetUserPosts | src/main/java/com/example/social_media_application/post/service/PostService.java:167-177 | NotFound, then InvalidArgument for a bad page request. Otherwise the page holds the caller's own posts, private ones included, newest first, from entry page*size on, at most size of them, each rendered for the caller. So a page holds only the caller's posts, strictly newest first. The total is the number of the caller's posts. |
| Store.ListingPageFacts | src/main/java/com/example/social_media_application/post/service/PostService.java:59-63 | A rendered page of a repository listing fails exactly on a bad page request. Otherwise entry i is the `mapToPostResponse` of listing row page*size + i, and the page has at most size entries and none past the end. Every entry is a matching post, newest first, and the total is the number of matching posts. |
| Store.ListingPageHoldsAll | src/main/java/com/example/social_media_application/post/service/PostService.java:59-61 | Every post a listing matches is rendered on one of its pages, whatever the page size. |
| Store.SocialStore.FeedHoldsEveryVisiblePost | src/main/java/com/example/social_media_application/post/service/PostService.java:59-61 | The feed misses nothing: every post the viewer may see, public or the viewer's own, is on one of the viewer's pages, whatever the page size. |
| Store.SocialStore.OwnPagesHoldEveryOwnPost | src/main/java/com/example/social_media_application/post/service/PostService.java:172-176 | "My posts" misses nothing: every post of the caller, private ones included, is on one of the caller's pages, whatever the page size. |
| Store.SocialStore.CreateComment | src/main/java/com/example/social_media_application/comment/service/CommentService.java:34-64 | The five checks in order: unknown caller (NotFound), missing post (NotFound), view gate (Unauthorized), missing parent (NotFound), parent of another post (InvalidArgument). Success exactly when all pass; nothing changes on error. On success exactly one comment is added, with the next id, the post, the caller, the parent and the current time. A parent that is itself a reply is accepted. The whole response is `mapToCommentResponse` of the saved comment. |
| Store.SocialStore.GetCommentsByPost | src/main/java/com/example/social_media_application/comment/service/CommentService.java:66-83 | Behind the view gate. Lists exactly the post's parentless comments, strictly oldest first. Each entry is that comment's response with its direct replies, as `mapToCommentResponseWithReplies` renders it. |
| Store.SocialStore.GetCommentById | src/main/java/com/example/social_media_application/comment/service/CommentService.java:85-98 | Behind the gate of the comment's post. The response is the comment's own response, like data included, with a replies list. That list holds exactly the stored direct replies, strictly oldest first, each rendered without replies of its own. |
| Store.SocialStore.UpdateComment | src/main/java/com/example/social_media_application/comment/service/CommentService.java:100-116 | Author only, with no visibility check. Only the comment's content changes; every other field, table and counter stays. The whole response is `mapToCommentResponse` of the edited comment. |
| Store.SocialStore.DeleteComment | src/main/java/com/example/social_media_application/comment/service/CommentService.java:118-131 | Author only. The comment goes with its replies at every depth and with every like on any of them; no other table changes. |
| Store.SocialStore.ToggleCommentLike | src/main/java/com/example/social_media_application/comment/service/CommentService.java:133-161 | Behind the gate of the comment's post. Like TogglePostLike, on the comment-like table: the toggle, the conditional id and clock, the flipped flag and the count moving by one. The whole response is `mapToCommentResponse` of the comment after the toggle. |
| Store.SocialStore.GetCommentLikes | src/main/java/com/example/social_media_application/comment/service/CommentService.java:163-180 | Behind the gate of the comment's post. Exactly the users with a like on the comment, one entry per like row. |
| Store.SocialStore.ReplyToComment | src/main/java/com/example/social_media_application/comment/service/CommentService.java:182-205 | NotFound, then NotFound for a missing parent, then the gate of the parent's post. The reply is added under the parent's post with the parent as its parent, so a reply's post always equals its parent's post. The whole response is `mapToCommentResponse` of the saved reply. |
| Store.SocialStore.GetReplies | src/main/java/com/example/social_media_application/comment/service/CommentService.java:207-224 | Behind the gate of the comment's post. Exactly the stored direct replies of the comment, strictly oldest first. Each entry is that reply's own response, like data included, without replies. |
| Store.SocialStore.SaveComment | src/main/java/com/example/social_media_application/comment/service/CommentService.java:53-63 | The save once the checks pass: one new row with the next id and the current time, which no row referred to. Its response has no likes and no replies. The whole response is `mapToCommentResponse` of the saved row. |
| Views.PostViewOf | src/main/java/com/example/social_media_application/post/service/PostService.java:189-209 | `mapToPostResponse`: the post's fields are copied; likedBy holds exactly the users whose like exists; likeCount is the length of likedBy; commentCount is the number of the post's comments, replies included; isLikedByCurrentUser holds iff the viewer is among the likers. likeCount is also the number of the post's like rows. |
| Views.CommentViewOf | src/main/java/com/example/social_media_application/comment/service/CommentService.java:241-261 | `mapToCommentResponse`: the comment's fields and parent id are copied; likedBy, likeCount and the liked flag are defined as for posts; replies is null. likeCount is also the number of the comment's like rows. |
| Views.CommentViewWithReplies | src/main/java/com/example/social_media_application/comment/service/CommentService.java:263-273 | The comment's own response, with replies set. |
| Views.RepliesAreDirectAndFlat | src/main/java/com/example/social_media_application/comment/service/CommentService.java:263-273 | The replies list holds one entry per stored direct reply and no other entry, oldest first. Each entry is that reply's own response, like data included, with replies null, so grandchildren are never shown. |
| Views.ThreadOf | src/main/java/com/example/social_media_application/comment/service/CommentService.java:77-82 | One entry per top-level comment, in the same order, each rendered with its replies. |
| Views.ThreadIsTopLevel | src/main/java/com/example/social_media_application/comment/service/CommentService.java:77-82 | The thread holds exactly the post's parentless comments, strictly oldest first. Each entry is that comment's response with its direct replies. |
| Likes.Find | src/main/java/com/example/social_media_application/post/repository/PostLikeRepository.java:14 | `findByPostAndUser` (and `findByCommentAndUser`): a row for the pair when one is stored, none otherwise. |
| Likes.FindIsTheOnlyRow | src/main/java/com/example/social_media_application/post/model/PostLike.java:14-19 | Under the unique (subject, user) key there is at most one row for a pair, and Find returns it. |
| Likes.Exists | src/main/java/com/example/social_media_application/comment/repository/CommentLikeRepository.java:15 | `existsByCommentAndUser` (and `existsByPostAndUser`) holds iff a row for the pair is stored. |
| Likes.OnSubject | src/main/java/com/example/social_media_application/comment/repository/CommentLikeRepository.java:16 | `findByComment` (and `findByPost`) returns exactly the rows of that subject. |
| Likes.Likers | src/main/java/com/example/social_media_application/post/service/PostService.java:192-194 | The likedBy list has one user per like row of the subject, and a user is in it iff that user's like exists. |
| Likes.LikeCountIsLikers | src/main/java/com/example/social_media_application/post/model/Post.java:61-64 | Under the unique key, the size of the like collection is the number of distinct users who like the subject. |
| Likes.DeletePair | src/main/java/com/example/social_media_application/post/repository/PostLikeRepository.java:17 | `deleteByPostAndUser` (and `deleteByCommentAndUser`): afterwards the pair has no like, every other row is still there, and no row is added. |
| Likes.DeletePairCount | src/main/java/com/example/social_media_application/comment/repository/CommentLikeRepository.java:17 | Deleting a stored pair lowers the subject's like count by exactly one. |
| Likes.DeletePairKeepsTable | src/main/java/com/example/social_media_application/comment/model/CommentLike.java:14-18 | Deleting a pair keeps both keys and every reference valid. |
| Likes.Restrict | src/main/java/com/example/social_media_application/post/model/Post.java:53-55 | The like cascade: exactly the rows whose subject survives stay. |
| Likes.RestrictKeepsTable | src/main/java/com/example/social_media_application/comment/model/Comment.java:57-59 | After the cascade, every remaining like refers to a surviving subject, and both keys hold. |
| Likes.Toggle | src/main/java/com/example/social_media_application/post/service/PostService.java:131-143 | The liked state of the pair flips and every other pair keeps its state. The only row that can appear is the new one, so no row is ever edited. |
| Likes.InsertAdds | src/main/java/com/example/social_media_application/post/service/PostService.java:137-141 | The save of a new like adds exactly the liked state of its pair, every other pair keeps its state, and the subject's count grows by one while every other subject's count stays. |
| Likes.ToggleKeepsTable | src/main/java/com/example/social_media_application/post/model/PostLike.java:14-19 | A toggle with a fresh id and timestamp keeps the unique (subject, user) key: there is never a second like for a pair. |
| Likes.ToggleCount | src/main/java/com/example/social_media_application/comment/service/CommentService.java:145-157 | An unlike lowers the subject's count by one; a like raises it by one. |
| Likes.ToggleTwice | src/main/java/com/example/social_media_application/comment/service/CommentService.java:145-157 | Two toggles by the same user restore the liked state of every pair and the count. Starting unliked, they restore the table exactly. Starting liked, the old row is replaced by one new row. |
| CommentQueries.SelectExact | src/main/java/com/example/social_media_application/comment/repository/CommentRepository.java:15-22 | A comment listing holds exactly the matching rows in range, each once, in strictly increasing id order. |
| CommentQueries.TopLevelExact | src/main/java/com/example/social_media_application/comment/repository/CommentRepository.java:16 | `findByPostAndParentCommentIsNullOrderByCreatedAtAsc` returns exactly the post's comments that are not replies, each once, oldest first. |
| CommentQueries.RepliesExact | src/main/java/com/example/social_media_application/comment/repository/CommentRepository.java:19 | `findByParentCommentOrderByCreatedAtAsc` returns exactly the direct replies of the comment, each once, oldest first. |
| CommentQueries.OfPostExact | src/main/java/com/example/social_media_application/comment/repository/CommentRepository.java:22 | `findByPostOrderByCreatedAtAsc` returns exactly the post's comments, replies included, each once, oldest first. |
| CommentQueries.IsReplyPlacesComment | src/main/java/com/example/social_media_application/comment/model/Comment.java:66-69 | `isReply` decides where a comment is listed: a comment that is not a reply is in its post's top-level listing; a reply is not, and is in its parent's replies instead. |
| CommentQueries.SelectOldestFirst | src/main/java/com/example/social_media_application/comment/repository/CommentRepository.java:16-19 | Every comment listing is ordered by createdAt ascending. |
| CommentQueries.TopLevelWithinOfPost | src/main/java/com/example/social_media_application/comment/repository/CommentRepository.java:15-22 | The top-level listing is the all-for-post listing with the replies filtered out, in the same order. |
| CommentQueries.SelectCount | src/main/java/com/example/social_media_application/comment/repository/CommentRepository.java:21-26 | The all-for-post listing has one entry per comment of the post in range. |
| CommentQueries.CountByPostIsCommentCount | src/main/java/com/example/social_media_application/comment/repository/CommentRepository.java:24-26 | `countByPost` equals `Post.getCommentCount`, the size of the post's comment collection. That collection is every stored comment whose post it is, replies included. |
| CommentQueries.AddKeepsTable | src/main/java/com/example/social_media_application/comment/service/CommentService.java:53-60 | A new comment with the next id and the current time, whose parent is a stored comment of the same post, keeps the comment table sound. |
| CommentQueries.EditKeepsTable | src/main/java/com/example/social_media_application/comment/service/CommentService.java:111-112 | Changing a comment's content keeps the table sound. |
| CommentQueries.RemoveSubtree | src/main/java/com/example/social_media_application/comment/model/Comment.java:42-44 | Deleting a comment: the root is gone, and every remaining row is unchanged. |
| CommentQueries.RemoveSubtreeIsCascade | src/main/java/com/example/social_media_application/comment/model/Comment.java:42-44 | Exactly the root and its replies at every depth are removed. No reply survives its parent, and every removed row is the root or a reply to a removed row. |
| CommentQueries.RemoveSubtreeKeepsTable | src/main/java/com/example/social_media_application/comment/service/CommentService.java:129 | After the cascade, no comment refers to a missing parent. |
| CommentQueries.RemovePostComments | src/main/java/com/example/social_media_application/post/model/Post.java:57-59 | Deleting a post removes exactly its comments, replies included, and leaves the others unchanged. |
| CommentQueries.RemovePostCommentsKeepsTable | src/main/java/com/example/social_media_application/post/service/PostService.java:116 | After the post cascade, the remaining comments refer only to remaining posts and parents. |
| PostQueries.NewestFirstSound | src/main/java/com/example/social_media_application/post/repository/PostRepository.java:15-17 | A post listing holds only stored rows that match its query. |
| PostQueries.NewestFirstComplete | src/main/java/com/example/social_media_application/post/repository/PostRepository.java:15-17 | A post listing holds every stored row that matches its query. |
| PostQueries.NewestFirstDescending | src/main/java/com/example/social_media_application/post/repository/PostRepository.java:16 | A post listing is in strictly decreasing id order, so it holds no row twice. |
| PostQueries.NewestFirstExact | src/main/java/com/example/social_media_application/post/repository/PostRepository.java:15-23 | Each of `findAllVisiblePosts`, `findByUserOrderByCreatedAtDesc` and `findByIsPublicTrueOrderByCreatedAtDesc` holds exactly the posts its condition matches, each once, in strictly decreasing id order. |
| PostQueries.NewestFirstIsByCreatedAt | src/main/java/com/example/social_media_application/post/repository/PostRepository.java:16-23 | Every post listing is ordered by createdAt descending. |
| PostQueries.NewestFirstCount | src/main/java/com/example/social_media_application/post/repository/PostRepository.java:17 | A listing's length is the number of matching posts, which a page reports as its total. |
| PostQueries.NarrowerIsFilter | src/main/java/com/example/social_media_application/post/repository/PostRepository.java:16-23 | A listing whose condition is a wider one's plus a filter is the wider listing with that filter applied, in the same order. |
| PostQueries.PublicWithinVisible | src/main/java/com/example/social_media_application/post/repository/PostRepository.java:22-23 | `findByIsPublicTrueOrderByCreatedAtDesc` is, for any user, that user's visible listing with private posts taken out. So every public post is in every feed. |
| PostQueries.OwnWithinVisible | src/main/java/com/example/social_media_application/post/repository/PostRepository.java:19-20 | A user's own listing is the user's feed with other users' posts taken out. So the feed holds all of the user's posts. |
| PostQueries.Paged | src/main/java/com/example/social_media_application/post/service/PostService.java:59 | `PageRequest.of(page, size)` fails exactly for page < 0 or size < 1. The page holds rows page*size onward, at most size of them, and is empty past the end. The total is the whole listing's length. |
| PostQueries.PageLocates | src/main/java/com/example/social_media_application/post/service/PostService.java:59-61 | Row k of a listing is entry k % size of page k / size. |
| PostQueries.PageKeepsOrder | src/main/java/com/example/social_media_application/post/service/PostService.java:59-61 | A page of a newest-first listing is newest first and holds only rows of the listing. |
| PostQueries.ListingComplete | src/main/java/com/example/social_media_application/post/service/PostService.java:59-61 | Every matching post is on some page, whatever the page size. |
| PostQueries.AddKeepsTable | src/main/java/com/example/social_media_application/post/service/PostService.java:41-48 | A new post with the next id, the current time and an existing owner keeps the post table sound. |
| PostQueries.EditKeepsTable | src/main/java/com/example/social_media_application/post/service/PostService.java:91-99 | Editing a post without touching its owner or createdAt keeps the table sound. |
| PostQueries.RemoveKeepsTable | src/main/java/com/example/social_media_application/post/service/PostService.java:116 | Removing a post keeps the table sound. |
| StoreInvariants.FreshIdsUnused | src/main/java/com/example/social_media_application/post/model/Post.java:27-29 | The next post id and comment id are unused, and no comment or like refers to them. |
| StoreInvariants.AddPostKeeps | src/main/java/com/example/social_media_application/post/service/PostService.java:41-48 | Saving a new post keeps the whole store consistent. |
| StoreInvariants.EditPostKeeps | src/main/java/com/example/social_media_application/post/service/PostService.java:91-99 | Editing a post keeps the whole store consistent. |
| StoreInvariants.DeletePostKeeps | src/main/java/com/example/social_media_application/post/model/Post.java:53-59 | The post cascade leaves no dangling comment or like anywhere in the store. |
| StoreInvariants.AddCommentKeeps | src/main/java/com/example/social_media_application/comment/service/CommentService.java:53-60 | Saving a new comment keeps the whole store consistent. |
| StoreInvariants.EditCommentKeeps | src/main/java/com/example/social_media_application/comment/service/CommentService.java:111-112 | Editing a comment keeps the whole store consistent. |
| StoreInvariants.DeleteCommentKeeps | src/main/java/com/example/social_media_application/comment/model/Comment.java:42-44 | The comment cascade leaves no dangling reply or comment like. |
| StoreInvariants.TogglePostLikeKeeps | src/main/java/com/example/social_media_application/post/service/PostService.java:131-143 | The post-like toggle, with its conditional counters, keeps the whole store consistent, including the unique key. |
| StoreInvariants.ToggleCommentLikeKeeps | src/main/java/com/example/social_media_application/comment/service/CommentService.java:145-157 | The same for the comment-like toggle. |

## Left out

- **Identity and sessions.** Authentication, tokens and the lookup by e-mail are not modelled. A caller is a user id, and an id outside the registered set takes the `NotFound` path that `getUserByEmail` takes. Registration is not modelled: the set of users is fixed when the store is built.
- **HTTP controllers.** Routing, status codes, logging and bean validation (`@NotBlank`) are not modelled.
- **User profiles in responses.** `mapToUserResponse` only copies profile fields, so a response names a user by id.
- **`updatedAt`.** It is a Hibernate timestamp with no behaviour, so it is omitted.
- **`createdAt`.** It is a creation counter rather than a wall-clock time.
- **Spring's `Page` metadata.** Only the content and the total number of elements are modelled.
- **Concurrency and transactions.** Each operation is modelled as one atomic step over one store. The database's unique constraint is modelled as an invariant that every operation keeps; its behaviour under a race is not modelled.
- **Hibernate persistence-context behaviour.** This covers lazy loading and whether the entity re-fetched after a toggle sees the new like. Counts are derived from the tables after the write.
- **Integer widths.** Ids are Java `Long`, `page` and `size` are `int`, and the counts in a response are `Integer`. The model uses unbounded integers, so it has no overflow: `page * size` never wraps, and it returns a page however large that product is.
- **Order of `likedBy`.** `findByPost` and `findByComment` have no order clause. The model lists likers in insertion order; a database may return them in another order.
- Views.PostViewOf: `commentCount` is stated as the size of the post's comment collection. In the source it is the size of a lazily loaded Hibernate set, taken here to equal what is stored.
- `findByIsPublicTrueOrderByCreatedAtDesc`: no service calls it. It is modelled as a listing query (`PostQueries.PublicWithinVisible`), not as an operation of the store.
