# Yatube content store, modelled in Dafny

Yatube is a small blogging site. Users write posts, may file a post under a group, comment on
posts and follow other authors. Almost everything in it is web-framework machinery: the ORM,
forms, the paginator, authentication and templates. This project models the thin layer the
application defines itself, as an in-memory content store:

- the four records (`Group`, `Post`, `Comment`, `Follow`), their display strings and the
  constraints they declare (`wrappers.dfy`, `models.dfy`):
  - a group's slug is unique;
  - a (user, author) follow edge is unique;
  - a comment's text is at most 5000 characters;
  - posts are ordered newest first;
  - deleting a group sets its posts' group to null, and deleting a post deletes its comments;
- the two input forms and what saving them does to a post (`forms.dfy`);
- the follow/unfollow state machine as pure transition functions (`follows.dfy`);
- the read-only handlers as functions (`queries.dfy`):
  - the main listing, the group page, the profile, the post page and the follow feed;
  - each is a filter over the newest-first posts, cut into a page (`pagination.dfy`);
- the handlers that change the store (`store.dfy`):
  - `post_create`, `post_edit`, `add_comment`, `profile_follow` and `profile_unfollow`;
  - group creation and the two deletions that the foreign keys govern;
  - each is a method of the class `ContentStore`, with its own response;
  - the class invariant `Valid` gathers the declared constraints and referential integrity, plus
    one rule no declaration states: nobody follows themselves, which holds only because
    `profile_follow` refuses that edge (`yatube/posts/views.py:127`).

Modelling choices:

- A user is its username. `login_required` becomes an `actor: Option<User>`: `None` answers
  `RedirectToLogin(route)` and changes nothing. A logged-in actor is required to be a registered
  user.
- `get_object_or_404` becomes the `NotFound` response.
- Responses are `Render(view)`, `Redirect(route)`, `RedirectToLogin(route)` or `NotFound`.
  Templates, URLs and the constant strings of the context are not modelled.
- Form validation is split in two parts:
  - the constraints the records declare are explicit: text required, comment length at most
    5000, and a chosen group must exist;
  - everything else the framework validates (the picture payload) is an
    opaque `fieldsValid` flag;
  - every text in a form stands for the cleaned value: the framework strips surrounding
    whitespace before it checks the length, and stores the stripped text;
  - an unbound form (a GET request) is an invalid one.
- The database orders posts at query time. The model instead keeps the post rows newest first at
  all times: a new post is inserted before the first post that is not newer. Every listing is
  then an order-preserving filter. Among posts with the same date, the later one comes first;
  the database leaves such ties unordered.
- `pub_date` and `created` are supplied numbers, not clock readings. Primary keys come from
  counters in the store.
- `PER_PAGE` lives in a settings file that is not part of this model. It is taken to be 10, as
  the comment at `yatube/posts/views.py:13` says. The pagination lemmas take the page size as a
  parameter and hold for any positive size, except `Pagination.OneMoreThanAPage`, which needs a
  size of at least 2 (10 is one).
- `get_page` follows the framework's documented behaviour:
  - a missing or non-numeric page number gives page 1;
  - an out-of-range one gives the last page;
  - an empty listing has one empty page.

## Model

| member | source | states |
|---|---|---|
| `Models.PostStr` | yatube/posts/models.py:48-50 | a post shows as a prefix of its text of length min(15, length of the text) |
| `Models.GroupStrIsTitle` | yatube/posts/models.py:13-14 | a group shows as its title |
| `Models.CommentStrIsText` | yatube/posts/models.py:68-69 | a comment shows as its text |
| `Models.InsertByDate` | yatube/posts/models.py:45-46 | storing a post adds exactly that post to the rows (a permutation of old rows plus the new one) |
| `Models.InsertByDateNewestFirst` | yatube/posts/models.py:45-46 | storing a post keeps the rows ordered by `pub_date` descending |
| `Models.FilterNewestFirst` | yatube/posts/models.py:45-46 | every filtered listing of newest-first rows is newest first |
| `Models.FindPost` | yatube/posts/views.py:63 | lookup by key misses exactly when no post has that key, and otherwise returns the stored post with it |
| `Models.FindGroupBySlug` | yatube/posts/views.py:30 | lookup by slug misses exactly when no group has that slug, and otherwise returns a stored group with it |
| `Models.DetachPost` | yatube/posts/models.py:30-38 | a post of a deleted group keeps every field but `group`, which becomes null; a post of another group is unchanged |
| `Models.DetachGroup` | yatube/posts/models.py:30-38 | deleting a group keeps every post in place, each detached from that group |
| `Models.DeleteGroupKeepsPosts` | yatube/posts/models.py:30-35 | after a group is deleted, the same post keys remain, none is in that group, each former member survives with a null group, and the order is kept |
| `Models.CommentsWithout` | yatube/posts/models.py:54-58 | deleting a post leaves exactly the comments on other posts |
| `Models.CascadeKeepsOtherComments` | yatube/posts/models.py:54-58 | the cascade leaves every other post's comment list unchanged, order included, and leaves none on the deleted post |
| `Models.CommentsOf` | yatube/posts/views.py:65 | a post's comments are exactly the stored comments that point to it, each listed once when the stored keys are unique |
| `Pagination.NumPages` | yatube/posts/views.py:15 | the page count is the least n with n pages covering the listing, and 1 for an empty listing |
| `Pagination.PageNumber` | yatube/posts/views.py:18-19 | the page served is always in range and is the requested one when that is in range |
| `Pagination.PageNumberClamps` | yatube/posts/views.py:18-19 | an absent or non-numeric page number gives page 1; an out-of-range one gives the last page |
| `Pagination.PageItems` | yatube/posts/views.py:19 | a page is a contiguous slice of the listing of at most the page size |
| `Pagination.GetPage` | yatube/posts/views.py:15-19 | the page served is the clamped request, its items are exactly that page's slice of the listing (at most the page size, only items of the listing) |
| `Pagination.FullPages` | yatube/posts/tests/test_views.py:151-153 | every page before the last is full |
| `Pagination.LastPageSize` | yatube/posts/tests/test_views.py:155-159 | the last page holds the listing's length modulo the page size, or a full page when that is 0 |
| `Pagination.PagesCoverListing` | yatube/posts/views.py:15-19 | the pages read one after the other are exactly the listing |
| `Pagination.OneMoreThanAPage` | yatube/posts/tests/test_views.py:151-159 | with one post more than a page of at least two (PER_PAGE = 10 is one), page 1 is full and page 2 holds the count modulo the page size |
| `Follows.Followed` | yatube/posts/views.py:125-130 | following adds the edge exactly when the author is someone else and the edge is absent; the count grows by one then, and stays the same otherwise; uniqueness is kept |
| `Follows.Unfollowed` | yatube/posts/views.py:137-142 | unfollowing removes the edge exactly when the author is someone else and the edge is present; nothing else changes; uniqueness is kept |
| `Follows.UnfollowCount` | yatube/posts/views.py:137-142 | with unique edges, a successful unfollow removes exactly one row and any other unfollow removes none |
| `Follows.FollowIdempotent` | yatube/posts/models.py:84-89 | following twice equals following once, the edge is then present exactly once, and following oneself changes nothing |
| `Follows.FollowUnfollowRoundTrip` | yatube/posts/tests/test_views.py:229-247 | from a table without the edge, follow then unfollow restores the table: +1 row, then -1 |
| `Follows.UnfollowAbsentIsNoOp` | yatube/posts/views.py:141 | unfollowing an author who is not followed, or oneself, leaves the table unchanged |
| `Follows.NoSelfFollowsPreserved` | yatube/posts/views.py:129-130 | neither handler ever creates a self-edge |
| `Forms.NewPost` | yatube/posts/views.py:77-80 | a created post carries the form's text and group, the requesting user as author, the next key and the given date; its picture is the uploaded file's name, or empty when none was uploaded |
| `Forms.ApplyEdit` | yatube/posts/forms.py:13 | saving an edit form changes only `text`, `group` and `image`; key, author and date stay; an empty picture field keeps the picture, clearing it empties it, and an upload replaces it |
| `Queries.AuthorPosts` | yatube/posts/views.py:49 | the author's list is exactly the stored posts by that author, newest first |
| `Queries.Feed` | yatube/posts/views.py:114 | the feed is exactly the stored posts whose author the user follows, newest first, each listed once when the stored keys are unique |
| `Queries.Index` | yatube/posts/views.py:10-25 | the main page shows the first PER_PAGE posts (all of them when fewer) and the requested page of all posts, newest first |
| `Queries.GroupPosts` | yatube/posts/views.py:28-44 | the group page is a 404 exactly when no group has the slug; otherwise it names that group and shows a page of size 2 of ALL posts |
| `Queries.GroupPostsFiltered` | yatube/posts/views.py:28-44 | the corrected group page: same 404 rule, and its page holds only posts of that group |
| `Queries.GroupPageShowsOtherGroups` | yatube/posts/views.py:34-35 | as written, group "a"'s page lists a post that belongs to group "b"; the corrected page lists nothing |
| `Queries.Profile` | yatube/posts/views.py:47-59 | the profile is a 404 exactly for an unknown user; otherwise it lists exactly that author's posts, newest first, without duplicates, `post_number` is their count, and the page is cut from that list |
| `Queries.PostDetail` | yatube/posts/views.py:62-71 | the post page is a 404 exactly for an unknown key; otherwise it shows that post and exactly its comments (`CommentsOf`), each once when the stored keys are unique |
| `Queries.FollowIndex` | yatube/posts/views.py:112-119 | the feed page asks for login when nobody is logged in, and otherwise shows a page of the user's feed |
| `Queries.FeedAfterFollow` | yatube/posts/tests/test_views.py:249-261 | after following an author, each of that author's posts is in the follower's feed |
| `Queries.FeedAfterUnfollow` | yatube/posts/views.py:142 | after unfollowing an author, no post of that author is in the feed |
| `Queries.FeedEmptyAfterLastUnfollow` | yatube/posts/tests/test_views.py:262-264 | when the only followed author is unfollowed, the feed is empty |
| `Queries.CreatedPostListedUnderItsAuthor` | yatube/posts/views.py:77-81 | a created post is in its author's list and in no other user's, whose lists are unchanged |
| `Store.ContentStore.AddGroup` | yatube/posts/models.py:10 | a new group is stored only when its slug is free; a taken slug stores nothing; slugs stay unique |
| `Store.ContentStore.ProfileFollow` | yatube/posts/views.py:122-131 | login first, 404 for an unknown author, otherwise the table becomes `Followed(old, user, author)` and the answer is the author's profile; nothing else changes and the invariant holds |
| `Store.ContentStore.ProfileUnfollow` | yatube/posts/views.py:134-143 | login first, 404 for an unknown author, otherwise the table becomes `Unfollowed(old, user, author)` and the answer is the author's profile; nothing else changes |
| `Store.ContentStore.PostCreate` | yatube/posts/views.py:74-82 | login first; an invalid form renders the create page and stores nothing; a valid one stores one new post by the requesting user, in date order, and redirects to that user's profile |
| `Store.ContentStore.PostEdit` | yatube/posts/views.py:85-97 | login first; 404 for an unknown post; a non-author is redirected to the post page with nothing changed; an invalid form renders the edit page; a valid one from the author changes only that post's text, group and picture and redirects to the post page |
| `Store.ContentStore.AddComment` | yatube/posts/views.py:100-109 | login first; 404 for an unknown post; otherwise always the post page, and a valid form appends one comment by the user on that post, within 5000 characters |
| `Store.ContentStore.DeleteGroup` | yatube/posts/models.py:30-35 | deleting a group removes its row and sets its posts' group to null, keeping every post |
| `Store.ContentStore.DeletePost` | yatube/posts/models.py:54-58 | deleting a post removes its row and exactly its comments |
| `Store.FollowThenUnfollow` | yatube/posts/tests/test_views.py:229-247 | a follow then an unfollow of a new author through the handlers leaves the follow table as it was |

## Findings

| source | as written | input that shows it | evidently intended | confidence | as-written member | corrected member |
|---|---|---|---|---|---|---|
| yatube/posts/views.py:28-44 | the group page paginates `Post.objects.all()`, so it lists every post whatever its group | groups "a" (key 1) and "b" (key 2), one post in group "b": the page of "a" shows that post | list only the posts of the requested group, as the handler's docstring says | medium, not executed | `Queries.GroupPosts` (with `Queries.GroupPageShowsOtherGroups`) | `Queries.GroupPostsFiltered` |

The model keeps the code as written in `Queries.GroupPosts`. The corrected variant is stated and
proved beside it, and nothing else in the model depends on the group page.

## Left out

- Templates, URL reversing and the context's constant strings are framework output. Responses
  keep only the route or the view data.
- The comment form that the post page puts in its context is not modelled.
- The constant description strings of the listing contexts are not modelled.
- Paginator options other than the defaults are not modelled: orphans are 0 and an empty first
  page is allowed.
- The login page and its `?next=` parameter are reduced to `RedirectToLogin(route)`.
- Sessions and passwords are not modelled, nor the authentication views in
  `yatube/users/urls.py`.
- `yatube/about/views.py` is static pages and is not part of this model.
- Form validation beyond the declared constraints is the opaque `fieldsValid` flag. This covers the picture payload check; whitespace-only text is the empty cleaned text and is refused by the explicit rule.
- The upload path prefix `posts/` and file storage are not modelled. A picture is its stored
  name.
- The page cache is not modelled; it may serve stale listings for a while.
- The check-then-act race in follow/unfollow is not modelled. Handlers run one at a time here.
- Deleting users is not modelled. No handler in the core does it, so the user-side cascades of
  posts, comments and follow edges are left out.
- `pub_date` and `created` come from the clock at insertion. Here they are supplied numbers.
- The database leaves posts with equal dates in no fixed order. The model breaks such ties by
  insertion, newest first.
- The admin interface, which creates and deletes groups and posts, is reduced to
  `Store.ContentStore.AddGroup`, `DeleteGroup` and `DeletePost`.
