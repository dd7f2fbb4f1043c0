/**
 * The content store and the handlers that change it. The store holds the rows of the four tables;
 * `Valid` gathers the constraints the record definitions declare and the integrity that the
 * foreign keys and the handlers' guards keep. Each handler is a method that answers with a
 * response and says exactly what the tables hold afterwards.
 */
module Store {
  import opened Wrappers
  import opened Models
  import opened Forms
  import opened Http
  import Seqs
  import Follows

  /** The rendered form page of create and edit; `isEdit` tells the two apart. */
  datatype FormView = FormView(isEdit: bool)

  /** The answer of a handler that never renders a page of its own, only redirects. */
  datatype NoView = NoView

  class ContentStore {
    var users: set<User>
    var groups: seq<Group>
    var posts: seq<Post>
    var comments: seq<Comment>
    var follows: seq<Follow>
    var nextGroupId: Id
    var nextPostId: Id
    var nextCommentId: Id

    ghost predicate GroupsValid()
      reads this
    {
      && UniqueSlugs(groups)
      && UniqueGroupIds(groups)
      && (forall g :: g in groups ==> g.id < nextGroupId)
    }

    ghost predicate PostsValid()
      reads this
    {
      PostRowsValid(posts, nextPostId, users, groups)
    }

    ghost predicate CommentsValid()
      reads this
    {
      && UniqueCommentIds(comments)
      && (forall c :: c in comments ==> c.id < nextCommentId && c.author in users)
      && (forall c :: c in comments ==> c.post in PostIds(posts) && CommentTextFits(c))
    }

    ghost predicate FollowsValid()
      reads this
    {
      && UniqueFollows(follows)
      && Follows.NoSelfFollows(follows)
      && (forall e :: e in follows ==> e.user in users && e.author in users)
    }

    ghost predicate Valid()
      reads this
    {
      GroupsValid() && PostsValid() && CommentsValid() && FollowsValid()
    }

    /** An empty store over the registered users. */
    constructor (registered: set<User>)
      ensures Valid()
      ensures users == registered && groups == [] && posts == [] && comments == [] && follows == []
    {
      users := registered;
      groups, posts, comments, follows := [], [], [], [];
      nextGroupId, nextPostId, nextCommentId := 0, 0, 0;
    }

    /** Creates a group; a slug that is taken violates the unique constraint and nothing is stored. */
    method AddGroup(title: string, slug: string, description: string) returns (created: Option<Group>)
      requires Valid()
      modifies this
      ensures Valid()
      ensures created.None? <==> exists g :: g in old(groups) && g.slug == slug
      ensures created.Some? ==> created.value == Group(old(nextGroupId), title, slug, description)
      ensures groups == if created.Some? then old(groups) + [created.value] else old(groups)
      ensures users == old(users) && posts == old(posts) && comments == old(comments) && follows == old(follows)
      ensures nextGroupId == if created.Some? then old(nextGroupId) + 1 else old(nextGroupId)
      ensures nextPostId == old(nextPostId) && nextCommentId == old(nextCommentId)
    {
      match FindGroupBySlug(groups, slug)
      case Some(_) =>
        created := None;
      case None =>
        var g := Group(nextGroupId, title, slug, description);
        groups := groups + [g];
        nextGroupId := nextGroupId + 1;
        created := Some(g);
    }

    /** `profile_follow`: creates the edge to another author not yet followed; always back to the profile. */
    method ProfileFollow(actor: Option<User>, username: User) returns (r: Response<NoView>)
      requires Valid()
      requires actor.Some? ==> actor.value in users
      modifies this
      ensures Valid()
      ensures actor.None? ==> r == RedirectToLogin(ProfileFollowRoute(username))
      ensures actor.Some? && username !in users ==> r == NotFound
      ensures actor.Some? && username in users ==> r == Redirect(ProfileRoute(username))
      ensures follows == if r.Redirect? then Follows.Followed(old(follows), actor.value, username) else old(follows)
      ensures users == old(users) && groups == old(groups) && posts == old(posts) && comments == old(comments)
      ensures nextGroupId == old(nextGroupId) && nextPostId == old(nextPostId) && nextCommentId == old(nextCommentId)
    {
      if actor.None? {
        return RedirectToLogin(ProfileFollowRoute(username));
      }
      if username !in users {
        return NotFound;
      }
      Follows.NoSelfFollowsPreserved(follows, actor.value, username);
      follows := Follows.Followed(follows, actor.value, username);
      r := Redirect(ProfileRoute(username));
    }

    /** `profile_unfollow`: deletes the edge to another author when it exists; always back to the profile. */
    method ProfileUnfollow(actor: Option<User>, username: User) returns (r: Response<NoView>)
      requires Valid()
      requires actor.Some? ==> actor.value in users
      modifies this
      ensures Valid()
      ensures actor.None? ==> r == RedirectToLogin(ProfileUnfollowRoute(username))
      ensures actor.Some? && username !in users ==> r == NotFound
      ensures actor.Some? && username in users ==> r == Redirect(ProfileRoute(username))
      ensures follows == if r.Redirect? then Follows.Unfollowed(old(follows), actor.value, username) else old(follows)
      ensures users == old(users) && groups == old(groups) && posts == old(posts) && comments == old(comments)
      ensures nextGroupId == old(nextGroupId) && nextPostId == old(nextPostId) && nextCommentId == old(nextCommentId)
    {
      if actor.None? {
        return RedirectToLogin(ProfileUnfollowRoute(username));
      }
      if username !in users {
        return NotFound;
      }
      Follows.NoSelfFollowsPreserved(follows, actor.value, username);
      follows := Follows.Unfollowed(follows, actor.value, username);
      r := Redirect(ProfileRoute(username));
    }

    /** `post_create`: a valid form stores a new post by the requesting user and goes to its profile. */
    method PostCreate(actor: Option<User>, form: PostForm, fieldsValid: bool, now: nat) returns (r: Response<FormView>)
      requires Valid()
      requires actor.Some? ==> actor.value in users
      modifies this
      ensures Valid()
      ensures actor.None? ==> r == RedirectToLogin(PostCreateRoute)
      ensures actor.Some? && !PostFormValid(form, groups, fieldsValid) ==> r == Render(FormView(false))
      ensures actor.Some? && PostFormValid(form, groups, fieldsValid) ==> r == Redirect(ProfileRoute(actor.value))
      ensures posts == if r.Redirect?
                       then InsertByDate(old(posts), NewPost(old(nextPostId), form, actor.value, now))
                       else old(posts)
      ensures users == old(users) && groups == old(groups) && comments == old(comments) && follows == old(follows)
      ensures nextPostId == if r.Redirect? then old(nextPostId) + 1 else old(nextPostId)
      ensures nextGroupId == old(nextGroupId) && nextCommentId == old(nextCommentId)
    {
      if actor.None? {
        return RedirectToLogin(PostCreateRoute);
      }
      if !PostFormValid(form, groups, fieldsValid) {
        return Render(FormView(false));
      }
      var p := NewPost(nextPostId, form, actor.value, now);
      var inserted := InsertByDate(posts, p);
      InsertKeepsPostRows(posts, p, nextPostId, users, groups);
      posts := inserted;
      nextPostId := nextPostId + 1;
      r := Redirect(ProfileRoute(actor.value));
    }

    /**
     * `post_edit`: 404 for an unknown post; anyone but its author is sent to the post page with
     * nothing changed; a valid form from the author saves the new text, group and picture.
     */
    method PostEdit(actor: Option<User>, postId: Id, form: PostForm, fieldsValid: bool) returns (r: Response<FormView>)
      requires Valid()
      requires actor.Some? ==> actor.value in users
      modifies this
      ensures Valid()
      ensures actor.None? ==> r == RedirectToLogin(PostEditRoute(postId))
      ensures actor.Some? && postId !in PostIds(old(posts)) ==> r == NotFound
      ensures actor.Some? && postId in PostIds(old(posts)) ==>
                var p := FindPost(old(posts), postId).value;
                if actor.value != p.author then r == Redirect(PostDetailRoute(postId))
                else if PostFormValid(form, groups, fieldsValid) then r == Redirect(PostDetailRoute(postId))
                else r == Render(FormView(true))
      ensures |posts| == |old(posts)|
      ensures forall i :: 0 <= i < |posts| ==>
                posts[i] == if r.Redirect? && old(posts)[i].id == postId && old(posts)[i].author == actor.value
                            then ApplyEdit(old(posts)[i], form) else old(posts)[i]
      ensures users == old(users) && groups == old(groups) && comments == old(comments) && follows == old(follows)
      ensures nextGroupId == old(nextGroupId) && nextPostId == old(nextPostId) && nextCommentId == old(nextCommentId)
    {
      if actor.None? {
        return RedirectToLogin(PostEditRoute(postId));
      }
      var found := FindPost(posts, postId);
      if found.None? {
        return NotFound;
      }
      var p := found.value;
      if actor.value != p.author {
        return Redirect(PostDetailRoute(postId));
      }
      if !PostFormValid(form, groups, fieldsValid) {
        return Render(FormView(true));
      }
      var i := PostIndex(posts, postId);
      assert posts[i] == p;
      var edited := posts[i := ApplyEdit(p, form)];
      EditKeepsPostRows(posts, i, ApplyEdit(p, form), nextPostId, users, groups);
      posts := edited;
      r := Redirect(PostDetailRoute(postId));
    }

    /**
     * `add_comment`: 404 for an unknown post; a valid form stores a comment by the requesting user
     * on that post; valid or not, the answer is the post page.
     */
    method AddComment(actor: Option<User>, postId: Id, text: string, fieldsValid: bool, now: nat) returns (r: Response<NoView>)
      requires Valid()
      requires actor.Some? ==> actor.value in users
      modifies this
      ensures Valid()
      ensures actor.None? ==> r == RedirectToLogin(AddCommentRoute(postId))
      ensures actor.Some? && postId !in PostIds(posts) ==> r == NotFound
      ensures actor.Some? && postId in PostIds(posts) ==> r == Redirect(PostDetailRoute(postId))
      ensures comments == if r.Redirect? && CommentFormValid(text, fieldsValid)
                          then old(comments) + [Comment(old(nextCommentId), postId, actor.value, text, now)]
                          else old(comments)
      ensures users == old(users) && groups == old(groups) && posts == old(posts) && follows == old(follows)
      ensures nextCommentId == if r.Redirect? && CommentFormValid(text, fieldsValid) then old(nextCommentId) + 1 else old(nextCommentId)
      ensures nextGroupId == old(nextGroupId) && nextPostId == old(nextPostId)
    {
      if actor.None? {
        return RedirectToLogin(AddCommentRoute(postId));
      }
      if FindPost(posts, postId).None? {
        return NotFound;
      }
      if CommentFormValid(text, fieldsValid) {
        comments := comments + [Comment(nextCommentId, postId, actor.value, text, now)];
        nextCommentId := nextCommentId + 1;
      }
      r := Redirect(PostDetailRoute(postId));
    }

    /** Deleting a group: its row goes, and its posts stay with their group set to null. */
    method DeleteGroup(groupId: Id)
      requires Valid()
      modifies this
      ensures Valid()
      ensures groups == GroupsWithout(old(groups), groupId)
      ensures posts == DetachGroup(old(posts), groupId)
      ensures users == old(users) && comments == old(comments) && follows == old(follows)
      ensures nextGroupId == old(nextGroupId) && nextPostId == old(nextPostId) && nextCommentId == old(nextCommentId)
    {
      var remaining := GroupsWithout(groups, groupId);
      FilterKeepsUniqueSlugs(groups, groupId);
      FilterKeepsUniqueGroupIds(groups, groupId);
      var detached := DetachGroup(posts, groupId);
      DetachKeepsPostRows(posts, groupId, nextPostId, users, groups);
      groups := remaining;
      posts := detached;
    }

    /** Deleting a post: its row goes, and with it every comment on it. */
    method DeletePost(postId: Id)
      requires Valid()
      modifies this
      ensures Valid()
      ensures posts == PostsWithout(old(posts), postId)
      ensures comments == CommentsWithout(old(comments), postId)
      ensures users == old(users) && groups == old(groups) && follows == old(follows)
      ensures nextGroupId == old(nextGroupId) && nextPostId == old(nextPostId) && nextCommentId == old(nextCommentId)
    {
      var keptPosts := PostsWithout(posts, postId);
      var keptComments := CommentsWithout(comments, postId);
      FilterNewestFirst(posts, (p: Post) => p.id != postId);
      FilterUniqueIds(posts, (p: Post) => p.id != postId);
      FilterUniqueCommentIds(comments, (c: Comment) => c.post != postId);
      forall c | c in keptComments ensures c.post in PostIds(keptPosts) {
        var p :| p in posts && p.id == c.post;
        assert p in keptPosts;
      }
      posts := keptPosts;
      comments := keptComments;
    }
  }

  /** Following an author one did not follow adds one edge; unfollowing right after removes it again. */
  method FollowThenUnfollow(store: ContentStore, user: User, author: User)
    requires store.Valid()
    requires user in store.users && author in store.users && user != author
    requires Follow(user, author) !in store.follows
    modifies store
    ensures store.Valid()
    ensures store.follows == old(store.follows)
  {
    var before := store.follows;
    var r := store.ProfileFollow(Some(user), author);
    assert |store.follows| == |before| + 1;
    r := store.ProfileUnfollow(Some(user), author);
    Follows.FollowUnfollowRoundTrip(before, user, author);
  }

  /** The post rows are newest first, keyed uniquely below `nextId`, by known users, in existing groups. */
  ghost predicate PostRowsValid(posts: seq<Post>, nextId: Id, users: set<User>, groups: seq<Group>)
  {
    && NewestFirst(posts)
    && UniquePostIds(posts)
    && (forall p :: p in posts ==> p.id < nextId && p.author in users)
    && (forall p :: p in posts && p.group.Some? ==> p.group.value in GroupIds(groups))
  }

  /** Storing a new post with the next key keeps the post rows valid and adds exactly its key. */
  lemma InsertKeepsPostRows(posts: seq<Post>, p: Post, nextId: Id, users: set<User>, groups: seq<Group>)
    requires PostRowsValid(posts, nextId, users, groups)
    requires p.id == nextId && p.author in users
    requires p.group.Some? ==> p.group.value in GroupIds(groups)
    ensures PostRowsValid(InsertByDate(posts, p), nextId + 1, users, groups)
    ensures PostIds(InsertByDate(posts, p)) == PostIds(posts) + {p.id}
  {
    var r := InsertByDate(posts, p);
    InsertByDateNewestFirst(posts, p);
    InsertKeepsUniqueIds(posts, p);
    forall q | q in r ensures q in posts || q == p {
      assert q in multiset(r);
    }
    forall q | q in posts ensures q in r {
      assert q in multiset(posts);
      assert q in multiset(r);
    }
    assert p in multiset(r);
  }

  /** Replacing one post by a row with the same key, author and date keeps the post rows valid and the keys. */
  lemma EditKeepsPostRows(posts: seq<Post>, i: nat, q: Post, nextId: Id, users: set<User>, groups: seq<Group>)
    requires PostRowsValid(posts, nextId, users, groups)
    requires i < |posts| && q.id == posts[i].id && q.author == posts[i].author && q.pubDate == posts[i].pubDate
    requires q.group.Some? ==> q.group.value in GroupIds(groups)
    ensures PostRowsValid(posts[i := q], nextId, users, groups)
    ensures PostIds(posts[i := q]) == PostIds(posts)
  {
    var edited := posts[i := q];
    forall x | x in edited ensures x.id in PostIds(posts) {
      var k :| 0 <= k < |edited| && edited[k] == x;
      assert posts[k].id == x.id;
    }
    forall x | x in posts ensures x.id in PostIds(edited) {
      var k :| 0 <= k < |posts| && posts[k] == x;
      assert edited[k].id == x.id;
    }
  }

  /** Detaching the posts of a deleted group keeps the post rows valid against the remaining groups. */
  lemma DetachKeepsPostRows(posts: seq<Post>, groupId: Id, nextId: Id, users: set<User>, groups: seq<Group>)
    requires PostRowsValid(posts, nextId, users, groups)
    ensures PostRowsValid(DetachGroup(posts, groupId), nextId, users, GroupsWithout(groups, groupId))
    ensures PostIds(DetachGroup(posts, groupId)) == PostIds(posts)
  {
    var r := DetachGroup(posts, groupId);
    DeleteGroupKeepsPosts(posts, groupId);
    forall q | q in r ensures q.id < nextId && q.author in users {
      var k :| 0 <= k < |r| && r[k] == q;
      assert posts[k] in posts;
    }
    DetachKeepsGroupRefs(posts, groupId, groups);
    assert UniquePostIds(r) by {
      forall i, j | 0 <= i < j < |r| ensures r[i].id != r[j].id {
        assert r[i].id == posts[i].id && r[j].id == posts[j].id;
      }
    }
  }

  /** After the detach, every group a post still names is one of the remaining groups. */
  lemma DetachKeepsGroupRefs(posts: seq<Post>, groupId: Id, groups: seq<Group>)
    requires forall p :: p in posts && p.group.Some? ==> p.group.value in GroupIds(groups)
    ensures forall q :: q in DetachGroup(posts, groupId) && q.group.Some? ==>
              q.group.value in GroupIds(GroupsWithout(groups, groupId))
  {
    var r := DetachGroup(posts, groupId);
    var rest := GroupsWithout(groups, groupId);
    forall q | q in r && q.group.Some? ensures q.group.value in GroupIds(rest) {
      var k :| 0 <= k < |r| && r[k] == q;
      assert posts[k] in posts && posts[k].group == q.group;
      var g :| g in groups && g.id == q.group.value;
      assert g in rest;
    }
  }

  /** The position of the post with key `postId`. */
  function PostIndex(posts: seq<Post>, postId: Id): (i: nat)
    requires postId in PostIds(posts)
    ensures i < |posts| && posts[i].id == postId
  {
    if posts[0].id == postId then 0
    else
      assert postId in PostIds(posts[1..]) by {
        var p :| p in posts && p.id == postId;
        assert p in posts[1..];
      }
      1 + PostIndex(posts[1..], postId)
  }

  /** A new post with a fresh key keeps the keys unique. */
  lemma InsertKeepsUniqueIds(posts: seq<Post>, p: Post)
    requires UniquePostIds(posts) && p.id !in PostIds(posts)
    ensures UniquePostIds(InsertByDate(posts, p))
  {
    var r := InsertByDate(posts, p);
    forall i, j | 0 <= i < j < |r| ensures r[i].id != r[j].id {
      if r[i].id == r[j].id {
        assert r[i] in multiset(r) && r[j] in multiset(r);
        TwoWithSameId(posts, p, r, i, j);
      }
    }
  }

  /** Two positions of the inserted sequence with the same key would be a duplicate key. */
  lemma {:induction false} TwoWithSameId(posts: seq<Post>, p: Post, r: seq<Post>, i: nat, j: nat)
    requires UniquePostIds(posts) && p.id !in PostIds(posts)
    requires r == InsertByDate(posts, p)
    requires 0 <= i < j < |r|
    ensures r[i].id != r[j].id
    decreases posts
  {
    if posts == [] || posts[0].pubDate <= p.pubDate {
      if i == 0 {
        assert r[j] in posts;
      } else {
        assert r[i] == posts[i - 1] && r[j] == posts[j - 1];
      }
    } else {
      var rest := InsertByDate(posts[1..], p);
      assert r == [posts[0]] + rest;
      assert UniquePostIds(posts[1..]);
      assert p.id !in PostIds(posts[1..]) by {
        forall q | q in posts[1..] ensures q.id != p.id {
          assert q in posts;
        }
      }
      if i == 0 {
        HeadKeyNotRepeated(posts, p, r[j]);
        assert r[j] in multiset(rest);
      } else {
        TwoWithSameId(posts[1..], p, rest, i - 1, j - 1);
      }
    }
  }

  /** The first post's key appears in no other post and is not the new post's key. */
  lemma HeadKeyNotRepeated(posts: seq<Post>, p: Post, q: Post)
    requires UniquePostIds(posts) && p.id !in PostIds(posts) && posts != []
    requires q in multiset(InsertByDate(posts[1..], p))
    ensures q.id != posts[0].id
  {
    if q != p {
      assert q in posts[1..];
      var k :| 0 <= k < |posts[1..]| && posts[1..][k] == q;
      assert posts[k + 1] == q;
    }
  }

  /** Removing a group keeps slugs unique. */
  lemma {:induction false} FilterKeepsUniqueSlugs(groups: seq<Group>, groupId: Id)
    requires UniqueSlugs(groups)
    ensures UniqueSlugs(GroupsWithout(groups, groupId))
  {
    if groups != [] {
      FilterKeepsUniqueSlugs(groups[1..], groupId);
      forall g | g in GroupsWithout(groups[1..], groupId) ensures g.slug != groups[0].slug {
        var k :| 0 <= k < |groups[1..]| && groups[1..][k] == g;
        assert groups[k + 1] == g;
      }
    }
  }

  /** Removing a group keeps group keys unique. */
  lemma {:induction false} FilterKeepsUniqueGroupIds(groups: seq<Group>, groupId: Id)
    requires UniqueGroupIds(groups)
    ensures UniqueGroupIds(GroupsWithout(groups, groupId))
  {
    if groups != [] {
      FilterKeepsUniqueGroupIds(groups[1..], groupId);
      forall g | g in GroupsWithout(groups[1..], groupId) ensures g.id != groups[0].id {
        var k :| 0 <= k < |groups[1..]| && groups[1..][k] == g;
        assert groups[k + 1] == g;
      }
    }
  }

}
