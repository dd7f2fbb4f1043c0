/**
 * The read-only handlers: the main listing, the group page, the profile, the post page and the
 * follow feed. Each is a filter over the stored posts (newest first), cut into a page.
 */
module Queries {
  import opened Wrappers
  import opened Models
  import opened Pagination
  import opened Http
  import Seqs
  import Follows

  datatype IndexView = IndexView(posts: seq<Post>, page: Page<Post>)

  datatype GroupView = GroupView(group: Group, page: Page<Post>)

  datatype ProfileView = ProfileView(author: User, postList: seq<Post>, page: Page<Post>, postNumber: nat)

  datatype PostDetailView = PostDetailView(post: Post, comments: seq<Comment>)

  datatype FollowView = FollowView(page: Page<Post>)

  /** `Post.objects.filter(author=author)`. */
  function AuthorPosts(posts: seq<Post>, author: User): (r: seq<Post>)
    ensures forall p :: p in r <==> p in posts && p.author == author
    ensures NewestFirst(posts) ==> NewestFirst(r)
  {
    var keep := (p: Post) => p.author == author;
    assert NewestFirst(posts) ==> NewestFirst(Seqs.Filter(posts, keep)) by {
      if NewestFirst(posts) {
        FilterNewestFirst(posts, keep);
      }
    }
    Seqs.Filter(posts, keep)
  }

  /** `Post.objects.filter(author__following__user=user)`: the posts of the authors `user` follows. */
  function Feed(posts: seq<Post>, follows: seq<Follow>, user: User): (r: seq<Post>)
    ensures forall p :: p in r <==> p in posts && Follow(user, p.author) in follows
    ensures NewestFirst(posts) ==> NewestFirst(r)
    ensures UniquePostIds(posts) ==> UniquePostIds(r)
  {
    var keep := (p: Post) => Follow(user, p.author) in follows;
    assert NewestFirst(posts) ==> NewestFirst(Seqs.Filter(posts, keep)) by {
      if NewestFirst(posts) {
        FilterNewestFirst(posts, keep);
      }
    }
    assert UniquePostIds(posts) ==> UniquePostIds(Seqs.Filter(posts, keep)) by {
      if UniquePostIds(posts) {
        FilterUniqueIds(posts, keep);
      }
    }
    Seqs.Filter(posts, keep)
  }

  /** The main page: the newest posts, and the requested page of all posts. */
  function Index(posts: seq<Post>, requested: Option<int>): (r: IndexView)
    ensures r.posts <= posts
    ensures |r.posts| == if |posts| < PER_PAGE then |posts| else PER_PAGE
    ensures r.page == GetPage(posts, PER_PAGE, requested)
    ensures NewestFirst(posts) ==> NewestFirst(r.page.items)
  {
    var first := if |posts| < PER_PAGE then posts else posts[..PER_PAGE];
    IndexView(first, GetPage(posts, PER_PAGE, requested))
  }

  /**
   * The group page as written: 404 for an unknown slug, otherwise the group and a page of two
   * posts taken from ALL posts, whatever their group.
   */
  function GroupPosts(groups: seq<Group>, posts: seq<Post>, slug: string, requested: Option<int>): (r: Response<GroupView>)
    ensures r.NotFound? <==> forall g :: g in groups ==> g.slug != slug
    ensures !r.NotFound? ==> r.Render? && r.view.group in groups && r.view.group.slug == slug
    ensures r.Render? ==> r.view.page == GetPage(posts, GROUP_PER_PAGE, requested)
  {
    match FindGroupBySlug(groups, slug)
    case None => NotFound
    case Some(g) => Render(GroupView(g, GetPage(posts, GROUP_PER_PAGE, requested)))
  }

  /** The posts of one group, newest first: what the group page evidently means to list. */
  function GroupPostList(posts: seq<Post>, groupId: Id): (r: seq<Post>)
    ensures forall p :: p in r <==> p in posts && p.group == Some(groupId)
    ensures NewestFirst(posts) ==> NewestFirst(r)
  {
    var keep := (p: Post) => p.group == Some(groupId);
    assert NewestFirst(posts) ==> NewestFirst(Seqs.Filter(posts, keep)) by {
      if NewestFirst(posts) {
        FilterNewestFirst(posts, keep);
      }
    }
    Seqs.Filter(posts, keep)
  }

  /** The group page with the filter by group it is documented to apply. */
  function GroupPostsFiltered(groups: seq<Group>, posts: seq<Post>, slug: string, requested: Option<int>): (r: Response<GroupView>)
    ensures r.NotFound? <==> forall g :: g in groups ==> g.slug != slug
    ensures !r.NotFound? ==> r.Render? && r.view.group in groups && r.view.group.slug == slug
    ensures r.Render? ==> forall p :: p in r.view.page.items ==> p in posts && p.group == Some(r.view.group.id)
    ensures r.Render? ==> r.view.page == GetPage(GroupPostList(posts, r.view.group.id), GROUP_PER_PAGE, requested)
  {
    match FindGroupBySlug(groups, slug)
    case None => NotFound
    case Some(g) => Render(GroupView(g, GetPage(GroupPostList(posts, g.id), GROUP_PER_PAGE, requested)))
  }

  /** As written, the page of group "a" shows a post that belongs to group "b". */
  lemma GroupPageShowsOtherGroups()
    ensures var groups := [Group(1, "A", "a", ""), Group(2, "B", "b", "")];
            var posts := [Post(1, "text", 0, "user", Some(2), "")];
            && GroupPosts(groups, posts, "a", None).Render?
            && GroupPosts(groups, posts, "a", None).view.page.items == posts
            && posts[0].group != Some(GroupPosts(groups, posts, "a", None).view.group.id)
            && GroupPostsFiltered(groups, posts, "a", None).view.page.items == []
  {
  }

  /** The profile: 404 for an unknown user, otherwise that author's posts, their number and a page of them. */
  function Profile(users: set<User>, posts: seq<Post>, username: User, requested: Option<int>): (r: Response<ProfileView>)
    ensures r.NotFound? <==> username !in users
    ensures !r.NotFound? ==> r.Render? && r.view.author == username
    ensures r.Render? ==> forall p :: p in r.view.postList <==> p in posts && p.author == username
    ensures r.Render? ==> r.view.postNumber == |r.view.postList|
    ensures r.Render? && UniquePostIds(posts) ==> UniquePostIds(r.view.postList)
    ensures r.Render? ==> r.view.page == GetPage(r.view.postList, PER_PAGE, requested)
    ensures r.Render? && NewestFirst(posts) ==> NewestFirst(r.view.postList)
  {
    if username !in users then NotFound
    else
      var postList := AuthorPosts(posts, username);
      assert UniquePostIds(posts) ==> UniquePostIds(postList) by {
        if UniquePostIds(posts) {
          FilterUniqueIds(posts, (p: Post) => p.author == username);
        }
      }
      Render(ProfileView(username, postList, GetPage(postList, PER_PAGE, requested), |postList|))
  }

  /** The post page: 404 for an unknown key, otherwise the post and exactly its comments. */
  function PostDetail(posts: seq<Post>, comments: seq<Comment>, postId: Id): (r: Response<PostDetailView>)
    ensures r.NotFound? <==> postId !in PostIds(posts)
    ensures !r.NotFound? ==> r.Render? && r.view.post in posts && r.view.post.id == postId
    ensures r.Render? ==> forall c :: c in r.view.comments <==> c in comments && c.post == postId
    ensures r.Render? ==> r.view.comments == CommentsOf(comments, postId)
    ensures r.Render? && UniqueCommentIds(comments) ==> UniqueCommentIds(r.view.comments)
  {
    match FindPost(posts, postId)
    case None => NotFound
    case Some(p) => Render(PostDetailView(p, CommentsOf(comments, postId)))
  }

  /** The follow feed: login first, then a page of the posts of the authors the user follows. */
  function FollowIndex(posts: seq<Post>, follows: seq<Follow>, actor: Option<User>, requested: Option<int>): (r: Response<FollowView>)
    ensures actor.None? <==> r == RedirectToLogin(FollowIndexRoute)
    ensures actor.Some? ==> r.Render? && r.view.page == GetPage(Feed(posts, follows, actor.value), PER_PAGE, requested)
  {
    match actor
    case None => RedirectToLogin(FollowIndexRoute)
    case Some(user) => Render(FollowView(GetPage(Feed(posts, follows, user), PER_PAGE, requested)))
  }

  /** After following an author, every post of that author is in the follower's feed. */
  lemma FeedAfterFollow(posts: seq<Post>, follows: seq<Follow>, user: User, author: User)
    requires user != author
    ensures forall p :: p in posts && p.author == author ==> p in Feed(posts, Follows.Followed(follows, user, author), user)
  {
  }

  /** After unfollowing an author, no post of that author is left in the follower's feed. */
  lemma FeedAfterUnfollow(posts: seq<Post>, follows: seq<Follow>, user: User, author: User)
    requires user != author
    ensures forall p :: p in Feed(posts, Follows.Unfollowed(follows, user, author), user) ==> p.author != author
  {
  }

  /** A user whose only followed author is unfollowed has an empty feed. */
  lemma FeedEmptyAfterLastUnfollow(posts: seq<Post>, follows: seq<Follow>, user: User, author: User)
    requires user != author
    requires forall e :: e in follows && e.user == user ==> e.author == author
    ensures Feed(posts, Follows.Unfollowed(follows, user, author), user) == []
  {
    var remaining := Follows.Unfollowed(follows, user, author);
    Seqs.FilterKeepsNone(posts, (p: Post) => Follow(user, p.author) in remaining);
  }

  /** A created post is listed on its author's profile and on no other user's. */
  lemma {:induction false} CreatedPostListedUnderItsAuthor(posts: seq<Post>, p: Post, other: User)
    requires other != p.author
    ensures p in AuthorPosts(InsertByDate(posts, p), p.author)
    ensures p !in AuthorPosts(InsertByDate(posts, p), other)
    ensures AuthorPosts(InsertByDate(posts, p), other) == AuthorPosts(posts, other)
  {
    assert p in multiset(InsertByDate(posts, p));
    OtherAuthorsUnaffected(posts, p, other);
  }

  /** Inserting a post by someone else does not change a user's list. */
  lemma {:induction false} OtherAuthorsUnaffected(posts: seq<Post>, p: Post, other: User)
    requires other != p.author
    ensures AuthorPosts(InsertByDate(posts, p), other) == AuthorPosts(posts, other)
  {
    if posts == [] || posts[0].pubDate <= p.pubDate {
      assert InsertByDate(posts, p)[1..] == posts;
    } else {
      OtherAuthorsUnaffected(posts[1..], p, other);
      assert InsertByDate(posts, p)[1..] == InsertByDate(posts[1..], p);
    }
  }
}
