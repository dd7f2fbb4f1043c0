/**
 * The four records of the blog (groups, posts, comments, follow edges), their display strings,
 * the constraints the record definitions declare, the newest-first ordering of posts, and the
 * deletion rules of their foreign keys, all as values and pure functions.
 */
module Models {
  import opened Wrappers
  import Seqs

  /** A user is known by its username, which the user table keeps unique. */
  type User = string

  /** A primary key. */
  type Id = nat

  datatype Group = Group(id: Id, title: string, slug: string, description: string)

  /** `image` is the stored file name, empty when no picture is attached. */
  datatype Post = Post(id: Id, text: string, pubDate: nat, author: User, group: Option<Id>, image: string)

  datatype Comment = Comment(id: Id, post: Id, author: User, text: string, created: nat)

  /** The directed edge "user follows author". */
  datatype Follow = Follow(user: User, author: User)

  /** How many characters of a post's text its display string shows. */
  const POST_STR_LENGTH: nat := 15

  /** The declared maximum length of a comment's text. */
  const COMMENT_MAX_LENGTH: nat := 5000

  // ---------------------------------------------------------------- display strings

  function GroupStr(g: Group): string
  {
    g.title
  }

  function CommentStr(c: Comment): string
  {
    c.text
  }

  /** The text cut to its first fifteen characters. */
  function PostStr(p: Post): (r: string)
    ensures |r| == if |p.text| < POST_STR_LENGTH then |p.text| else POST_STR_LENGTH
    ensures r <= p.text
  {
    if |p.text| <= POST_STR_LENGTH then p.text else p.text[..POST_STR_LENGTH]
  }

  /** A group shows as its title. */
  lemma GroupStrIsTitle(g: Group)
    ensures GroupStr(g) == g.title
  {
  }

  /** A comment shows as its whole text. */
  lemma CommentStrIsText(c: Comment)
    ensures CommentStr(c) == c.text
  {
  }

  // ---------------------------------------------------------------- declared constraints

  /** `slug` is declared unique. */
  predicate UniqueSlugs(groups: seq<Group>)
  {
    forall i, j :: 0 <= i < j < |groups| ==> groups[i].slug != groups[j].slug
  }

  predicate UniqueGroupIds(groups: seq<Group>)
  {
    forall i, j :: 0 <= i < j < |groups| ==> groups[i].id != groups[j].id
  }

  predicate UniquePostIds(posts: seq<Post>)
  {
    forall i, j :: 0 <= i < j < |posts| ==> posts[i].id != posts[j].id
  }

  predicate UniqueCommentIds(comments: seq<Comment>)
  {
    forall i, j :: 0 <= i < j < |comments| ==> comments[i].id != comments[j].id
  }

  /** The unique constraint on (user, author): no edge is stored twice. */
  predicate UniqueFollows(follows: seq<Follow>)
  {
    Seqs.Distinct(follows)
  }

  /** The declared length bound of a comment's text. */
  predicate CommentTextFits(c: Comment)
  {
    |c.text| <= COMMENT_MAX_LENGTH
  }

  function GroupIds(groups: seq<Group>): set<Id>
  {
    set g | g in groups :: g.id
  }

  function PostIds(posts: seq<Post>): set<Id>
  {
    set p | p in posts :: p.id
  }

  // ---------------------------------------------------------------- ordering

  /** The default ordering of posts: by publication date, descending. */
  predicate NewestFirst(posts: seq<Post>)
  {
    forall i, j :: 0 <= i < j < |posts| ==> posts[i].pubDate >= posts[j].pubDate
  }

  /**
   * Places a new post in a newest-first sequence: before the first post that is not newer than it,
   * so that among posts of equal date the later insertion comes first.
   */
  function InsertByDate(posts: seq<Post>, p: Post): (r: seq<Post>)
    ensures |r| == |posts| + 1
    ensures multiset(r) == multiset(posts) + multiset{p}
  {
    if posts == [] || posts[0].pubDate <= p.pubDate then [p] + posts
    else
      assert posts == [posts[0]] + posts[1..];
      [posts[0]] + InsertByDate(posts[1..], p)
  }

  /** Inserting by date keeps a listing newest first. */
  lemma {:induction false} InsertByDateNewestFirst(posts: seq<Post>, p: Post)
    requires NewestFirst(posts)
    ensures NewestFirst(InsertByDate(posts, p))
  {
    if posts != [] && posts[0].pubDate > p.pubDate {
      InsertByDateNewestFirst(posts[1..], p);
      var rest := InsertByDate(posts[1..], p);
      forall q | q in rest ensures q.pubDate <= posts[0].pubDate {
        assert q in multiset(rest);
        if q != p {
          assert q in posts[1..];
        }
      }
    }
  }

  /** A post no older than any of a newest-first listing can head it. */
  lemma ConsNewestFirst(p: Post, rest: seq<Post>)
    requires NewestFirst(rest)
    requires forall q :: q in rest ==> q.pubDate <= p.pubDate
    ensures NewestFirst([p] + rest)
  {
  }

  /** Every filter over a newest-first sequence is newest first. */
  lemma {:induction false} FilterNewestFirst(posts: seq<Post>, keep: Post -> bool)
    requires NewestFirst(posts)
    ensures NewestFirst(Seqs.Filter(posts, keep))
  {
    if posts != [] {
      assert NewestFirst(posts[1..]);
      FilterNewestFirst(posts[1..], keep);
      var rest := Seqs.Filter(posts[1..], keep);
      if keep(posts[0]) {
        forall q | q in rest ensures q.pubDate <= posts[0].pubDate {
          var k :| 0 <= k < |posts[1..]| && posts[1..][k] == q;
          assert posts[k + 1] == q;
        }
        ConsNewestFirst(posts[0], rest);
        assert Seqs.Filter(posts, keep) == [posts[0]] + rest;
      } else {
        assert Seqs.Filter(posts, keep) == rest;
      }
    }
  }

  /** Filtering keeps post keys unique. */
  lemma {:induction false} FilterUniqueIds(posts: seq<Post>, keep: Post -> bool)
    requires UniquePostIds(posts)
    ensures UniquePostIds(Seqs.Filter(posts, keep))
  {
    if posts != [] {
      FilterUniqueIds(posts[1..], keep);
      forall q | q in Seqs.Filter(posts[1..], keep) ensures q.id != posts[0].id {
        var k :| 0 <= k < |posts[1..]| && posts[1..][k] == q;
        assert posts[k + 1] == q;
      }
    }
  }

  /** Every filter of comments with unique keys has unique keys. */
  lemma {:induction false} FilterUniqueCommentIds(comments: seq<Comment>, keep: Comment -> bool)
    requires UniqueCommentIds(comments)
    ensures UniqueCommentIds(Seqs.Filter(comments, keep))
  {
    if comments != [] {
      FilterUniqueCommentIds(comments[1..], keep);
      forall c | c in Seqs.Filter(comments[1..], keep) ensures c.id != comments[0].id {
        var k :| 0 <= k < |comments[1..]| && comments[1..][k] == c;
        assert comments[k + 1] == c;
      }
    }
  }

  // ---------------------------------------------------------------- lookups

  /** `get_object_or_404(Post, pk=id)` without the 404: the post with that key, if any. */
  function FindPost(posts: seq<Post>, id: Id): (r: Option<Post>)
    ensures r.None? <==> id !in PostIds(posts)
    ensures r.Some? ==> r.value in posts && r.value.id == id
  {
    if posts == [] then None
    else if posts[0].id == id then Some(posts[0])
    else FindPost(posts[1..], id)
  }

  /** The group with that slug, if any. */
  function FindGroupBySlug(groups: seq<Group>, slug: string): (r: Option<Group>)
    ensures r.None? <==> forall g :: g in groups ==> g.slug != slug
    ensures r.Some? ==> r.value in groups && r.value.slug == slug
  {
    if groups == [] then None
    else if groups[0].slug == slug then Some(groups[0])
    else FindGroupBySlug(groups[1..], slug)
  }

  // ---------------------------------------------------------------- deletion rules

  /** A post whose group is deleted: the reference is set to null and nothing else changes. */
  function DetachPost(p: Post, groupId: Id): (q: Post)
    ensures q == p.(group := q.group)
    ensures q.group != Some(groupId)
    ensures p.group == Some(groupId) ==> q.group == None
    ensures p.group != Some(groupId) ==> q == p
  {
    if p.group == Some(groupId) then p.(group := None) else p
  }

  /** `on_delete=SET_NULL` on a post's group: every post stays, those of the group lose it. */
  function DetachGroup(posts: seq<Post>, groupId: Id): (r: seq<Post>)
    ensures |r| == |posts|
    ensures forall i :: 0 <= i < |r| ==> r[i] == DetachPost(posts[i], groupId)
  {
    if posts == [] then [] else [DetachPost(posts[0], groupId)] + DetachGroup(posts[1..], groupId)
  }

  /**
   * Deleting a group keeps every post with the same key, text, author and date, and leaves none
   * of them in the deleted group; the order of the listing is kept.
   */
  lemma DeleteGroupKeepsPosts(posts: seq<Post>, groupId: Id)
    ensures PostIds(DetachGroup(posts, groupId)) == PostIds(posts)
    ensures forall q :: q in DetachGroup(posts, groupId) ==> q.group != Some(groupId)
    ensures forall p :: p in posts && p.group == Some(groupId) ==> p.(group := None) in DetachGroup(posts, groupId)
    ensures NewestFirst(posts) ==> NewestFirst(DetachGroup(posts, groupId))
  {
  }

  /** The rows that remain when the post with key `postId` is deleted. */
  function PostsWithout(posts: seq<Post>, postId: Id): (r: seq<Post>)
    ensures forall p :: p in r <==> p in posts && p.id != postId
  {
    Seqs.Filter(posts, (p: Post) => p.id != postId)
  }

  /** `on_delete=CASCADE` on a comment's post: the comments of that post go with it. */
  function CommentsWithout(comments: seq<Comment>, postId: Id): (r: seq<Comment>)
    ensures forall c :: c in r <==> c in comments && c.post != postId
  {
    Seqs.Filter(comments, (c: Comment) => c.post != postId)
  }

  /** The comments of one post, in the order they were stored. */
  function CommentsOf(comments: seq<Comment>, postId: Id): (r: seq<Comment>)
    ensures forall c :: c in r <==> c in comments && c.post == postId
    ensures UniqueCommentIds(comments) ==> UniqueCommentIds(r)
  {
    var keep := (c: Comment) => c.post == postId;
    assert UniqueCommentIds(comments) ==> UniqueCommentIds(Seqs.Filter(comments, keep)) by {
      if UniqueCommentIds(comments) {
        FilterUniqueCommentIds(comments, keep);
      }
    }
    Seqs.Filter(comments, keep)
  }

  /** The cascade leaves every other post's comments exactly as they were, order included. */
  lemma {:induction false} CascadeKeepsOtherComments(comments: seq<Comment>, postId: Id, other: Id)
    requires other != postId
    ensures CommentsOf(CommentsWithout(comments, postId), other) == CommentsOf(comments, other)
    ensures CommentsOf(CommentsWithout(comments, postId), postId) == []
  {
    if comments != [] {
      CascadeKeepsOtherComments(comments[1..], postId, other);
    }
  }

  /** The rows that remain when the group with key `groupId` is deleted. */
  function GroupsWithout(groups: seq<Group>, groupId: Id): (r: seq<Group>)
    ensures forall g :: g in r <==> g in groups && g.id != groupId
  {
    Seqs.Filter(groups, (g: Group) => g.id != groupId)
  }
}
