/**
 * The follow table as a small state machine: what `profile_follow` and `profile_unfollow` do to
 * the stored (user, author) edges, and the guarantees that follow from the two guards.
 */
module Follows {
  import opened Models
  import Seqs

  /** `profile_follow`: the edge is created when the author is someone else and the edge is absent. */
  function Followed(follows: seq<Follow>, user: User, author: User): (r: seq<Follow>)
    ensures forall e :: e in r <==> e in follows || (e == Follow(user, author) && user != author)
    ensures UniqueFollows(follows) ==> UniqueFollows(r)
    ensures |r| == if user != author && Follow(user, author) !in follows then |follows| + 1 else |follows|
  {
    if author != user && Follow(user, author) !in follows then follows + [Follow(user, author)] else follows
  }

  /**
   * `profile_unfollow`: when the author is someone else and the edge is present, every row with
   * that (user, author) pair is deleted.
   */
  function Unfollowed(follows: seq<Follow>, user: User, author: User): (r: seq<Follow>)
    ensures forall e :: e in r <==> e in follows && (e != Follow(user, author) || user == author)
    ensures UniqueFollows(follows) ==> UniqueFollows(r)
    ensures |r| <= |follows|
  {
    if author != user && Follow(user, author) in follows then
      var r := Seqs.Filter(follows, (e: Follow) => e != Follow(user, author));
      assert UniqueFollows(follows) ==> UniqueFollows(r) by {
        if UniqueFollows(follows) {
          Seqs.FilterDistinct(follows, (e: Follow) => e != Follow(user, author));
        }
      }
      r
    else follows
  }

  /** Unfollowing a followed author removes exactly one row; anything else removes none. */
  lemma UnfollowCount(follows: seq<Follow>, user: User, author: User)
    requires UniqueFollows(follows)
    ensures |Unfollowed(follows, user, author)|
              == if user != author && Follow(user, author) in follows then |follows| - 1 else |follows|
  {
    if user != author && Follow(user, author) in follows {
      Seqs.FilterOutSingle(follows, (e: Follow) => e != Follow(user, author), Follow(user, author));
    }
  }

  /** Following twice is following once: one edge, never a duplicate; following oneself is a no-op. */
  lemma FollowIdempotent(follows: seq<Follow>, user: User, author: User)
    requires UniqueFollows(follows)
    ensures Followed(Followed(follows, user, author), user, author) == Followed(follows, user, author)
    ensures UniqueFollows(Followed(follows, user, author))
    ensures user != author ==> Follow(user, author) in Followed(follows, user, author)
    ensures Followed(follows, user, user) == follows
  {
  }

  /** Following then unfollowing a new author restores the table: one row added, then one removed. */
  lemma {:induction false} FollowUnfollowRoundTrip(follows: seq<Follow>, user: User, author: User)
    requires user != author && Follow(user, author) !in follows
    ensures |Followed(follows, user, author)| == |follows| + 1
    ensures Unfollowed(Followed(follows, user, author), user, author) == follows
  {
    var e := Follow(user, author);
    var keep := (x: Follow) => x != e;
    Seqs.FilterAppend(follows, [e], keep);
    Seqs.FilterKeepsAll(follows, keep);
    assert Seqs.Filter([e], keep) == [];
  }

  /** Unfollowing an author one does not follow, or oneself, leaves the table as it is. */
  lemma UnfollowAbsentIsNoOp(follows: seq<Follow>, user: User, author: User)
    requires user == author || Follow(user, author) !in follows
    ensures Unfollowed(follows, user, author) == follows
  {
  }

  /** No operation of the two creates a self-edge. */
  predicate NoSelfFollows(follows: seq<Follow>)
  {
    forall e :: e in follows ==> e.user != e.author
  }

  lemma NoSelfFollowsPreserved(follows: seq<Follow>, user: User, author: User)
    requires NoSelfFollows(follows)
    ensures NoSelfFollows(Followed(follows, user, author))
    ensures NoSelfFollows(Unfollowed(follows, user, author))
  {
  }
}
