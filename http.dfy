/** The pages a handler can answer with or send the client to, without their URLs or templates. */
module Http {
  import opened Models

  /** The named routes of the posts application. */
  datatype Route =
    | IndexRoute
    | GroupListRoute(slug: string)
    | ProfileRoute(username: User)
    | PostDetailRoute(postId: Id)
    | PostCreateRoute
    | PostEditRoute(postId: Id)
    | AddCommentRoute(postId: Id)
    | FollowIndexRoute
    | ProfileFollowRoute(username: User)
    | ProfileUnfollowRoute(username: User)

  /**
   * A handler's answer: a rendered page with its view data, a redirect, a redirect to the login
   * page that returns to `next`, or a 404.
   */
  datatype Response<V> = Render(view: V) | Redirect(to: Route) | RedirectToLogin(next: Route) | NotFound
}
