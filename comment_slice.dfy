/** The comment slice: a ListState over CommentPost, keyed by the comment id. */
module CommentSlice {
  import opened Wrappers
  import opened ListSlice

  datatype CommentPost = CommentPost(
    id: string,
    createdAt: string,
    username: string,
    content: string,
    imageUrl: Option<string>,
    postId: string,
    userId: string)

  /**
   * The comment slice's initialState. The reducers never look at `postId`:
   * the list holds whatever setPosts was given.
   */
  method InitialState() returns (state: ListState<CommentPost>)
    ensures fresh(state)
    ensures forall c: CommentPost :: state.key(c) == c.id
    ensures state.posts == [] && !state.loading && state.editingPost == None
  {
    state := new ListState<CommentPost>((c: CommentPost) => c.id);
  }
}
