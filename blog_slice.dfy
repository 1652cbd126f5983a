/** The blog slice: a ListState over BlogPost, keyed by the post id. */
module BlogSlice {
  import opened Wrappers
  import opened ListSlice

  datatype BlogPost = BlogPost(id: string, createdAt: string, title: string, content: string, userId: string)

  /** The blog slice's initialState. */
  method InitialState() returns (state: ListState<BlogPost>)
    ensures fresh(state)
    ensures forall p: BlogPost :: state.key(p) == p.id
    ensures state.posts == [] && !state.loading && state.editingPost == None
  {
    state := new ListState<BlogPost>((p: BlogPost) => p.id);
  }
}
