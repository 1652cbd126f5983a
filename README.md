# A verified model of the blog client's state and pagination logic

The application is a small React blog client. It delegates authentication, row storage and file
storage to a hosted backend. What it computes itself, and what this project models, falls into four parts.

- **The blog and comment list slices** (`blogSlice.ts`, `commentSlice.ts`). Each Redux slice holds a
  list of items, a `loading` flag and an `editingPost` slot. Its reducers are `setPosts`,
  `addPost` (unshift), `updatePost` (findIndex, then assign), `removePost` (filter by id),
  `setLoading` and `setEditingPost`, plus three selectors. The two slices differ only in their
  item type. Both are modelled by one class, `ListSlice.ListState<T>`, whose `key` is the item's
  `id` field. `BlogSlice` and `CommentSlice` define the item datatypes and the two initial states.
  Each reducer is a method whose postcondition gives the new list as a function of the old one:
  `IndexOf` for findIndex, `Replaced` for updatePost and `Without` for the filter. The lemmas
  about those functions state what the reducers promise. `findIndex` and `filter` are loops,
  proved against those functions.
- **The comment list's pagination arithmetic** (`CommentList.tsx`), as pure integer functions in
  `Pagination`:
  - the requested row range;
  - the total taken from the response and the page count `max(1, ceil(total / perPage))`;
  - the page chosen after a delete;
  - the Prev/Next targets and when those buttons are disabled;
  - the list of page buttons.

  `Math.ceil(a / b)` is written `-((-a) / b)`, which is exact because Dafny's `/` rounds down for
  a positive divisor.
- **The session store** (`authSlice.ts`): `AuthSlice.AuthState<U, S>` holds a nullable user and
  session. The provider's user and session types are type parameters.
- **The storage path of an uploaded image** (`imageUpload.ts`). The extension is
  `name.split('.').pop()`, and the path is `blog-images/<userId>/<timestamp>.<ext>`. `split` is
  modelled faithfully: a name without a dot is its own extension, and a name ending in a dot has
  an empty one. `Date.now()` is a `nat` parameter, rendered in decimal as a template literal does.

Three behaviours of the code that the model keeps as they are:
- `fetchPosts` applies whatever response arrives. Nothing drops a superseded response.
- After a delete, `handleDelete` always navigates to `min(page, newTotalPages)` and refetches.
  It does this even when the page does not change.
- The session store does not tie `user` to `session`. `setSession` stores whatever pair it is
  given. Its callers pass `session?.user ?? null`, but that is outside the store.

## Model

| member | source | states |
|---|---|---|
| `ListSlice.ListState.constructor` | src/features/blog/blogSlice.ts:18-22 | The initial state has no items, is not loading and has no item being edited. The selectors selectPosts, selectLoading and selectEditingPost (blogSlice.ts:54-56) read exactly that. The comment slice's initial state (commentSlice.ts:20-24) is the same. |
| `BlogSlice.InitialState` | src/features/blog/blogSlice.ts:4-22 | A new blog slice is empty, not loading and not editing, and it identifies a post by its `id`. |
| `CommentSlice.InitialState` | src/features/blog/post/comment/commentSlice.ts:4-24 | A new comment slice is empty, not loading and not editing, and it identifies a comment by its `id`. `post_id` plays no part. |
| `ListSlice.ListState.SetPosts` | src/features/blog/blogSlice.ts:28-30 | The list becomes exactly the payload, with no filtering, and selectPosts (blogSlice.ts:54) reads the payload back. `loading` and `editingPost` are unchanged. The comment slice's version is commentSlice.ts:30-32. |
| `ListSlice.ListState.AddPost` | src/features/blog/blogSlice.ts:31-33 | The payload is prepended: the length grows by one, the payload is at index 0 (which is also the first item selectPosts reads) and the old list follows. The other fields are unchanged. The comment slice's version is commentSlice.ts:33-35. |
| `ListSlice.IndexOf` | src/features/blog/blogSlice.ts:35 | findIndex returns -1 exactly when no item has the id. Otherwise it returns the first position holding that id. |
| `ListSlice.Replaced` | src/features/blog/blogSlice.ts:34-39 | The list after updatePost has the same length. ReplacedSpec states which position changes. |
| `ListSlice.ListState.FindIndex` | src/features/blog/blogSlice.ts:35 | The loop over the list returns the findIndex result. |
| `ListSlice.ListState.UpdatePost` | src/features/blog/blogSlice.ts:34-39 | The new list is the old one with the first item carrying the payload's id replaced. The other fields are unchanged. The comment slice's version is commentSlice.ts:36-41. |
| `ListSlice.ReplacedSpec` | src/features/blog/blogSlice.ts:34-39 | updatePost keeps the length. With a match, only the first matching position changes, and it holds the payload. Without a match, the list is unchanged. |
| `ListSlice.ReplacedFindsPayload` | src/features/blog/blogSlice.ts:34-39 | After an update with a match, looking up the payload's id finds the same position, which now holds the payload. |
| `ListSlice.Without` | src/features/blog/blogSlice.ts:41 | The filtered list is no longer than the original, and none of its items has the removed id. |
| `ListSlice.ListState.Filtered` | src/features/blog/blogSlice.ts:41 | The loop over the list builds exactly the filtered list. |
| `ListSlice.WithoutSnoc` | src/features/blog/blogSlice.ts:41 | Filtering a list extended by one item filters the prefix, then keeps the item if its id differs and drops it otherwise. |
| `ListSlice.ListState.RemovePost` | src/features/blog/blogSlice.ts:40-42 | The new list is the old one without the items carrying the id. The other fields are unchanged. The comment slice's version is commentSlice.ts:42-44. |
| `ListSlice.WithoutMultiset` | src/features/blog/blogSlice.ts:40-42 | removePost keeps every occurrence of every item whose id differs and drops all the others. |
| `ListSlice.WithoutIsSubsequence` | src/features/blog/blogSlice.ts:40-42 | The items left by removePost keep their original relative order. |
| `ListSlice.WithoutAbsent` | src/features/blog/blogSlice.ts:40-42 | Removing an id that no item carries leaves the list unchanged. |
| `ListSlice.WithoutIdempotent` | src/features/blog/blogSlice.ts:40-42 | Applying removePost twice with the same id gives the same list as applying it once. |
| `ListSlice.ListState.SetLoading` | src/features/blog/blogSlice.ts:43-45 | Only `loading` changes, and selectLoading (blogSlice.ts:55) reads the new flag. `posts` and `editingPost` are untouched. The comment slice's version is commentSlice.ts:45-47. |
| `ListSlice.ListState.SetEditingPost` | src/features/blog/blogSlice.ts:46-48 | Only `editingPost` changes, and selectEditingPost (blogSlice.ts:56) reads the new slot. `posts` and `loading` are untouched. The comment slice's version is commentSlice.ts:48-50. |
| `Pagination.PageRange` | src/features/blog/post/comment/CommentList.tsx:35-36 | Each page asks for exactly `perPage` rows. The range starts at row 0 or later exactly when the page is 1 or more. |
| `Pagination.RangesAdjacent` | src/features/blog/post/comment/CommentList.tsx:35-36 | Page p's range ends one row before page p+1's range starts. |
| `Pagination.RowOnExactlyOnePage` | src/features/blog/post/comment/CommentList.tsx:35-36 | Every row index at 0 or above lies in the range of exactly one page, and that page is 1 or more. |
| `Pagination.CeilDiv` | src/features/blog/post/comment/CommentList.tsx:48 | `Math.ceil(a / b)` for `b > 0`: the unique r with `(r-1)*b < a <= r*b`. |
| `Pagination.TotalPages` | src/features/blog/post/comment/CommentList.tsx:48 | The page count is at least 1 and covers the total. For a positive total, `(pages-1)*perPage < total <= pages*perPage`. |
| `Pagination.TotalPagesStep` | src/features/blog/post/comment/CommentList.tsx:48 | One more row never lowers the page count and raises it by at most one. |
| `Pagination.PagesCoverTotal` | src/features/blog/post/comment/CommentList.tsx:35-48 | For a positive total, every page from 1 to the page count starts inside the collection. Every page before the last is full, and the last page reaches the final row. |
| `Pagination.FetchedTotal` | src/features/blog/post/comment/CommentList.tsx:46 | The total is the server's count when present, else the length of the returned data, else 0. It is never negative unless the server's count is. |
| `Pagination.AfterFetch` | src/features/blog/post/comment/CommentList.tsx:45-48 | After a fetch, the stored rows are the returned data, or the empty list when the data is null (line 45). `totalCount` is the fetched total, which is the number of stored rows when the server gives no count. `totalPages` is the page count of that total, and is at least 1. |
| `Pagination.InitialConsistent` | src/features/blog/post/comment/CommentList.tsx:22-24 | The initial empty list with `totalCount = 0` and `totalPages = 1` satisfies the page-count relation for 5 rows per page. |
| `Pagination.AfterDelete` | src/features/blog/post/comment/CommentList.tsx:71-73 | After a delete, the new total is exactly `max(0, totalCount - 1)`, and the new page count is computed from it. The new page is at most the old page and at most the new page count. It is at least 1 when the old page was, and it is either the old page or the new page count. |
| `Pagination.DeleteMovesBackAtMostOne` | src/features/blog/post/comment/CommentList.tsx:71-73 | Deleting a row from a valid page stays on that page or moves back by exactly one. Before the last page it stays put. |
| `Pagination.DeleteLastOnLastPage` | src/features/blog/post/comment/CommentList.tsx:71-73 | With 6 comments, 5 per page, on page 2: after a delete, the new total is 5, there is 1 page and the new page is 1. |
| `Pagination.PrevTarget` | src/features/blog/post/comment/CommentList.tsx:137 | The Prev target is at least 1 and at most one page back. |
| `Pagination.PrevDisabled` | src/features/blog/post/comment/CommentList.tsx:137 | `disabled={page === 1}`. PrevSpec proves it holds exactly when the Prev target equals the current page. |
| `Pagination.PrevSpec` | src/features/blog/post/comment/CommentList.tsx:137 | From page 1 or later, the target is in `[1, page]`. Prev is disabled exactly when its target is the current page, i.e. page 1. Otherwise it goes back one page. |
| `Pagination.NextTarget` | src/features/blog/post/comment/CommentList.tsx:155 | The Next target is at most `totalPages` and at most one page ahead. |
| `Pagination.NextDisabled` | src/features/blog/post/comment/CommentList.tsx:155 | `disabled={page >= totalPages}`. NextSpec proves that, within range, it holds exactly when the Next target equals the current page. |
| `Pagination.NextSpec` | src/features/blog/post/comment/CommentList.tsx:155 | Within range, the target is in `[page, totalPages]`. Next is disabled exactly when its target is the current page. When enabled it advances one page. Past the last page it is disabled and points backwards. |
| `Pagination.PageButtons` | src/features/blog/post/comment/CommentList.tsx:141-142 | There are `max(1, totalPages)` buttons. |
| `Pagination.PageButtonsSpec` | src/features/blog/post/comment/CommentList.tsx:141-142 | The buttons are exactly the pages `1..max(1, totalPages)`, in strictly increasing order, starting at 1. |
| `Pagination.ActiveButton` | src/features/blog/post/comment/CommentList.tsx:141-148 | A page within range is marked on exactly one button, at position page-1. A page out of range is marked on none. |
| `AuthSlice.AuthState.constructor` | src/features/auth/authSlice.ts:10-13 | Initially both the user and the session are null, and selectUser and selectSession (authSlice.ts:32-33) read null. |
| `AuthSlice.AuthState.SetSession` | src/features/auth/authSlice.ts:19-22 | Both fields become exactly the payload's values, whatever they were before, and selectUser and selectSession (authSlice.ts:32-33) read them back. |
| `AuthSlice.AuthState.ClearSession` | src/features/auth/authSlice.ts:23-26 | Both fields become null, and selectUser and selectSession (authSlice.ts:32-33) read null. The new state does not depend on the old one, so clearing twice equals clearing once. |
| `ImageUpload.Split` | src/lib/imageUpload.ts:4 | `split('.')` yields at least one segment, and no segment contains the separator. |
| `ImageUpload.JoinSplit` | src/lib/imageUpload.ts:4 | Joining the segments with the separator gives back the original name. |
| `ImageUpload.SplitSingle` | src/lib/imageUpload.ts:4 | There is exactly one segment when the name has no separator, and that segment is the name itself. |
| `ImageUpload.SplitLast` | src/lib/imageUpload.ts:4 | The last segment is a suffix of the name. With several segments it follows a separator; with one it is the whole name. |
| `ImageUpload.FileExt` | src/lib/imageUpload.ts:4 | `fileExt` contains no dot. FileExtShape states the rest: it is a suffix of the name, and it is the text after the last dot. |
| `ImageUpload.FileExtShape` | src/lib/imageUpload.ts:4 | `fileExt` has no dot and is a suffix of the name. A name without a dot is its own extension. Otherwise the name is `prefix + "." + fileExt`. |
| `ImageUpload.FileExtOfDotted` | src/lib/imageUpload.ts:4-6 | Any text, a dot, then a dot-free extension: splitting that on dots returns the extension. |
| `ImageUpload.Decimal` | src/lib/imageUpload.ts:5 | The timestamp is rendered as at least one decimal digit, with no leading zero: the first digit is 0 only for the timestamp 0. |
| `ImageUpload.DecimalValue` | src/lib/imageUpload.ts:5 | The rendered digits read back as the timestamp. |
| `ImageUpload.FileName` | src/lib/imageUpload.ts:5 | `fileName` is `<userId>/<timestamp>.<fileExt>`. FilePathSpec states its parts. |
| `ImageUpload.FilePath` | src/lib/imageUpload.ts:6 | `filePath` is `fileName` under `blog-images/`. FilePathSpec states that it is exactly `"blog-images/" + userId + "/"`, then the digits, then `"." + fileExt`. |
| `ImageUpload.FilePathSpec` | src/lib/imageUpload.ts:5-6 | `filePath` is `"blog-images/" + userId + "/"`, then the timestamp's digits, then `"." + fileExt`. Splitting the path on dots gives the file's extension again. |

## Left out

- Every call to the hosted backend: row select/insert/update/delete, storage upload, public URL
  lookup and removal (`deleteBlogImage`), and sign-in, sign-up and sign-out. These are remote I/O
  into a library whose code is not part of this model. The model covers only the values handed
  to and taken from those calls.
- Asynchronous sequencing in `fetchPosts` and `handleDelete`: the `loading` toggling around the
  await, `alert` on errors, and the order in which responses arrive. The code does not guard
  against stale responses, so no such property is stated.
- `page` is a mathematical integer. The source derives it with `Number(searchParams.get('page') || '1')`,
  which can be `NaN` or fractional. Such values are not modelled.
- Posts have no pagination: `BlogList.tsx` fetches every post without a range.
- Forms (`BlogForm.tsx`, `Write.tsx`, `CommentForm.tsx`): validation is the browser's `required`
  attribute, and submission is remote calls. The image URL they choose is not modelled either.
  `CommentForm.tsx` imports `uploadCommentImage`, which `imageUpload.ts` does not define.
- The one-line author checks (`isAuthor` in `CommentComponent.tsx`, `BlogPostComponent.tsx` and
  `SinglePostPage.tsx`), rendering, routing, store wiring, `FileReader` previews and date
  formatting.
- `Date.now()` is a parameter of the path functions. JavaScript strings are UTF-16 code units;
  here a name is a sequence of `char`.
- The selectors take the root state in the source (`state.blog.posts`). Here they read the slice
  object directly.
