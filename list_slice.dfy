/**
 * The list state shared by the blog slice and the comment slice: a list of items,
 * a loading flag and an "item being edited" slot, with the reducers setPosts,
 * addPost, updatePost, removePost, setLoading and setEditingPost and the selectors.
 * The two slices differ only in their item type; both identify an item by its `id`
 * field, which the class receives as the function `key`.
 */
module ListSlice {
  import opened Wrappers

  /** `i` is the first position of `s` whose item has key `id`. */
  ghost predicate IsFirstMatch<T>(s: seq<T>, key: T -> string, id: string, i: int)
  {
    0 <= i < |s| && key(s[i]) == id && forall j :: 0 <= j < i ==> key(s[j]) != id
  }

  /** The position that `findIndex(item => item.id === id)` reports: the first match, or -1. */
  function IndexOf<T>(s: seq<T>, key: T -> string, id: string): (r: int)
    ensures -1 <= r < |s|
    ensures r == -1 <==> forall j :: 0 <= j < |s| ==> key(s[j]) != id
    ensures r != -1 ==> IsFirstMatch(s, key, id, r)
    decreases |s|
  {
    if |s| == 0 then -1
    else if key(s[0]) == id then 0
    else
      var k := IndexOf(s[1..], key, id);
      if k == -1 then -1 else k + 1
  }

  /** The list after updatePost(p): the first item with p's key is replaced by p. */
  function Replaced<T>(s: seq<T>, key: T -> string, p: T): (r: seq<T>)
    ensures |r| == |s|
  {
    var i := IndexOf(s, key, key(p));
    if i == -1 then s else s[i := p]
  }

  /** The list after removePost(id): `filter(item => item.id !== id)`. */
  function Without<T>(s: seq<T>, key: T -> string, id: string): (r: seq<T>)
    ensures |r| <= |s|
    ensures forall x | x in r :: key(x) != id
    decreases |s|
  {
    if |s| == 0 then []
    else
      var rest := Without(s[1..], key, id);
      if key(s[0]) != id then [s[0]] + rest else rest
  }

  /** `a` is obtained from `b` by deleting items, without reordering what is left. */
  ghost predicate IsSubsequence<T>(a: seq<T>, b: seq<T>)
    decreases |b|
  {
    if |a| == 0 then true
    else if |b| == 0 then false
    else if a[0] == b[0] then IsSubsequence(a[1..], b[1..])
    else IsSubsequence(a, b[1..])
  }

  /** updatePost keeps the length, replaces exactly the first match, and is a no-op without a match. */
  lemma ReplacedSpec<T>(s: seq<T>, key: T -> string, p: T)
    ensures |Replaced(s, key, p)| == |s|
    ensures forall i | IsFirstMatch(s, key, key(p), i) ::
      Replaced(s, key, p)[i] == p &&
      forall k | 0 <= k < |s| && k != i :: Replaced(s, key, p)[k] == s[k]
    ensures (forall j :: 0 <= j < |s| ==> key(s[j]) != key(p)) ==> Replaced(s, key, p) == s
  {
    var i := IndexOf(s, key, key(p));
    forall m | IsFirstMatch(s, key, key(p), m)
      ensures m == i
    {
    }
  }

  /** After an update with a matching item, that item is found where it was looked up. */
  lemma ReplacedFindsPayload<T>(s: seq<T>, key: T -> string, p: T)
    requires exists j :: 0 <= j < |s| && key(s[j]) == key(p)
    ensures IndexOf(Replaced(s, key, p), key, key(p)) == IndexOf(s, key, key(p))
    ensures Replaced(s, key, p)[IndexOf(s, key, key(p))] == p
  {
    var i := IndexOf(s, key, key(p));
    var r := Replaced(s, key, p);
    assert r == s[i := p];
    var k := IndexOf(r, key, key(p));
    assert key(r[i]) == key(p);
    assert k != -1;
  }

  /** Filtering a list extended by one item filters the prefix and keeps or drops that item. */
  lemma {:induction false} WithoutSnoc<T>(s: seq<T>, x: T, key: T -> string, id: string)
    ensures Without(s + [x], key, id) == Without(s, key, id) + (if key(x) != id then [x] else [])
    decreases |s|
  {
    if |s| == 0 {
      assert s + [x] == [x];
      assert [x][1..] == [];
    } else {
      assert (s + [x])[0] == s[0];
      assert (s + [x])[1..] == s[1..] + [x];
      WithoutSnoc(s[1..], x, key, id);
    }
  }

  /** removePost keeps every occurrence of every item whose key differs, and drops all others. */
  lemma {:induction false} WithoutMultiset<T>(s: seq<T>, key: T -> string, id: string)
    ensures forall x :: multiset(Without(s, key, id))[x] == if key(x) != id then multiset(s)[x] else 0
    decreases |s|
  {
    if |s| > 0 {
      WithoutMultiset(s[1..], key, id);
      assert s == [s[0]] + s[1..];
      assert multiset(s) == multiset([s[0]]) + multiset(s[1..]);
    }
  }

  /** The survivors of removePost appear in their original relative order. */
  lemma {:induction false} WithoutIsSubsequence<T>(s: seq<T>, key: T -> string, id: string)
    ensures IsSubsequence(Without(s, key, id), s)
    decreases |s|
  {
    if |s| > 0 {
      var rest := Without(s[1..], key, id);
      WithoutIsSubsequence(s[1..], key, id);
      if key(s[0]) != id {
        assert ([s[0]] + rest)[1..] == rest;
      } else if |rest| > 0 {
        assert rest[0] in rest;
        assert rest[0] != s[0];
      }
    }
  }

  /** Removing an id that no item carries changes nothing. */
  lemma {:induction false} WithoutAbsent<T>(s: seq<T>, key: T -> string, id: string)
    requires forall j :: 0 <= j < |s| ==> key(s[j]) != id
    ensures Without(s, key, id) == s
    decreases |s|
  {
    if |s| > 0 {
      WithoutAbsent(s[1..], key, id);
      assert [s[0]] + s[1..] == s;
    }
  }

  /** removePost is idempotent. */
  lemma WithoutIdempotent<T>(s: seq<T>, key: T -> string, id: string)
    ensures Without(Without(s, key, id), key, id) == Without(s, key, id)
  {
    var r := Without(s, key, id);
    forall j | 0 <= j < |r|
      ensures key(r[j]) != id
    {
      assert r[j] in r;
    }
    WithoutAbsent(r, key, id);
  }

  class ListState<T> {
    /** The identifier of an item (its `id` field). */
    const key: T -> string
    var posts: seq<T>
    var loading: bool
    var editingPost: Option<T>

    /** initialState: no items, not loading, nothing being edited. */
    constructor (key: T -> string)
      ensures this.key == key
      ensures posts == [] && !loading && editingPost == None
      ensures SelectPosts() == [] && !SelectLoading() && SelectEditingPost() == None
    {
      this.key := key;
      posts := [];
      loading := false;
      editingPost := None;
    }

    /** setPosts: the list is replaced wholesale. */
    method SetPosts(xs: seq<T>)
      modifies this
      ensures posts == xs && SelectPosts() == xs
      ensures loading == old(loading) && editingPost == old(editingPost)
    {
      posts := xs;
    }

    /** addPost: `unshift`, the new item goes in front. */
    method AddPost(p: T)
      modifies this
      ensures posts == [p] + old(posts)
      ensures |posts| == |old(posts)| + 1 && posts[0] == p && SelectPosts()[0] == p
      ensures loading == old(loading) && editingPost == old(editingPost)
    {
      posts := [p] + posts;
    }

    /** `posts.findIndex(item => item.id === id)`. */
    method FindIndex(id: string) returns (index: int)
      ensures index == IndexOf(posts, key, id)
    {
      var i := 0;
      while i < |posts|
        invariant 0 <= i <= |posts|
        invariant forall j :: 0 <= j < i ==> key(posts[j]) != id
      {
        if key(posts[i]) == id {
          return i;
        }
        i := i + 1;
      }
      return -1;
    }

    /** updatePost: assign the payload at the first index carrying its id, if any. */
    method UpdatePost(p: T)
      modifies this
      ensures posts == Replaced(old(posts), key, p)
      ensures loading == old(loading) && editingPost == old(editingPost)
    {
      var index := FindIndex(key(p));
      if index != -1 {
        posts := posts[index := p];
      }
    }

    /** `posts.filter(item => item.id !== id)`. */
    method Filtered(id: string) returns (kept: seq<T>)
      ensures kept == Without(posts, key, id)
    {
      kept := [];
      var i := 0;
      while i < |posts|
        invariant 0 <= i <= |posts|
        invariant kept == Without(posts[..i], key, id)
      {
        WithoutSnoc(posts[..i], posts[i], key, id);
        assert posts[..i + 1] == posts[..i] + [posts[i]];
        if key(posts[i]) != id {
          kept := kept + [posts[i]];
        }
        i := i + 1;
      }
      assert posts[..i] == posts;
    }

    /** removePost: keep the items whose id differs. */
    method RemovePost(id: string)
      modifies this
      ensures posts == Without(old(posts), key, id)
      ensures loading == old(loading) && editingPost == old(editingPost)
    {
      posts := Filtered(id);
    }

    /** setLoading: only the flag changes. */
    method SetLoading(b: bool)
      modifies this
      ensures loading == b && SelectLoading() == b
      ensures posts == old(posts) && editingPost == old(editingPost)
    {
      loading := b;
    }

    /** setEditingPost: only the slot changes. */
    method SetEditingPost(e: Option<T>)
      modifies this
      ensures editingPost == e && SelectEditingPost() == e
      ensures posts == old(posts) && loading == old(loading)
    {
      editingPost := e;
    }

    /** selectPosts. */
    function SelectPosts(): seq<T>
      reads this
    {
      posts
    }

    /** selectLoading. */
    function SelectLoading(): bool
      reads this
    {
      loading
    }

    /** selectEditingPost. */
    function SelectEditingPost(): Option<T>
      reads this
    {
      editingPost
    }
  }
}
