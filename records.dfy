/** The records of the blog's three JSON files, as values: posts and bookmarks
    (a bookmark is a saved copy of a post) and comments. */
module Records {

  datatype Option<T> = None | Some(value: T)

  /** A post or a bookmark. A post read straight from the posts file carries no
      comment count and no ending; both are filled in when comments are joined in. */
  datatype Post = Post(
    pk: int,
    posterName: string,
    content: string,
    commentsCount: Option<int>,
    ending: Option<string>)

  /** A comment: its own key, the key of the post it belongs to, who wrote it and what. */
  datatype Comment = Comment(pk: int, postId: int, commenterName: string, text: string)

  /** Some record of `s` has key `id`. */
  predicate HasPk(s: seq<Post>, id: int)
  {
    exists i :: 0 <= i < |s| && s[i].pk == id
  }

  /** No two records of `s` share a key. */
  predicate UniquePks(s: seq<Post>)
  {
    forall i, j :: 0 <= i < j < |s| ==> s[i].pk != s[j].pk
  }

  /** The position of the first record of `s` whose key is `id`, if there is one. */
  function FirstPk(s: seq<Post>, id: int): (r: Option<nat>)
    ensures r.None? <==> !HasPk(s, id)
    ensures r.Some? ==> r.value < |s| && s[r.value].pk == id
    ensures r.Some? ==> forall j :: 0 <= j < r.value ==> s[j].pk != id
  {
    if s == [] then None
    else if s[0].pk == id then Some(0)
    else
      match FirstPk(s[1..], id)
      case None =>
        assert forall i :: 1 <= i < |s| ==> s[i] == s[1..][i - 1];
        None
      case Some(k) =>
        assert s[k + 1] == s[1..][k];
        assert forall j :: 1 <= j < k + 1 ==> s[j] == s[1..][j - 1];
        Some(k + 1)
  }

  /** The position found by a scan that stopped at the first key `id` is `FirstPk`'s. */
  lemma FirstPkAt(s: seq<Post>, id: int, i: nat)
    requires i < |s| && s[i].pk == id
    requires forall k :: 0 <= k < i ==> s[k].pk != id
    ensures FirstPk(s, id) == Some(i)
  {
  }
}
