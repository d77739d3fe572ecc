/** Joining posts with their comment counts, so that the feed can show
    "N комментариев" under each post. */
module CommentsCount {

  import opened Records
  import opened Endings

  /** How many of `comments` belong to the post with key `id`. */
  function CommentCount(comments: seq<Comment>, id: int): (n: nat)
    ensures n <= |comments|
    ensures n == 0 <==> forall i :: 0 <= i < |comments| ==> comments[i].postId != id
  {
    if comments == [] then 0
    else
      assert forall i :: 1 <= i < |comments| ==> comments[i] == comments[1..][i - 1];
      (if comments[0].postId == id then 1 else 0) + CommentCount(comments[1..], id)
  }

  /** Counting over a list with one more comment at its end. */
  lemma {:induction false} CommentCountSnoc(comments: seq<Comment>, c: Comment)
    ensures forall id ::
      CommentCount(comments + [c], id) == CommentCount(comments, id) + (if c.postId == id then 1 else 0)
  {
    if comments != [] {
      CommentCountSnoc(comments[1..], c);
      assert (comments + [c])[1..] == comments[1..] + [c];
    }
  }

  /** A post with its comment count and the matching ending filled in. */
  function Annotate(p: Post, n: nat): Post
  {
    p.(commentsCount := Some(n), ending := Some(SetEnding(n)))
  }

  /** The posts as the feed shows them: the same posts in the same order, each with
      the number of comments whose post key is its key, the ending for that number,
      and nothing else altered. */
  function WithCommentsCount(posts: seq<Post>, comments: seq<Comment>): (r: seq<Post>)
    ensures |r| == |posts|
    ensures forall i :: 0 <= i < |posts| ==>
      r[i].pk == posts[i].pk && r[i].posterName == posts[i].posterName && r[i].content == posts[i].content
    ensures forall i :: 0 <= i < |posts| ==>
      r[i].commentsCount == Some(CommentCount(comments, posts[i].pk)) &&
      r[i].ending == Some(SetEnding(CommentCount(comments, posts[i].pk)))
  {
    seq(|posts|, i requires 0 <= i < |posts| => Annotate(posts[i], CommentCount(comments, posts[i].pk)))
  }

  /** The number of comments a dictionary filled by the source's first loop gives a key. */
  function Lookup(counts: map<int, nat>, id: int): nat
  {
    if id in counts then counts[id] else 0
  }

  /** The source's first loop: a dictionary from post key to number of comments. */
  method CountCommentsByPost(comments: seq<Comment>) returns (counts: map<int, nat>)
    ensures forall id :: Lookup(counts, id) == CommentCount(comments, id)
  {
    counts := map[];
    for i := 0 to |comments|
      invariant forall id :: Lookup(counts, id) == CommentCount(comments[..i], id)
    {
      assert comments[..i + 1] == comments[..i] + [comments[i]];
      CommentCountSnoc(comments[..i], comments[i]);
      var postId := comments[i].postId;
      if postId in counts {
        counts := counts[postId := counts[postId] + 1];
      } else {
        counts := counts[postId := 1];
      }
    }
    assert comments[..|comments|] == comments;
  }

  /** The source's two loops: count the comments of each post key into a dictionary,
      then write the count and the ending into every post. */
  method GetPostsWithCommentsCount(posts: seq<Post>, comments: seq<Comment>) returns (r: seq<Post>)
    ensures r == WithCommentsCount(posts, comments)
  {
    var counts := CountCommentsByPost(comments);
    r := posts;
    for index := 0 to |posts|
      invariant |r| == |posts|
      invariant forall k :: 0 <= k < index ==> r[k] == Annotate(posts[k], CommentCount(comments, posts[k].pk))
      invariant forall k :: index <= k < |posts| ==> r[k] == posts[k]
    {
      var pk := r[index].pk;
      assert Lookup(counts, pk) == CommentCount(comments, pk);
      if pk in counts {
        r := r[index := r[index].(commentsCount := Some(counts[pk]), ending := Some(SetEnding(counts[pk])))];
      } else {
        r := r[index := r[index].(commentsCount := Some(0), ending := Some(SetEnding(0)))];
      }
    }
  }

  /** Every record of `list` carries the number of comments its post has in `comments`. */
  predicate CountsInSync(list: seq<Post>, comments: seq<Comment>)
  {
    forall i :: 0 <= i < |list| ==> list[i].commentsCount == Some(CommentCount(comments, list[i].pk))
  }
}
