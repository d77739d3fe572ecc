/** Finding posts and comments: by key, by post, by word, by tag and by author. */
module Lookups {

  import opened Records
  import opened Seqs
  import opened Text
  import opened CommentsCount
  import opened Hashtags

  /** The comments of the post with key `id`, in file order. */
  function GetPostComments(comments: seq<Comment>, id: int): (r: seq<Comment>)
    ensures IsSubsequence(r, comments)
    ensures forall c :: multiset(r)[c] == if c.postId == id then multiset(comments)[c] else 0
  {
    var keep := (c: Comment) => c.postId == id;
    FilterSpec(comments, keep);
    Filter(comments, keep)
  }

  /** The count the feed shows under a post is the number of comments its page lists. */
  lemma {:induction false} CommentCountIsPostComments(comments: seq<Comment>, id: int)
    ensures |GetPostComments(comments, id)| == CommentCount(comments, id)
  {
    if comments != [] {
      CommentCountIsPostComments(comments[1..], id);
      assert GetPostComments(comments, id) ==
        (if comments[0].postId == id then [comments[0]] else []) + GetPostComments(comments[1..], id);
    }
  }

  /** The keyword occurs in the post's text, ignoring case. */
  predicate MentionsWord(p: Post, word: string)
  {
    IsSubstring(Lower(word), Lower(p.content))
  }

  /** The post's text holds `#tag`, case included. */
  predicate HasTag(p: Post, tag: string)
  {
    IsSubstring("#" + tag, p.content)
  }

  /** The name occurs in the poster's name, ignoring case. */
  predicate PostedBy(p: Post, user: string)
  {
    IsSubstring(Lower(user), Lower(p.posterName))
  }

  /** The joined posts that mention `word`, in feed order. */
  function GetPostsByWord(posts: seq<Post>, comments: seq<Comment>, word: string): (r: seq<Post>)
    ensures IsSubsequence(r, WithCommentsCount(posts, comments))
    ensures forall p ::
      multiset(r)[p] == if MentionsWord(p, word) then multiset(WithCommentsCount(posts, comments))[p] else 0
  {
    var all := WithCommentsCount(posts, comments);
    var keep := (p: Post) => MentionsWord(p, word);
    FilterSpec(all, keep);
    Filter(all, keep)
  }

  /** The joined posts tagged `#tag`, in feed order. */
  function GetPostsByTag(posts: seq<Post>, comments: seq<Comment>, tag: string): (r: seq<Post>)
    ensures IsSubsequence(r, WithCommentsCount(posts, comments))
    ensures forall p ::
      multiset(r)[p] == if HasTag(p, tag) then multiset(WithCommentsCount(posts, comments))[p] else 0
  {
    var all := WithCommentsCount(posts, comments);
    var keep := (p: Post) => HasTag(p, tag);
    FilterSpec(all, keep);
    Filter(all, keep)
  }

  /** The joined posts whose poster's name holds `user`, in feed order. */
  function GetPostsByUser(posts: seq<Post>, comments: seq<Comment>, user: string): (r: seq<Post>)
    ensures IsSubsequence(r, WithCommentsCount(posts, comments))
    ensures forall p ::
      multiset(r)[p] == if PostedBy(p, user) then multiset(WithCommentsCount(posts, comments))[p] else 0
  {
    var all := WithCommentsCount(posts, comments);
    var keep := (p: Post) => PostedBy(p, user);
    FilterSpec(all, keep);
    Filter(all, keep)
  }

  /** Whether some record of `list` has key `id`; the scan stops at the first one. */
  method IsPostInListCheck(id: int, list: seq<Post>) returns (found: bool)
    ensures found <==> HasPk(list, id)
  {
    for i := 0 to |list|
      invariant forall k :: 0 <= k < i ==> list[k].pk != id
    {
      if id == list[i].pk {
        return true;
      }
    }
    return false;
  }

  /** What the post page shows for key `id`: the first post with that key, its text
      with hashtags turned into links; nothing when no post has that key. */
  function PostByPk(posts: seq<Post>, id: int): (r: Option<Post>)
    ensures r.None? <==> !HasPk(posts, id)
    ensures r.Some? ==>
      var k := FirstPk(posts, id).value;
      r.value == posts[k].(content := ReplaceHashtags(posts[k].content))
  {
    match FirstPk(posts, id)
    case None => None
    case Some(k) => Some(posts[k].(content := ReplaceHashtags(posts[k].content)))
  }

  /** The source's scan over the joined posts, returning at the first post with key `id`. */
  method GetPostByPk(posts: seq<Post>, comments: seq<Comment>, id: int) returns (r: Option<Post>)
    ensures r == PostByPk(WithCommentsCount(posts, comments), id)
  {
    var all := GetPostsWithCommentsCount(posts, comments);
    for i := 0 to |all|
      invariant forall k :: 0 <= k < i ==> all[k].pk != id
    {
      var post := all[i];
      if post.pk == id {
        FirstPkAt(all, id, i);
        var linked := ReplaceHashtagsWithLinks(post.content);
        r := Some(post.(content := linked));
        return;
      }
    }
    return None;
  }
}
