/** Posting a new comment: it goes to the end of the comment list, and every
    bookmarked copy of the post counts one more comment. */
module NewComment {

  import opened Records
  import opened CommentsCount
  import opened Endings

  /** Comment keys run 1, 2, 3, ... in file order. */
  predicate PksAreConsecutive(comments: seq<Comment>)
  {
    forall i :: 0 <= i < |comments| ==> comments[i].pk == i + 1
  }

  /** The source's steps: append the comment with the next key, then add one to the
      count of each bookmark whose key is the post's. The ending of a bookmark is left
      as it was. A bookmark of that post without a count would stop the source with an
      error, so callers must not pass one. */
  method AddNewComment(name: string, text: string, id: int, comments: seq<Comment>, bookmarks: seq<Post>)
    returns (newComments: seq<Comment>, newBookmarks: seq<Post>)
    requires forall i :: 0 <= i < |bookmarks| && bookmarks[i].pk == id ==> bookmarks[i].commentsCount.Some?
    ensures newComments == comments + [Comment(|comments| + 1, id, name, text)]
    ensures |newBookmarks| == |bookmarks|
    ensures forall i :: 0 <= i < |bookmarks| && bookmarks[i].pk == id ==>
      newBookmarks[i] == bookmarks[i].(commentsCount := Some(bookmarks[i].commentsCount.value + 1))
    ensures forall i :: 0 <= i < |bookmarks| && bookmarks[i].pk != id ==> newBookmarks[i] == bookmarks[i]
    ensures forall i :: 0 <= i < |bookmarks| ==> newBookmarks[i].ending == bookmarks[i].ending
    ensures PksAreConsecutive(comments) ==> PksAreConsecutive(newComments)
    ensures CountsInSync(bookmarks, comments) ==> CountsInSync(newBookmarks, newComments)
  {
    var newComment := Comment(|comments| + 1, id, name, text);
    newComments := comments + [newComment];
    newBookmarks := bookmarks;
    for i := 0 to |newBookmarks|
      invariant |newBookmarks| == |bookmarks|
      invariant forall k :: 0 <= k < i && bookmarks[k].pk == id ==>
        newBookmarks[k] == bookmarks[k].(commentsCount := Some(bookmarks[k].commentsCount.value + 1))
      invariant forall k :: 0 <= k < i && bookmarks[k].pk != id ==> newBookmarks[k] == bookmarks[k]
      invariant forall k :: i <= k < |bookmarks| ==> newBookmarks[k] == bookmarks[k]
    {
      var bookmark := newBookmarks[i];
      if bookmark.pk == id {
        newBookmarks := newBookmarks[i := bookmark.(commentsCount := Some(bookmark.commentsCount.value + 1))];
      }
    }
    CommentCountSnoc(comments, newComment);
  }

  /** Every record that carries a comment count carries the ending for that count. */
  predicate EndingsMatchCounts(list: seq<Post>)
  {
    forall i :: 0 <= i < |list| && list[i].commentsCount.Some? ==>
      list[i].ending == Some(SetEnding(list[i].commentsCount.value))
  }

  /** The ending left behind by `AddNewComment`: take bookmarks whose endings match
      their counts, and a new list that bumps the count of the bookmark at `i` by one
      and keeps the rest of its record, as `AddNewComment`'s ensures say of every
      bookmark of post `id`. If one more comment calls for a different ending there,
      the endings of the new list no longer match their counts. From 1 to 2, for one,
      "1 комментарий" turns into "2 комментарий" where "2 комментария" is due. */
  lemma AsWrittenEndingGoesStale(bookmarks: seq<Post>, newBookmarks: seq<Post>, i: nat)
    requires i < |bookmarks| && |newBookmarks| == |bookmarks|
    requires bookmarks[i].commentsCount.Some?
    requires newBookmarks[i] == bookmarks[i].(commentsCount := Some(bookmarks[i].commentsCount.value + 1))
    requires EndingsMatchCounts(bookmarks)
    requires SetEnding(bookmarks[i].commentsCount.value + 1) != SetEnding(bookmarks[i].commentsCount.value)
    ensures !EndingsMatchCounts(newBookmarks)
  {
    var n := bookmarks[i].commentsCount.value;
    assert newBookmarks[i].commentsCount == Some(n + 1);
    assert newBookmarks[i].ending == Some(SetEnding(n));
  }

  /** The step from 1 to 2 comments is one that changes the ending. */
  lemma EndingChangesFromOneToTwo()
    ensures SetEnding(1) == "й" && SetEnding(2) == "я"
    ensures SetEnding(2) != SetEnding(1)
  {
    assert "й"[0] != "я"[0];
  }

  /** The finding's input: one bookmark of post 1 with one comment and ending "й". After
      a new comment on post 1 it reads "2 комментарий". */
  lemma StaleEndingExample(b: Post)
    requires b.pk == 1 && b.commentsCount == Some(1) && b.ending == Some("й")
    ensures EndingsMatchCounts([b])
    ensures !EndingsMatchCounts([b.(commentsCount := Some(2))])
  {
    EndingChangesFromOneToTwo();
    AsWrittenEndingGoesStale([b], [b.(commentsCount := Some(2))], 0);
  }

  /** `AddNewComment` with the bumped bookmarks also given the ending for their new
      count, as the comment-count join gives it to every post. */
  method AddNewCommentWithEnding(name: string, text: string, id: int, comments: seq<Comment>, bookmarks: seq<Post>)
    returns (newComments: seq<Comment>, newBookmarks: seq<Post>)
    requires forall i :: 0 <= i < |bookmarks| && bookmarks[i].pk == id ==> bookmarks[i].commentsCount.Some?
    ensures newComments == comments + [Comment(|comments| + 1, id, name, text)]
    ensures |newBookmarks| == |bookmarks|
    ensures forall i :: 0 <= i < |bookmarks| && bookmarks[i].pk == id ==>
      newBookmarks[i] == bookmarks[i].(
        commentsCount := Some(bookmarks[i].commentsCount.value + 1),
        ending := Some(SetEnding(bookmarks[i].commentsCount.value + 1)))
    ensures forall i :: 0 <= i < |bookmarks| && bookmarks[i].pk != id ==> newBookmarks[i] == bookmarks[i]
    ensures PksAreConsecutive(comments) ==> PksAreConsecutive(newComments)
    ensures CountsInSync(bookmarks, comments) ==> CountsInSync(newBookmarks, newComments)
    ensures EndingsMatchCounts(bookmarks) ==> EndingsMatchCounts(newBookmarks)
  {
    var newComment := Comment(|comments| + 1, id, name, text);
    newComments := comments + [newComment];
    newBookmarks := bookmarks;
    for i := 0 to |newBookmarks|
      invariant |newBookmarks| == |bookmarks|
      invariant forall k :: 0 <= k < i && bookmarks[k].pk == id ==>
        newBookmarks[k] == bookmarks[k].(
          commentsCount := Some(bookmarks[k].commentsCount.value + 1),
          ending := Some(SetEnding(bookmarks[k].commentsCount.value + 1)))
      invariant forall k :: 0 <= k < i && bookmarks[k].pk != id ==> newBookmarks[k] == bookmarks[k]
      invariant forall k :: i <= k < |bookmarks| ==> newBookmarks[k] == bookmarks[k]
    {
      var bookmark := newBookmarks[i];
      if bookmark.pk == id {
        var count := bookmark.commentsCount.value + 1;
        newBookmarks := newBookmarks[i := bookmark.(commentsCount := Some(count), ending := Some(SetEnding(count)))];
      }
    }
    CommentCountSnoc(comments, newComment);
  }
}
