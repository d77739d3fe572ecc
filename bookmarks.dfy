/** The bookmark list: adding a post to it and taking one out. */
module Bookmarks {

  import opened Records
  import opened Seqs
  import opened CommentsCount
  import opened Lookups

  /** The bookmark list after bookmarking the post with key `id` out of `posts`: the
      first post with that key is appended, unless some bookmark already has the key
      or no post has it. */
  function Bookmarked(bookmarks: seq<Post>, posts: seq<Post>, id: int): (r: seq<Post>)
    ensures |bookmarks| <= |r| <= |bookmarks| + 1 && r[..|bookmarks|] == bookmarks
    ensures |r| == |bookmarks| + 1 <==> !HasPk(bookmarks, id) && HasPk(posts, id)
    ensures |r| == |bookmarks| + 1 ==> r[|bookmarks|] == posts[FirstPk(posts, id).value]
  {
    if HasPk(bookmarks, id) then bookmarks
    else
      match FirstPk(posts, id)
      case None => bookmarks
      case Some(k) => bookmarks + [posts[k]]
  }

  /** Bookmarking with one more post at the end of the scanned posts. */
  lemma BookmarkedSnoc(bookmarks: seq<Post>, posts: seq<Post>, p: Post, id: int)
    ensures Bookmarked(bookmarks, posts + [p], id) ==
      if p.pk == id && !HasPk(Bookmarked(bookmarks, posts, id), id) then Bookmarked(bookmarks, posts, id) + [p]
      else Bookmarked(bookmarks, posts, id)
  {
    var s := posts + [p];
    assert forall k :: 0 <= k < |posts| ==> s[k] == posts[k];
    if !HasPk(bookmarks, id) {
      match FirstPk(posts, id)
      case None =>
        if p.pk == id {
          assert s[|posts|].pk == id;
          assert forall k :: 0 <= k < |posts| ==> s[k].pk != id;
          assert FirstPk(s, id) == Some(|posts|);
        } else {
          assert !HasPk(s, id);
        }
      case Some(k) =>
        assert FirstPk(s, id) == Some(k);
        assert Bookmarked(bookmarks, posts, id)[|bookmarks|].pk == id;
    }
  }

  /** The source's loop: for each joined post with key `id`, append it unless the key
      is already bookmarked. */
  method AddBookmark(bookmarks: seq<Post>, posts: seq<Post>, comments: seq<Comment>, id: int)
    returns (r: seq<Post>)
    ensures r == Bookmarked(bookmarks, WithCommentsCount(posts, comments), id)
  {
    var all := GetPostsWithCommentsCount(posts, comments);
    r := bookmarks;
    for i := 0 to |all|
      invariant r == Bookmarked(bookmarks, all[..i], id)
    {
      assert all[..i + 1] == all[..i] + [all[i]];
      BookmarkedSnoc(bookmarks, all[..i], all[i], id);
      var post := all[i];
      if id == post.pk {
        var present := IsPostInListCheck(id, r);
        if !present {
          r := r + [post];
        }
      }
    }
    assert all[..|all|] == all;
  }

  /** Bookmarking a post a second time changes nothing. */
  lemma BookmarkedIdempotent(bookmarks: seq<Post>, posts: seq<Post>, id: int)
    ensures Bookmarked(Bookmarked(bookmarks, posts, id), posts, id) == Bookmarked(bookmarks, posts, id)
  {
  }

  /** Bookmarking keeps the keys of the bookmark list distinct. */
  lemma BookmarkedKeepsUniquePks(bookmarks: seq<Post>, posts: seq<Post>, id: int)
    requires UniquePks(bookmarks)
    ensures UniquePks(Bookmarked(bookmarks, posts, id))
  {
  }

  /** Bookmarking keeps every bookmark's comment count in step with the comments. */
  lemma BookmarkedKeepsCountsInSync(bookmarks: seq<Post>, posts: seq<Post>, comments: seq<Comment>, id: int)
    requires CountsInSync(bookmarks, comments)
    ensures CountsInSync(Bookmarked(bookmarks, WithCommentsCount(posts, comments), id), comments)
  {
  }

  /** The bookmarks whose key is not `id`, in order. */
  function WithoutPk(s: seq<Post>, id: int): (r: seq<Post>)
    ensures |r| <= |s|
    ensures !HasPk(r, id)
  {
    if s == [] then []
    else
      var rest := WithoutPk(s[1..], id);
      assert forall i :: 1 <= i <= |rest| ==> ([s[0]] + rest)[i] == rest[i - 1];
      if s[0].pk == id then rest else [s[0]] + rest
  }

  /** How many bookmarks have key `id`. */
  function CountPk(s: seq<Post>, id: int): (n: nat)
    ensures n == 0 <==> !HasPk(s, id)
    ensures |WithoutPk(s, id)| + n == |s|
  {
    if s == [] then 0
    else
      assert forall i :: 1 <= i < |s| ==> s[i] == s[1..][i - 1];
      (if s[0].pk == id then 1 else 0) + CountPk(s[1..], id)
  }

  /** With distinct keys at most one bookmark has any given key. */
  lemma {:induction false} UniqueCountPk(s: seq<Post>, id: int)
    requires UniquePks(s)
    ensures CountPk(s, id) <= 1
  {
    if s != [] {
      UniqueCountPk(s[1..], id);
      if s[0].pk == id {
        assert !HasPk(s[1..], id);
      }
    }
  }

  /** A list without key `id` is its own `WithoutPk`. */
  lemma {:induction false} WithoutAbsentPk(s: seq<Post>, id: int)
    requires !HasPk(s, id)
    ensures WithoutPk(s, id) == s
  {
    if s != [] {
      assert s[0].pk != id;
      WithoutAbsentPk(s[1..], id);
      assert s == [s[0]] + s[1..];
    }
  }

  /** Removing a bookmark with key `id` leaves the other bookmarks as they were. */
  lemma {:induction false} WithoutPkRemoveFirst(s: seq<Post>, x: Post, id: int)
    requires x in s && x.pk == id
    ensures WithoutPk(RemoveFirst(s, x), id) == WithoutPk(s, id)
  {
    if s[0] != x {
      WithoutPkRemoveFirst(s[1..], x, id);
      assert RemoveFirst(s, x) == [s[0]] + RemoveFirst(s[1..], x);
      assert ([s[0]] + RemoveFirst(s[1..], x))[1..] == RemoveFirst(s[1..], x);
    }
  }

  /** The source's loop, with Python's list-iterator semantics: the position moves on
      after every element and the length is read anew each step, so after a removal the
      element that slides into the position is not looked at. `list.remove` deletes the
      first bookmark equal to the one at hand. */
  method RemoveBookmark(bookmarks: seq<Post>, id: int) returns (r: seq<Post>)
    ensures IsSubsequence(r, bookmarks)
    ensures WithoutPk(r, id) == WithoutPk(bookmarks, id)
    ensures |r| < |bookmarks| <==> HasPk(bookmarks, id)
    ensures !HasPk(bookmarks, id) ==> r == bookmarks
    ensures UniquePks(bookmarks) ==> r == WithoutPk(bookmarks, id)
  {
    r := bookmarks;
    SubsequenceReflexive(bookmarks);
    if |r| > 0 {
      var i := 0;
      while i < |r|
        invariant 0 <= i <= |r| + 1
        invariant IsSubsequence(r, bookmarks)
        invariant WithoutPk(r, id) == WithoutPk(bookmarks, id)
        invariant |r| <= |bookmarks|
        invariant |r| == |bookmarks| ==> r == bookmarks && i <= |r| && forall k :: 0 <= k < i ==> bookmarks[k].pk != id
        invariant |r| < |bookmarks| ==> HasPk(bookmarks, id)
        decreases |r| + 1 - i
      {
        var post := r[i];
        i := i + 1;
        if id == post.pk {
          assert HasPk(r, id);
          SubsequenceMembers(r, bookmarks);
          WithoutPkRemoveFirst(r, post, id);
          SubsequenceTransitive(RemoveFirst(r, post), r, bookmarks);
          r := RemoveFirst(r, post);
        }
      }
    }
    if UniquePks(bookmarks) {
      UniqueCountPk(bookmarks, id);
      if |r| < |bookmarks| {
        assert CountPk(r, id) == 0;
        WithoutAbsentPk(r, id);
      } else {
        WithoutAbsentPk(bookmarks, id);
      }
    }
  }

  /** Removing a freshly added bookmark gives the old list back. With distinct keys,
      `RemoveBookmark` computes exactly `WithoutPk`, and `BookmarkedKeepsUniquePks` keeps
      the keys distinct, so removing after adding is the identity there. */
  lemma RemoveUndoesAdd(bookmarks: seq<Post>, posts: seq<Post>, id: int)
    requires !HasPk(bookmarks, id)
    ensures WithoutPk(Bookmarked(bookmarks, posts, id), id) == bookmarks
  {
    WithoutAbsentPk(bookmarks, id);
    var once := Bookmarked(bookmarks, posts, id);
    if |once| == |bookmarks| + 1 {
      WithoutPkSnoc(bookmarks, once[|bookmarks|], id);
      assert once == bookmarks + [once[|bookmarks|]];
    }
  }

  lemma {:induction false} WithoutPkSnoc(s: seq<Post>, p: Post, id: int)
    requires p.pk == id
    ensures WithoutPk(s + [p], id) == WithoutPk(s, id)
  {
    if s == [] {
      assert [] + [p] == [p];
    } else {
      WithoutPkSnoc(s[1..], p, id);
      assert (s + [p])[1..] == s[1..] + [p];
    }
  }
}
