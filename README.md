# Blog JSON helpers, modelled in Dafny

The modelled repository is the helper layer of a small blog. It keeps three JSON
lists: posts, comments and bookmarks, where a bookmark is a saved copy of a post.
Over those lists the helpers do the following:
- join every post with its number of comments and the matching Russian ending of
  the word "комментарий";
- look a post up by key, list a post's comments, and filter the posts by keyword,
  by hashtag and by author;
- rewrite hashtags in a post's text into links to tag pages;
- add and remove bookmarks;
- append a new comment and bump the count on the bookmarked copies of its post.

The model works on values. A file's contents is a `seq` of records, passed in and
returned. The functions that reload the joined posts in the source take the raw
posts and comments as parameters instead. The source's loops are methods with
loops over local sequences and a local map, each proved against a specification
function or stated property. The list comprehensions are functions over a generic
filter.

Modules. The first three model the records and the Python built-ins the helpers use, and the other six follow the components of `functions.py`:
- `Records`: the `Post` and `Comment` records, `Option`, key lookup (`HasPk`,
  `FirstPk`, `UniquePks`).
- `Seqs`: subsequences, the filter behind the comprehensions, and Python's
  `list.remove` (`RemoveFirst`).
- `Text`: ASCII lowercasing, substring test, and `split(' ')`/`' '.join` with
  their round trips.
- `Endings`: `set_ending`.
- `CommentsCount`: `get_posts_with_comments_count`.
- `Lookups`: `get_post_by_pk`, `get_post_comments`, the three post filters and
  `is_post_in_list_check`.
- `Hashtags`: `replace_hashtags_with_links`.
- `Bookmarks`: `add_bookmark` and `remove_bookmark`.
- `NewComment`: `add_new_comment`.

## Model

| member | source | states |
|---|---|---|
| `Endings.SetEnding` | functions.py:68-80 | The Russian plural rule for "комментарий". The result is "й" exactly when the count ends in 1 but not 11. It is "я" exactly when the count ends in 2-4 but not 12-14. Otherwise it is "ев", which covers 0, 5-20 and 111. |
| `Endings.SetEndingByLastTwoDigits` | functions.py:75-80 | The ending depends only on `count % 100`. |
| `CommentsCount.CommentCount` | functions.py:22-29 | The number of comments for a key is at most the number of comments. It is 0 exactly when no comment has that `post_id`. |
| `CommentsCount.CommentCountSnoc` | functions.py:24-29 | One more comment at the end adds one to its own post's count and leaves every other count alone. This is the step the dictionary-filling loop takes. |
| `CommentsCount.CountCommentsByPost` | functions.py:22-29 | The dictionary the first loop fills gives every post key its number of comments, reading an absent key as 0. |
| `CommentsCount.WithCommentsCount` | functions.py:31-40 | The joined list has the same length and order as the posts. Each post keeps its `pk`, `poster_name` and `content`. Its `comments_count` is the number of comments with its key, 0 if none. Its `ending` is `SetEnding` of that count. |
| `CommentsCount.GetPostsWithCommentsCount` | functions.py:14-40 | The two loops (count into a dictionary, then write the count and the ending into every post) compute exactly `WithCommentsCount`. |
| `Lookups.GetPostComments` | functions.py:57-65 | The result is an order-preserving subsequence of the comments. Each comment of post `id_` occurs in it as often as in the input, and no other comment occurs. |
| `Lookups.CommentCountIsPostComments` | functions.py:64 | The number of comments listed for a post equals the count the join shows for it. |
| `Lookups.GetPostsByWord` | functions.py:83-91 | The result is an order-preserving subsequence of the joined posts. It holds exactly the posts whose lowercased content contains the lowercased word, each as often as in the input. |
| `Lookups.GetPostsByTag` | functions.py:94-101 | The same, for the posts whose content contains `'#' + tag`. |
| `Lookups.GetPostsByUser` | functions.py:104-112 | The same, for the posts whose lowercased `poster_name` contains the lowercased user name. |
| `Lookups.IsPostInListCheck` | functions.py:162-172 | The result is true exactly when some element of the list has `pk == id_`. |
| `Lookups.PostByPk` | functions.py:51-54 | The result is None exactly when no post has key `id_`. Otherwise it is the first post with that key, with its content replaced by `ReplaceHashtags` of it and every other field kept. |
| `Lookups.GetPostByPk` | functions.py:43-54 | The scan over the joined posts, which returns at the first key match, computes exactly `PostByPk` of the joined posts. |
| `Text.Split` | functions.py:121 | `split(' ')` always gives at least one piece (the empty text gives `['']`), and no piece holds a space. |
| `Text.Lower` | functions.py:90 | `str.lower` for ASCII only: the length is kept, each letter `A`-`Z` moves up by 32 to its lower-case letter, every other character (Cyrillic letters included) is kept, and no `A`-`Z` letter is left. |
| `Text.IsSubstring` | functions.py:101 | `needle in hay`: the empty needle is in every text (`'' in s` is true), every prefix of a text is in it, and a needle that is in a text is no longer than it. |
| `Text.Join` | functions.py:126 | `' '.join`: no words give the empty text. Otherwise the result starts with the first word and is as long as all the words plus one space between each two. |
| `Text.JoinSplit` | functions.py:121-126 | Joining the pieces of a split with `' '` gives the text back. |
| `Text.SplitJoin` | functions.py:121-126 | Splitting a join of words that hold no space gives the words back. |
| `Hashtags.LinkWords` | functions.py:122-125 | The word list keeps its length. Each word starting with `#` becomes `"<a href='/tag/" + w[1:] + "'>" + w + "</a>"`. Every other word stays unchanged at its position. |
| `Hashtags.ReplaceHashtags` | functions.py:121-126 | Split on `' '`, link each hashtag word, join with `' '`. A text in which no `' '`-separated word starts with `#` comes back unchanged. |
| `Hashtags.ReplaceHashtagsWithLinks` | functions.py:115-126 | The split / overwrite-in-loop / join computes `ReplaceHashtags`, that is, the join of `LinkWords` of the split. |
| `Bookmarks.Bookmarked` | functions.py:137-140 | At most one record is appended, and the existing bookmarks stay as a prefix in order. A record is appended exactly when no bookmark has key `id_` and some post has it. The appended record is the first post with that key. |
| `Bookmarks.BookmarkedSnoc` | functions.py:137-140 | One more scanned post adds that post exactly when its key is `id_` and the list built so far lacks the key. This is the loop's step. |
| `Bookmarks.AddBookmark` | functions.py:134-140 | The scan over the joined posts with `is_post_in_list_check` before each append computes exactly `Bookmarked` over the joined posts. |
| `Bookmarks.BookmarkedIdempotent` | functions.py:137-140 | Bookmarking twice gives the same list as bookmarking once. |
| `Bookmarks.BookmarkedKeepsUniquePks` | functions.py:139-140 | If bookmark keys are distinct before, they are distinct after. |
| `Bookmarks.BookmarkedKeepsCountsInSync` | functions.py:136-140 | If every bookmark's `comments_count` matches the comments, that still holds after bookmarking, because the appended copy comes from the join. |
| `Bookmarks.CountPk` | functions.py:153-156 | The count of bookmarks with a key is 0 exactly when none has it. Together with the bookmarks without that key, it makes up the whole list. |
| `Bookmarks.WithoutPkRemoveFirst` | functions.py:156 | Removing a bookmark whose key is `id_` leaves the bookmarks with other keys exactly as they were. |
| `Bookmarks.RemoveBookmark` | functions.py:151-156 | The removal-during-iteration loop returns an order-preserving subsequence of the input. The bookmarks with other keys are all kept, in order. Something is removed exactly when some bookmark has key `id_`, and an absent key leaves the list unchanged. With distinct keys, exactly the bookmark with key `id_` is gone. |
| `Bookmarks.RemoveUndoesAdd` | functions.py:137-156 | When `id_` is not yet bookmarked, taking its bookmarks out again after adding gives the original bookmarks back. With distinct keys this is what `RemoveBookmark` computes. |
| `Seqs.RemoveFirst` | functions.py:156 | `list.remove(x)` shortens the list by one, keeps the order of the rest, and takes exactly one copy of `x` out of its multiset. |
| `Seqs.RemoveFirstAt` | functions.py:156 | `list.remove(x)` deletes the first copy of `x`: the one at position `k` when no copy stands before `k`. Everything before and after it stays. |
| `Seqs.FilterSpec` | functions.py:64 | A comprehension `[x for x in s if p(x)]` is an order-preserving subsequence of `s`. It keeps each value satisfying `p` exactly as often as `s` has it, and drops the rest. |
| `NewComment.AddNewComment` | functions.py:182-192 | The comment list grows by exactly the comment `{post_id: id_, commenter_name, comment, pk: len + 1}` at its end. Bookmarks with key `id_` get `comments_count + 1`. All other bookmarks, and every `ending`, are unchanged. Consecutive comment keys and bookmark counts matching the comments are both preserved. |
| `NewComment.AsWrittenEndingGoesStale` | functions.py:190-192 | Take bookmarks whose endings match their counts, and a new list in which one bookmark has its count bumped by one and the rest of its record kept, as `AddNewComment`'s ensures state for every bookmark of post `id_`. If that bookmark's count `n` takes another ending than `n + 1`, the endings in the new list no longer match their counts. |
| `NewComment.EndingChangesFromOneToTwo` | functions.py:68-80 | Counts 1 and 2 take the endings "й" and "я", which differ, so a bump from 1 to 2 is such a case. |
| `NewComment.StaleEndingExample` | functions.py:190-192 | The concrete case: a bookmark of post 1 with count 1 and ending "й" matches, and once its count is bumped to 2 with the ending kept, it no longer does. |
| `NewComment.AddNewCommentWithEnding` | functions.py:182-192 | The same append and bump, with the ending renewed. It preserves consecutive comment keys, matching counts, and endings matching counts. |

## Findings

| source | as written | input that shows it | evidently intended | confidence | as-written member | corrected member |
|---|---|---|---|---|---|---|
| functions.py:190-192 | `add_new_comment` bumps a bookmark's `comments_count` but keeps its `ending`. | One bookmark of post 1 with `comments_count` 1 and ending "й", then a new comment on post 1. It becomes count 2 with ending "й", so it reads "2 комментарий". | Recompute the ending with `set_ending`, as `get_posts_with_comments_count` does (functions.py:34-35), giving "2 комментария". | not executed; medium: the bookmark page that shows the ending is not part of this model | `NewComment.AddNewComment` with `NewComment.AsWrittenEndingGoesStale` | `NewComment.AddNewCommentWithEnding` |

## Left out

- File I/O is not modelled. This covers `get_data` and the `open`/`json.load`/`json.dump` calls in `add_bookmark`, `remove_bookmark` and `add_new_comment` (functions.py:4-11, 142-143, 158-159, 194-198). Lists are parameters and results, and the fixed `data/*.json` paths are not modelled.
- Only ASCII letters are lowercased. Python's full Unicode case mapping (Cyrillic included) in `str.lower` is not modelled.
- Every record is assumed to have its fields. `dict.get` returning None for a missing key is not modelled.
- `NewComment.AddNewComment` requires every bookmark with key `id_` to carry a comment count. The source stops with `KeyError` on such a bookmark (functions.py:192), and nothing is then written.
- Post fields other than `pk`, `poster_name`, `content`, `comments_count` and `ending` are not modelled. The source carries them through, but `list.remove` compares them (see the `Bookmarks.RemoveBookmark` lines below).
- `Lookups.GetPostByPk` returns the rewritten post. The source also overwrites `content` in the freshly loaded dictionary, but nobody else sees that list, so this is not modelled.
- `Bookmarks.RemoveBookmark`: when several bookmarks share the key, its contract does not say which of them remain. Python's iterator skips the element after each removal, so some may survive. The contract states only what holds in every case.
- `Bookmarks.RemoveBookmark`: `list.remove` compares whole records, unmodelled fields included. When keys repeat and two copies differ only in unmodelled fields, the source may delete a later copy than the model's `RemoveFirst`, and the survivors can then come out in another order. For `[P1, P2, Z, P3]`, where P1, P2 and P3 have the key and P2 and P3 differ only outside the model, the source ends with `[P2, Z]` and the model with `[Z, P2]`. The contract holds for both.
- The web framework that calls these helpers is not part of this model.
