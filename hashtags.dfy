/** Rewriting the hashtags of a post's text into links to their tag pages. */
module Hashtags {

  import opened Text

  /** A word that starts with `#`. */
  predicate IsHashtag(w: string)
  {
    |w| > 0 && w[0] == '#'
  }

  /** The markup a hashtag `#tag` becomes: a link to `/tag/tag` that shows `#tag`. */
  function TagLink(w: string): string
    requires IsHashtag(w)
  {
    "<a href='/tag/" + w[1..] + "'>" + w + "</a>"
  }

  function LinkWord(w: string): string
  {
    if IsHashtag(w) then TagLink(w) else w
  }

  /** The word list after the rewrite: as many words as before, each hashtag replaced
      by its link and every other word where it was. */
  function LinkWords(words: seq<string>): (r: seq<string>)
    ensures |r| == |words|
    ensures forall i :: 0 <= i < |words| && IsHashtag(words[i]) ==> r[i] == TagLink(words[i])
    ensures forall i :: 0 <= i < |words| && !IsHashtag(words[i]) ==> r[i] == words[i]
  {
    if words == [] then []
    else
      var rest := LinkWords(words[1..]);
      assert forall i :: 1 <= i < |words| ==> ([LinkWord(words[0])] + rest)[i] == rest[i - 1];
      [LinkWord(words[0])] + rest
  }

  /** The text of a post with its hashtags turned into links: the words between single
      spaces, each linked by `LinkWords`, joined again with single spaces. A text with no
      word starting with `#` comes back unchanged. */
  function ReplaceHashtags(content: string): (r: string)
    ensures (forall i :: 0 <= i < |Split(content)| ==> !IsHashtag(Split(content)[i])) ==> r == content
  {
    var words := Split(content);
    JoinSplit(content);
    assert (forall i :: 0 <= i < |words| ==> !IsHashtag(words[i])) ==> LinkWords(words) == words;
    Join(LinkWords(words))
  }

  /** The source's loop: split on spaces, overwrite each hashtag word, join with spaces. */
  method ReplaceHashtagsWithLinks(content: string) returns (r: string)
    ensures r == ReplaceHashtags(content)
  {
    var words := Split(content);
    ghost var linked := LinkWords(words);
    ghost var original := words;
    for index := 0 to |words|
      invariant |words| == |original|
      invariant forall k :: 0 <= k < index ==> words[k] == linked[k]
      invariant forall k :: index <= k < |words| ==> words[k] == original[k]
    {
      var word := words[index];
      if |word| > 0 && word[0] == '#' {
        var tag := word[1..];
        var link := "<a href='/tag/" + tag + "'>" + word + "</a>";
        assert link == linked[index];
        words := words[index := link];
      }
    }
    assert words == linked;
    r := Join(words);
  }
}
