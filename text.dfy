/** The string operations the helpers rely on: Python's `str.lower`, `in` on strings,
    `str.split(' ')` and `' '.join`. */
module Text {

  import opened Seqs

  /** Lowercasing of one character, restricted to ASCII letters. */
  function LowerChar(c: char): char
  {
    if 'A' <= c <= 'Z' then (c as int + 32) as char else c
  }

  /** Python's `s.lower()` for ASCII text: every letter `A`-`Z` becomes its lower-case
      letter and every other character stays as it is. Non-ASCII letters (Cyrillic among
      them) are left unchanged, unlike Python. */
  function Lower(s: string): (r: string)
    ensures |r| == |s|
    ensures forall i :: 0 <= i < |s| && 'A' <= s[i] <= 'Z' ==> r[i] as int == s[i] as int + 32
    ensures forall i :: 0 <= i < |s| && !('A' <= s[i] <= 'Z') ==> r[i] == s[i]
    ensures forall i :: 0 <= i < |r| ==> !('A' <= r[i] <= 'Z')
  {
    seq(|s|, i requires 0 <= i < |s| => LowerChar(s[i]))
  }

  /** Python's `needle in hay` on strings: `needle` occurs in `hay` as a contiguous run.
      The empty string occurs in every string, and a prefix occurs in its string. */
  predicate IsSubstring(needle: string, hay: string)
    ensures needle == [] ==> IsSubstring(needle, hay)
    ensures needle <= hay ==> IsSubstring(needle, hay)
    ensures IsSubstring(needle, hay) ==> |needle| <= |hay|
  {
    assert needle <= hay ==> OccursAt(needle, hay, 0);
    exists i :: 0 <= i <= |hay| && OccursAt(needle, hay, i)
  }

  /** `needle` is the run of `hay` that starts at position `i`. */
  predicate OccursAt(needle: string, hay: string, i: nat)
  {
    i + |needle| <= |hay| && hay[i..i + |needle|] == needle
  }

  /** Python's `s.split(' ')`: the pieces between single spaces, empty pieces included,
      so that there is always one piece more than there are spaces. */
  function Split(s: string): (r: seq<string>)
    ensures |r| >= 1
    ensures forall i :: 0 <= i < |r| ==> ' ' !in r[i]
    decreases |s|
  {
    if s == [] then [""]
    else
      var rest := Split(s[1..]);
      assert s == [s[0]] + s[1..];
      if s[0] == ' ' then [""] + rest
      else [[s[0]] + rest[0]] + rest[1..]
  }

  /** The number of characters in all of `words` together. */
  function TotalLength(words: seq<string>): nat
  {
    if words == [] then 0 else |words[0]| + TotalLength(words[1..])
  }

  /** Python's `' '.join(words)`: the words in order, one space between neighbours, so
      the text is as long as the words together plus one for each gap, and it starts
      with the first word. */
  function Join(words: seq<string>): (r: string)
    ensures words == [] ==> r == ""
    ensures words != [] ==> |r| == TotalLength(words) + |words| - 1 && words[0] <= r
  {
    if words == [] then ""
    else if |words| == 1 then words[0]
    else words[0] + " " + Join(words[1..])
  }

  /** Joining the pieces of a split gives the text back. */
  lemma {:induction false} JoinSplit(s: string)
    ensures Join(Split(s)) == s
    decreases |s|
  {
    if s != [] {
      JoinSplit(s[1..]);
      assert s == [s[0]] + s[1..];
      var rest := Split(s[1..]);
      if s[0] == ' ' {
        JoinSpace(rest);
      } else {
        JoinGlue(s[0], rest);
      }
    }
  }

  lemma JoinSpace(rest: seq<string>)
    requires |rest| >= 1
    ensures Join([""] + rest) == " " + Join(rest)
  {
    assert ([""] + rest)[1..] == rest;
    assert "" + " " == " ";
  }

  lemma JoinGlue(c: char, rest: seq<string>)
    requires |rest| >= 1
    ensures Join([[c] + rest[0]] + rest[1..]) == [c] + Join(rest)
  {
    var words := [[c] + rest[0]] + rest[1..];
    if |rest| > 1 {
      assert words[1..] == rest[1..];
      var tail := Join(rest[1..]);
      Associative([c], rest[0], " ");
      Associative([c], rest[0] + " ", tail);
    }
  }

  /** A text without spaces in front of another splits into the text glued to the
      first piece of the other. */
  lemma {:induction false} SplitPrefix(w: string, t: string)
    requires ' ' !in w
    ensures Split(w + t) == [w + Split(t)[0]] + Split(t)[1..]
    decreases |w|
  {
    if w != [] {
      assert w == [w[0]] + w[1..];
      assert ' ' !in w[1..] && w[0] != ' ';
      SplitPrefix(w[1..], t);
      assert (w + t)[1..] == w[1..] + t;
      var rest := Split(w[1..] + t);
      assert rest[0] == w[1..] + Split(t)[0];
      assert rest[1..] == Split(t)[1..];
      assert [w[0]] + rest[0] == w + Split(t)[0];
      assert (w + t)[0] == w[0];
      assert Split(w + t) == [[w[0]] + rest[0]] + rest[1..];
    } else {
      assert w + t == t;
      assert w + Split(t)[0] == Split(t)[0];
    }
  }

  /** Splitting joined words that hold no space gives the words back. */
  lemma {:induction false} SplitJoin(words: seq<string>)
    requires |words| >= 1
    requires forall i :: 0 <= i < |words| ==> ' ' !in words[i]
    ensures Split(Join(words)) == words
  {
    if |words| == 1 {
      SplitPrefix(words[0], "");
      assert words[0] + "" == words[0];
    } else {
      var tail := Join(words[1..]);
      SplitJoin(words[1..]);
      assert words[0] + " " + tail == words[0] + (" " + tail);
      SplitPrefix(words[0], " " + tail);
      assert (" " + tail)[1..] == tail;
      assert Split(" " + tail) == [""] + Split(tail);
      assert words[0] + "" == words[0];
      assert words == [words[0]] + words[1..];
    }
  }
}
