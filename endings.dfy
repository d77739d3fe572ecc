/** The ending of the Russian noun "комментарий" ("comment") that agrees with a count:
    "1 комментарий", "2 комментария", "5 комментариев". */
module Endings {

  /** The ending after `count`. Its contract is the Russian plural rule: the singular
      form for counts ending in 1 except 11, the paucal form for counts ending in 2 to 4
      except 12 to 14, the genitive plural for everything else. Python's `%` floors and
      Dafny's is Euclidean; the two agree here because the divisors are positive. */
  function SetEnding(count: int): (r: string)
    ensures r == "й" <==> count % 10 == 1 && count % 100 != 11
    ensures r == "я" <==> 2 <= count % 10 <= 4 && !(12 <= count % 100 <= 14)
    ensures r == "ев" <==>
      !(count % 10 == 1 && count % 100 != 11) && !(2 <= count % 10 <= 4 && !(12 <= count % 100 <= 14))
  {
    if count == 1 || (count % 10 == 1 && count % 100 != 11) then "й"
    else if (2 <= count <= 4) || (2 <= count % 10 <= 4 && (count % 100 < 10 || count % 100 > 20)) then "я"
    else "ев"
  }

  /** The ending depends only on the last two decimal digits of the count. */
  lemma SetEndingByLastTwoDigits(count: int)
    ensures SetEnding(count) == SetEnding(count % 100)
  {
  }

}
