/** The one entity of the application: a row of the hosted `bookmarks` table,
    as the client components receive it. */
module Bookmarks {

  /** A bookmark row. Every column is carried as text, as the client sees it;
      `createdAt` is the server's timestamp, which the client never interprets. */
  datatype Bookmark = Bookmark(
    id: string,
    userId: string,
    url: string,
    title: string,
    createdAt: string)

  /** How many rows of `s` carry the identifier `d`. */
  function CountId(s: seq<Bookmark>, d: string): (n: nat)
    ensures n <= |s|
    ensures n == 0 <==> forall i :: 0 <= i < |s| ==> s[i].id != d
  {
    if s == [] then 0
    else (if s[0].id == d then 1 else 0) + CountId(s[1..], d)
  }

  /** `r` keeps some of the elements of `s`, in the order they have in `s`. */
  ghost predicate SubsequenceOf(r: seq<Bookmark>, s: seq<Bookmark>)
    decreases |s|
  {
    if r == [] then true
    else if s == [] then false
    else (r[0] == s[0] && SubsequenceOf(r[1..], s[1..])) || SubsequenceOf(r, s[1..])
  }
}
