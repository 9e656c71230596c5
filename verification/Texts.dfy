/** What every module needs to know of strings. */
module Texts {

  /** A common front can be dropped. */
  lemma DropSame(p: string, s: string, t: string)
    requires p + s == p + t
    ensures s == t
  {
    assert (p + s)[|p|..] == s && (p + t)[|p|..] == t;
  }

  /** The order of strings: a prefix comes first, otherwise the smaller character at the first difference. */
  ghost predicate TextLe(s: string, t: string) {
    s <= t || exists i :: DiffersUp(s, t, i)
  }

  ghost predicate DiffersUp(s: string, t: string, i: int) {
    0 <= i < |s| && i < |t| && s[..i] == t[..i] && s[i] < t[i]
  }
}
