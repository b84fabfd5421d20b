/** The two end finders `sub_convert` applies after classification, and the
    quote state they share with the driver. A quote state is NUL (outside
    quotes) or the quote character that is open. */
module Boundaries {
  import opened Chars

  /** A revised end of the path range and the quote state after it. */
  datatype Bound = Bound(to: nat, quote: char)

  predicate IsQuoteState(q: char)
  {
    q == NUL || IsQuote(q)
  }

  /** find_end_of_posix_list: advances `to` to the terminator or to the
      open quote, and closes the quote when it stops on it. */
  function FindEndOfPosixList(s: seq<char>, to: nat, q: char): (b: Bound)
    requires to <= |s|
    ensures to <= b.to <= |s|
    ensures At(s, b.to) == NUL || At(s, b.to) == q
    ensures forall k :: to <= k < b.to ==> s[k] != NUL && s[k] != q
    ensures b.quote == (if At(s, b.to) == q then NUL else q)
    decreases |s| - to
  {
    if At(s, to) != NUL && At(s, to) != q then FindEndOfPosixList(s, to + 1, q)
    else Bound(to, if At(s, to) == q then NUL else q)
  }

  /** The first scan of find_end_of_rooted_path: the first index `it` in
      `[from, to)`, before any terminator, where `..` follows a `/`. */
  function FirstParentRef(s: seq<char>, it: nat, to: nat): (r: Option<nat>)
    ensures r.Some? ==> it <= r.value < |s| && r.value != to && 1 <= r.value
    ensures r.Some? ==> s[r.value - 1] == '/' && s[r.value] == '.' && At(s, r.value + 1) == '.'
    ensures r.Some? ==> !(it <= to < r.value) && forall k :: it <= k < r.value ==> s[k] != NUL
    ensures r.Some? ==> forall k {:trigger ParentRefAt(s, k)} :: it <= k < r.value ==> !ParentRefAt(s, k)
    ensures r.None? && NulFree(s) && it <= to <= |s| ==>
              forall k {:trigger ParentRefAt(s, k)} :: it <= k < to ==> !ParentRefAt(s, k)
    decreases |s| - it
  {
    if At(s, it) == NUL || it == to then None
    else if ParentRefAt(s, it) then Some(it)
    else
      var r := FirstParentRef(s, it + 1, to);
      assert At(s, it) != NUL && it != to && !ParentRefAt(s, it);
      r
  }

  /** `..` at `k`, directly after a `/`. */
  predicate ParentRefAt(s: seq<char>, k: int)
  {
    At(s, k) == '.' && At(s, k + 1) == '.' && At(s, k - 1) == '/'
  }

  /** Whether the second loop of find_end_of_rooted_path stops at `k`: on
      the terminator, an unquoted space, the open quote, or a `/` right
      after a space. */
  predicate TailExit(s: seq<char>, k: int, q: char)
  {
    At(s, k) == NUL || (q == NUL && At(s, k) == ' ') || At(s, k) == q || (At(s, k) == '/' && At(s, k - 1) == ' ')
  }

  /** The second loop of find_end_of_rooted_path, from `to`: an unquoted
      space ends the path there, the open quote ends it and is closed, and a
      `/` right after a space ends it at that space. */
  function RootedTail(s: seq<char>, to: nat, q: char): (b: Bound)
    requires to <= |s| && IsQuoteState(q)
    ensures to <= b.to + 1 && b.to <= |s|
    ensures b.to < to ==> At(s, b.to) == ' ' && At(s, to) == '/'
    ensures to <= b.to ==>
              At(s, b.to) == NUL || (q == NUL && s[b.to] == ' ') || At(s, b.to) == q
              || (s[b.to] == ' ' && At(s, b.to + 1) == '/')
    ensures b.quote == (if to <= b.to && At(s, b.to) == q then NUL else q)
    ensures forall k {:trigger TailExit(s, k, q)} :: to <= k < b.to ==> !TailExit(s, k, q)
    decreases |s| - to
  {
    if At(s, to) == NUL then Bound(to, q)
    else if q == NUL && s[to] == ' ' then Bound(to, q)
    else if s[to] == q then Bound(to, NUL)
    else if s[to] == '/' && At(s, to - 1) == ' ' then Bound(to - 1, q)
    else RootedTail(s, to + 1, q)
  }

  /** find_end_of_rooted_path: a parent reference inside the range cuts it
      at the `/` before the `..`; otherwise the end is searched forward. */
  function FindEndOfRootedPath(s: seq<char>, from: nat, to: nat, q: char): (b: Bound)
    requires from <= to <= |s| && IsQuoteState(q)
    ensures b.to <= |s|
    ensures At(s, from) == '/' && from < to ==> from <= b.to && (b.to == from ==> At(s, b.to) != NUL)
  {
    match FirstParentRef(s, from, to)
    case Some(it) => Bound(it - 1, q)
    case None => RootedTail(s, to, q)
  }
}
