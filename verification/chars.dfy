/** Character-level vocabulary shared by the whole model: the C string
    accessor, the ASCII character classes, the clamped `memchr`, and the
    sequence helpers used to describe bounded output. */
module Chars {

  datatype Option<T> = None | Some(value: T)

  const NUL: char := '\0'

  /** The byte at index `i` of a C string whose contents are `s`: the
      terminator (and, for reads the source makes past it or before the
      start, a NUL as well) outside `[0, |s|)`. */
  function At(s: seq<char>, i: int): (c: char)
  {
    if 0 <= i < |s| then s[i] else NUL
  }

  /** The contents of a C string: no NUL before the terminator. */
  predicate NulFree(s: seq<char>)
  {
    forall i :: 0 <= i < |s| ==> s[i] != NUL
  }

  predicate IsAlpha(c: char)
  {
    ('a' <= c <= 'z') || ('A' <= c <= 'Z')
  }

  predicate IsDigit(c: char)
  {
    '0' <= c <= '9'
  }

  predicate IsAlnum(c: char)
  {
    IsAlpha(c) || IsDigit(c)
  }

  /** `isspace` in the C locale. */
  predicate IsSpace(c: char)
  {
    c == ' ' || c == '\t' || c == '\n' || c == '\r' || c == '\U{B}' || c == '\U{C}'
  }

  predicate IsQuote(c: char)
  {
    c == '\'' || c == '"'
  }

  /** One past the last index `memchr(p, c, n)` inspects, clamped to the
      string: a negative `n` (a huge `size_t` in C) searches to the end. */
  function SearchLimit(s: seq<char>, p: nat, n: int): (limit: int)
  {
    if n < 0 || p + n > |s| then |s| else p + n
  }

  /** Whether `memchr(p, c, n)` finds `c`, the search clamped to the string. */
  predicate MemChr(s: seq<char>, p: nat, n: int, c: char)
  {
    exists k :: p <= k < SearchLimit(s, p, n) && s[k] == c
  }

  /** No `c` in `s[from..to)`. */
  predicate Absent(s: seq<char>, from: int, to: int, c: char)
  {
    forall k :: from <= k < to && 0 <= k < |s| ==> s[k] != c
  }

  /** The first `n` elements of `t`, or all of `t` when it is shorter:
      what a buffer of `n` cells keeps of the sequence `t` written into it. */
  function Take(t: seq<char>, n: nat): (r: seq<char>)
    ensures |r| <= n && r <= t
    ensures |r| == n || r == t
  {
    if |t| <= n then t else t[..n]
  }

  /** A backslash written as a forward slash. */
  function Forward(c: char): (f: char)
  {
    if c == '\\' then '/' else c
  }

  /** `t` with every backslash turned into a forward slash. */
  function ToForward(t: seq<char>): (r: seq<char>)
    ensures |r| == |t|
    ensures forall i :: 0 <= i < |t| ==> r[i] == Forward(t[i])
    ensures forall i :: 0 <= i < |r| ==> r[i] != '\\'
  {
    if t == [] then [] else [Forward(t[0])] + ToForward(t[1..])
  }

  /** `t` with every forward slash turned into a backslash. */
  function ToBackward(t: seq<char>): (r: seq<char>)
    ensures |r| == |t|
    ensures forall i :: 0 <= i < |t| ==> r[i] == (if t[i] == '/' then '\\' else t[i])
    ensures forall i :: 0 <= i < |r| ==> r[i] != '/'
  {
    if t == [] then [] else [if t[0] == '/' then '\\' else t[0]] + ToBackward(t[1..])
  }

  lemma TakeAppend(a: seq<char>, b: seq<char>, n: nat)
    requires |a| <= n
    ensures Take(a + b, n) == a + Take(b, n - |a|)
  {
  }

  /** Truncating twice to the same size is truncating once. */
  lemma TakeTakeAppend(a: seq<char>, b: seq<char>, n: nat)
    ensures Take(Take(a, n) + b, n) == Take(a + b, n)
  {
    if |a| > n {
      assert (a + b)[..n] == a[..n];
      assert (a[..n] + b)[..n] == a[..n];
    }
  }

  /** Sequence facts, stated once so that larger proofs can use them
      without reasoning element by element. */
  lemma SplitJoin(s: seq<char>, k: nat)
    requires k <= |s|
    ensures s[..k] + s[k..] == s
  {
  }

  lemma ConsSlice(s: seq<char>, k: nat)
    requires k < |s|
    ensures s[k..] == [s[k]] + s[k + 1..]
  {
  }

  lemma SliceSnoc(s: seq<char>, i: nat, j: nat)
    requires i <= j < |s|
    ensures s[i..j + 1] == s[i..j] + [s[j]]
  {
  }

  lemma AppendAssoc(a: seq<char>, b: seq<char>, c: seq<char>)
    ensures a + b + c == a + (b + c)
  {
  }

  lemma AppendNil(a: seq<char>, b: seq<char>)
    requires b == []
    ensures a + b == a
  {
  }

  /** Equality of sequences chained in one step, so that a proof need not
      compare them element by element. */
  lemma EqualTrans(a: seq<char>, b: seq<char>, c: seq<char>)
    requires a == b && b == c
    ensures a == c
  {
  }

  /** Being a prefix (stated by slicing) is transitive. */
  lemma PrefixTrans(a: seq<char>, b: seq<char>, c: seq<char>)
    requires |a| <= |b| && b[..|a|] == a && |b| <= |c| && c[..|b|] == b
    ensures |a| <= |c| && c[..|a|] == a
  {
    assert c[..|a|] == c[..|b|][..|a|];
  }

  lemma ToBackwardAppend(a: seq<char>, b: seq<char>)
    ensures ToBackward(a + b) == ToBackward(a) + ToBackward(b)
  {
  }

  /** Turning every slash into a backslash undoes any earlier change of
      backslashes into slashes. */
  lemma ToBackwardForward(t: seq<char>)
    ensures ToBackward(ToForward(t)) == ToBackward(t)
  {
  }

  /** A sequence without slashes is its own backslashed form. */
  lemma ToBackwardNoSlash(t: seq<char>)
    requires forall i :: 0 <= i < |t| ==> t[i] != '/'
    ensures ToBackward(t) == t
  {
  }

  lemma ToForwardTake(t: seq<char>, n: nat)
    ensures ToForward(Take(t, n)) == Take(ToForward(t), n)
  {
  }

  lemma ToBackwardTake(t: seq<char>, n: nat)
    ensures ToBackward(Take(t, n)) == Take(ToBackward(t), n)
  {
  }
}
