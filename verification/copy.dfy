/** The two primitives that write output: `copy_to_dst` and the separator
    swapping copy of `unc_convert`. The output buffer is the sequence `out`
    already written into a buffer of `cap` data cells (`dstend` is
    `dst + cap`); every write appends, and a write at `cap` never happens. */
module Copy {
  import opened Chars

  /** One bounded byte write `if (*dst != dstend) *(*dst)++ = c`. */
  function Emit(out: seq<char>, cap: nat, c: char): (r: seq<char>)
    requires |out| <= cap
    ensures r == Take(out + [c], cap)
  {
    if |out| < cap then out + [c] else out
  }

  /** copy_to_dst: appends `s[from..]` verbatim, stopping at the
      terminator, at `to`, or when the buffer is full. */
  function CopyToDst(s: seq<char>, from: nat, to: Option<nat>, out: seq<char>, cap: nat): (r: seq<char>)
    requires from <= |s| && |out| <= cap
    ensures |out| <= |r| <= cap && r[..|out|] == out
    ensures from + (|r| - |out|) <= |s|
    ensures forall i :: |out| <= i < |r| ==> r[i] == s[from + (i - |out|)]
    ensures forall k :: from <= k < from + (|r| - |out|) ==> s[k] != NUL && to != Some(k)
    ensures At(s, from + (|r| - |out|)) == NUL || to == Some(from + (|r| - |out|)) || |r| == cap
    decreases |s| - from
  {
    if At(s, from) != NUL && to != Some(from) && |out| < cap then
      CopyToDst(s, from + 1, to, out + [s[from]], cap)
    else out
  }

  /** unc_convert: the same bounded copy with every backslash written as a
      forward slash. */
  function UncConvert(s: seq<char>, from: nat, to: Option<nat>, out: seq<char>, cap: nat): (r: seq<char>)
    requires from <= |s| && |out| <= cap
    ensures |out| <= |r| <= cap && r[..|out|] == out
    ensures from + (|r| - |out|) <= |s|
    ensures forall i :: |out| <= i < |r| ==> r[i] == Forward(s[from + (i - |out|)])
    ensures forall k :: from <= k < from + (|r| - |out|) ==> s[k] != NUL && to != Some(k)
    ensures At(s, from + (|r| - |out|)) == NUL || to == Some(from + (|r| - |out|)) || |r| == cap
    decreases |s| - from
  {
    if At(s, from) != NUL && to != Some(from) && |out| < cap then
      UncConvert(s, from + 1, to, out + [Forward(s[from])], cap)
    else out
  }
}

/** What the copy primitives promise, stated against unbounded appends. */
module CopyProps {
  import opened Chars
  import opened Copy

  /** The number of bytes a copy loop moves before it stops is determined
      by the source, the end and the room left: two counts that both run
      stop-free up to their end and stop there are equal. */
  lemma CopyCountUnique(s: seq<char>, from: nat, to: Option<nat>, room: nat, n1: nat, n2: nat)
    requires n1 <= room && n2 <= room
    requires forall k :: from <= k < from + n1 ==> At(s, k) != NUL && to != Some(k)
    requires forall k :: from <= k < from + n2 ==> At(s, k) != NUL && to != Some(k)
    requires At(s, from + n1) == NUL || to == Some(from + n1) || n1 == room
    requires At(s, from + n2) == NUL || to == Some(from + n2) || n2 == room
    ensures n1 == n2
  {
  }

  /** copy_to_dst of a terminator-free range writes exactly what fits of
      that range: the buffer holds the truncation of `out + s[from..to]`. */
  lemma CopyRangeIsTruncatedAppend(s: seq<char>, from: nat, to: nat, out: seq<char>, cap: nat)
    requires from <= to <= |s| && |out| <= cap
    requires forall k :: from <= k < to ==> s[k] != NUL
    ensures CopyToDst(s, from, Some(to), out, cap) == Take(out + s[from..to], cap)
  {
    var r := CopyToDst(s, from, Some(to), out, cap);
    var m := if to - from <= cap - |out| then to - from else cap - |out|;
    CopyCountUnique(s, from, Some(to), cap - |out|, |r| - |out|, m);
    assert r == r[..|out|] + r[|out|..];
  }

  /** copy_to_dst with a NULL end copies up to the terminator. */
  lemma CopyAllIsTruncatedAppend(s: seq<char>, from: nat, out: seq<char>, cap: nat)
    requires from <= |s| && |out| <= cap && NulFree(s)
    ensures CopyToDst(s, from, None, out, cap) == Take(out + s[from..], cap)
  {
    var r := CopyToDst(s, from, None, out, cap);
    var m := if |s| - from <= cap - |out| then |s| - from else cap - |out|;
    CopyCountUnique(s, from, None, cap - |out|, |r| - |out|, m);
    assert r == r[..|out|] + r[|out|..];
  }

  /** unc_convert writes what copy_to_dst writes with every backslash
      turned into a forward slash, and nothing else changed. */
  lemma UncIsForwardedCopy(s: seq<char>, from: nat, to: Option<nat>, out: seq<char>, cap: nat)
    requires from <= |s| && |out| <= cap
    ensures UncConvert(s, from, to, out, cap)
            == out + ToForward(CopyToDst(s, from, to, out, cap)[|out|..])
  {
    var u := UncConvert(s, from, to, out, cap);
    var c := CopyToDst(s, from, to, out, cap);
    CopyCountUnique(s, from, to, cap - |out|, |u| - |out|, |c| - |out|);
    var f := ToForward(c[|out|..]);
    assert |u| == |out| + |f|;
    assert forall i :: 0 <= i < |u| ==> u[i] == (out + f)[i] by {
      forall i | 0 <= i < |u|
        ensures u[i] == (out + f)[i]
      {
        if i >= |out| {
          assert c[i] == s[from + (i - |out|)];
        } else {
          assert u[i] == u[..|out|][i];
        }
      }
    }
  }

  /** The bytes copy_to_dst appends depend on the buffer only through how
      much room is left. */
  lemma {:induction false} CopyIgnoresWritten(s: seq<char>, from: nat, to: Option<nat>, a: seq<char>,
                                              b: seq<char>, cap: nat)
    requires from <= |s| && |a| <= cap && |a| == |b|
    ensures CopyToDst(s, from, to, a, cap)[|a|..] == CopyToDst(s, from, to, b, cap)[|b|..]
    decreases |s| - from
  {
    if At(s, from) != NUL && to != Some(from) && |a| < cap {
      var c := s[from];
      CopyIgnoresWritten(s, from + 1, to, a + [c], b + [c], cap);
      var ra := CopyToDst(s, from + 1, to, a + [c], cap);
      var rb := CopyToDst(s, from + 1, to, b + [c], cap);
      assert ra[|a|] == (a + [c])[|a|] && rb[|b|] == (b + [c])[|b|];
      ConsSlice(ra, |a|);
      ConsSlice(rb, |b|);
    }
  }

  /** A buffer that is already full is the truncation of any extension of
      a buffer it truncates. */
  lemma FullTruncates(out: seq<char>, out2: seq<char>, big: seq<char>, cap: nat)
    requires |out| == cap && out == Take(out2, cap)
    requires |out2| <= |big| && big[..|out2|] == out2
    ensures out == Take(big, cap)
  {
    assert big[..cap] == out2[..cap];
  }

  /** A buffer with room left that truncates another is that buffer. */
  lemma RoomTruncates(out: seq<char>, out2: seq<char>, cap: nat)
    requires |out| < cap && out == Take(out2, cap)
    ensures out == out2
  {
  }

  /** copy_to_dst into a smaller buffer writes a prefix of what it writes
      into a larger one: exactly the truncation to the smaller capacity. */
  lemma {:induction false} CopyCapMonotone(s: seq<char>, from: nat, to: Option<nat>, out: seq<char>,
                                           out2: seq<char>, cap: nat, cap2: nat)
    requires from <= |s| && |out| <= cap <= cap2 && |out2| <= cap2 && out == Take(out2, cap)
    ensures CopyToDst(s, from, to, out, cap) == Take(CopyToDst(s, from, to, out2, cap2), cap)
    decreases |s| - from
  {
    if |out| == cap {
      FullTruncates(out, out2, CopyToDst(s, from, to, out2, cap2), cap);
    } else {
      RoomTruncates(out, out2, cap);
      if At(s, from) != NUL && to != Some(from) {
        CopyCapMonotone(s, from + 1, to, out + [s[from]], out2 + [s[from]], cap, cap2);
      }
    }
  }

  /** unc_convert into a smaller buffer writes exactly the truncation of
      what it writes into a larger one. */
  lemma {:induction false} UncCapMonotone(s: seq<char>, from: nat, to: Option<nat>, out: seq<char>,
                                          out2: seq<char>, cap: nat, cap2: nat)
    requires from <= |s| && |out| <= cap <= cap2 && |out2| <= cap2 && out == Take(out2, cap)
    ensures UncConvert(s, from, to, out, cap) == Take(UncConvert(s, from, to, out2, cap2), cap)
    decreases |s| - from
  {
    if |out| == cap {
      FullTruncates(out, out2, UncConvert(s, from, to, out2, cap2), cap);
    } else {
      RoomTruncates(out, out2, cap);
      UncCapSame(s, from, to, out, cap, cap2);
    }
  }

  /** UncCapMonotone for one starting buffer with room left in both. */
  lemma {:induction false} UncCapSame(s: seq<char>, from: nat, to: Option<nat>, out: seq<char>,
                                      cap: nat, cap2: nat)
    requires from <= |s| && |out| < cap <= cap2
    ensures UncConvert(s, from, to, out, cap) == Take(UncConvert(s, from, to, out, cap2), cap)
    decreases |s| - from
  {
    if At(s, from) != NUL && to != Some(from) {
      var next := out + [Forward(s[from])];
      if |next| == cap {
        FullTruncates(next, next, UncConvert(s, from + 1, to, next, cap2), cap);
      } else {
        UncCapSame(s, from + 1, to, next, cap, cap2);
      }
    }
  }

  /** unc_convert of a terminator-free range writes what fits of the range
      with its backslashes turned into forward slashes. */
  lemma UncRangeIsForwardedAppend(s: seq<char>, from: nat, to: nat, out: seq<char>, cap: nat)
    requires from <= to <= |s| && |out| <= cap
    requires forall k :: from <= k < to ==> s[k] != NUL
    ensures UncConvert(s, from, Some(to), out, cap) == Take(out + ToForward(s[from..to]), cap)
  {
    CopyRangeIsTruncatedAppend(s, from, to, out, cap);
    UncIsForwardedCopy(s, from, Some(to), out, cap);
    TakeAppend(out, s[from..to], cap);
    TakeAppend(out, ToForward(s[from..to]), cap);
    ToForwardTake(s[from..to], cap - |out|);
    assert CopyToDst(s, from, Some(to), out, cap)[|out|..] == Take(s[from..to], cap - |out|);
  }

  /** unc_convert with a NULL end converts up to the terminator. */
  lemma UncAllIsForwardedAppend(s: seq<char>, from: nat, out: seq<char>, cap: nat)
    requires from <= |s| && |out| <= cap && NulFree(s)
    ensures UncConvert(s, from, None, out, cap) == Take(out + ToForward(s[from..]), cap)
  {
    CopyAllIsTruncatedAppend(s, from, out, cap);
    UncIsForwardedCopy(s, from, None, out, cap);
    TakeAppend(out, s[from..], cap);
    TakeAppend(out, ToForward(s[from..]), cap);
    ToForwardTake(s[from..], cap - |out|);
    assert CopyToDst(s, from, None, out, cap)[|out|..] == Take(s[from..], cap - |out|);
  }
}
