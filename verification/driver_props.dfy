/** What `convert` promises for a whole argument: when it takes the fast
    path, how far the segment driver reaches, and what the slow path writes
    for each kind of argument. The argument is a C string's contents. */
module DriverProps {
  import opened Chars
  import opened Classifier
  import opened Copy
  import opened CopyProps
  import opened Boundaries
  import opened Converters
  import opened ConverterProps
  import opened ClassifierProps
  import opened Driver

  /** A `\` or `/` at `k`, with no whitespace in `s[i..k)`. */
  predicate SlashBeforeSpace(s: seq<char>, i: nat, k: nat)
  {
    i <= k < |s| && (s[k] == '\\' || s[k] == '/') && forall j :: i <= j < k ==> !IsSpace(s[j])
  }

  /** The fast-path test asks for conversion exactly when a separator
      occurs before the first whitespace character. */
  lemma {:induction false} NeedConvertSpec(s: seq<char>, i: nat)
    requires NulFree(s) && i <= |s|
    ensures NeedConvert(s, i) <==> exists k :: SlashBeforeSpace(s, i, k)
    decreases |s| - i
  {
    if i < |s| {
      if s[i] == '\\' || s[i] == '/' {
        assert SlashBeforeSpace(s, i, i);
      } else if IsSpace(s[i]) {
        assert forall k :: SlashBeforeSpace(s, i, k) ==> k == i;
      } else {
        NeedConvertSpec(s, i + 1);
        if NeedConvert(s, i + 1) {
          var k :| SlashBeforeSpace(s, i + 1, k);
          assert SlashBeforeSpace(s, i, k);
        }
        forall k | SlashBeforeSpace(s, i, k)
          ensures SlashBeforeSpace(s, i + 1, k)
        {
        }
      }
    }
  }

  /** The fast path: an argument with no separator before its first
      whitespace is copied as far as it fits and terminated right after the
      copy, at an index no greater than `dstlen`; nothing beyond is written. */
  lemma FastPath(dstlen: nat, s: seq<char>, resolve: Resolver)
    requires NulFree(s) && 0 < dstlen
    requires forall k :: !SlashBeforeSpace(s, 0, k)
    ensures var img := Convert(false, dstlen, Some(s), resolve);
      var m := if |s| < dstlen then |s| else dstlen;
      (forall i :: 0 <= i < m ==> img[i] == Some(s[i]))
      && img[m] == Some(NUL)
      && forall i :: m < i <= dstlen ==> img[i].None?
  {
    NeedConvertSpec(s, 0);
    CopyAllIsTruncatedAppend(s, 0, [], dstlen);
    assert [] + s[0..] == s;
  }

  /** The quote pre-scan always stops on the terminator, so the segment
      handed to sub_convert is the whole argument; at that end the list end
      finder and the second loop of the rooted end finder do not move. */
  lemma {:induction false} SegmentIsWholeArgument(s: seq<char>, q: char)
    requires NulFree(s) && IsQuoteState(q)
    ensures QuoteScan(s, 0, q).to == |s|
    ensures FindEndOfPosixList(s, |s|, q) == Bound(|s|, q)
    ensures RootedTail(s, |s|, q) == Bound(|s|, q)
  {
  }

  /** The slow path on a C string: sub_convert on the whole argument, then
      a copy of what follows its end unless that end is the terminator. */
  lemma {:induction false} TransduceSteps(s: seq<char>, cap: nat, resolve: Resolver)
    requires NulFree(s)
    ensures var sub := SubConvert(s, 0, |s|, QuoteScan(s, 0, NUL).quote, [], cap, resolve);
      Transduce(s, cap, resolve)
        == if At(s, sub.to) == NUL then sub.out else CopyToDst(s, sub.to + 1, Some(|s|), sub.out, cap)
    ensures var sub := SubConvert(s, 0, |s|, QuoteScan(s, 0, NUL).quote, [], cap, resolve);
      var t := Transduce(s, cap, resolve);
      |sub.out| <= |t| && t[..|sub.out|] == sub.out
  {
    assert QuoteScan(s, 0, NUL).to == |s|;
  }

  /** The steps of sub_convert on a whole C string with quote state `q`. */
  lemma SubConvertSteps(s: seq<char>, q: char, cap: nat, resolve: Resolver)
    returns (f: Found, b: Bound, out1: seq<char>, out2: seq<char>)
    requires NulFree(s) && IsQuoteState(q)
    ensures f == FindPathStartAndType(s, 0, |s|) && f.start <= |s|
    ensures b == if f.kind == PosixPathList then FindEndOfPosixList(s, |s|, q)
                 else if f.kind == RootedPath then FindEndOfRootedPath(s, f.start, |s|, q)
                 else Bound(|s|, q)
    ensures out1 == Take(s[..f.start], cap)
    ensures out2 == if f.kind != NoPath then ConvertPath(s, f.start, b.to, f.kind, out1, cap, resolve) else out1
    ensures |out1| <= |out2| && out2[..|out1|] == out1
    ensures SubConvert(s, 0, |s|, q, [], cap, resolve) == SubResult(Emit(out2, cap, At(s, b.to)), b.to, b.quote)
    ensures var o := SubConvert(s, 0, |s|, q, [], cap, resolve).out; |out1| <= |o| && o[..|out1|] == out1
  {
    f := FindPathStartAndType(s, 0, |s|);
    b := if f.kind == PosixPathList then FindEndOfPosixList(s, |s|, q)
         else if f.kind == RootedPath then FindEndOfRootedPath(s, f.start, |s|, q)
         else Bound(|s|, q);
    CopyRangeIsTruncatedAppend(s, 0, f.start, [], cap);
    assert [] + s[0..f.start] == s[..f.start];
    out1 := CopyToDst(s, 0, Some(f.start), [], cap);
    out2 := if f.kind != NoPath then ConvertPath(s, f.start, b.to, f.kind, out1, cap, resolve) else out1;
    EmitExtends(out2, cap, At(s, b.to));
    PrefixTrans(out1, out2, Emit(out2, cap, At(s, b.to)));
  }

  /** The slow path writes the text before the path verbatim (as far as it
      fits). */
  lemma {:induction false} PrefixIsVerbatim(s: seq<char>, cap: nat, resolve: Resolver)
    requires NulFree(s)
    ensures var f := FindPathStartAndType(s, 0, |s|);
      var p := Take(s[..f.start], cap);
      var t := Transduce(s, cap, resolve);
      f.start <= |s| && |p| <= |t| && t[..|p|] == p
  {
    var q := QuoteScan(s, 0, NUL).quote;
    var f, b, out1, out2 := SubConvertSteps(s, q, cap, resolve);
    TransduceSteps(s, cap, resolve);
    var sub := SubConvert(s, 0, |s|, q, [], cap, resolve);
    PrefixTrans(out1, sub.out, Transduce(s, cap, resolve));
  }

  /** The buffer algebra of an unchanged argument: the prefix, then the
      rest of the argument, then the terminator. */
  lemma UnchangedAlgebra(s: seq<char>, k: nat, out1: seq<char>, out2: seq<char>, cap: nat)
    requires k <= |s| && out1 == Take(s[..k], cap)
    requires (out2 == out1 && k == |s|) || out2 == Take(out1 + s[k..|s|], cap)
    ensures Emit(out2, cap, NUL) == Take(s + [NUL], cap)
  {
    if out2 == out1 && k == |s| {
      assert s[..k] == s;
    } else {
      TakeTakeAppend(s[..k], s[k..|s|], cap);
      SplitJoin(s, k);
    }
    EmitAfterTake(s, cap, NUL);
  }

  /** An argument whose path is of a Windows shape, or which holds no path,
      is written back unchanged, followed by the terminator that
      sub_convert copies from the end of the argument. */
  lemma {:induction false} WindowsShapesUnchanged(s: seq<char>, cap: nat, resolve: Resolver)
    requires NulFree(s)
    requires FindPathStartAndType(s, 0, |s|).kind in {NoPath, SimpleWindowsPath, RelativePath, WindowsPathList}
    ensures Transduce(s, cap, resolve) == Take(s + [NUL], cap)
  {
    var q := QuoteScan(s, 0, NUL).quote;
    var f, b, out1, out2 := SubConvertSteps(s, q, cap, resolve);
    TransduceSteps(s, cap, resolve);
    if f.kind != NoPath {
      ConvertPathShapes(s, f.start, |s|, f.kind, out1, cap, resolve);
    }
    UnchangedAlgebra(s, f.start, out1, out2, cap);
  }

  /** The buffer algebra of a resolved path: the prefix, the converted
      path and the bytes after it, then one more byte. */
  lemma ResolvedAlgebra(prefix: seq<char>, path: seq<char>, tail: seq<char>, out1: seq<char>, out2: seq<char>,
                        cap: nat, c: char)
    requires out1 == Take(prefix, cap) && out2 == Take(out1 + path + tail, cap)
    ensures Emit(out2, cap, c) == Take(prefix + path + tail + [c], cap)
  {
    AppendAssoc(out1, path, tail);
    TakeTakeAppend(prefix, path + tail, cap);
    AppendAssoc(prefix, path, tail);
    EmitAfterTake(prefix + path + tail, cap, c);
  }

  /** A rooted path that runs to the end of the argument goes to the
      resolver whole, less a trailing quote; the native path is written
      with slashes, followed by that quote and the terminator. */
  lemma {:induction false} RootedWholeArgument(s: seq<char>, cap: nat, resolve: Resolver)
    requires NulFree(s)
    requires var f := FindPathStartAndType(s, 0, |s|);
      f.kind == RootedPath && FirstParentRef(s, f.start, |s|).None?
    requires var f := FindPathStartAndType(s, 0, |s|);
      var p := RealTo(s, |s|);
      f.start < p && !IsDevNull(s, f.start, p)
      && resolve(s[f.start..p]).Some? && NulFree(resolve(s[f.start..p]).value)
    ensures var f := FindPathStartAndType(s, 0, |s|);
      var p := RealTo(s, |s|);
      Transduce(s, cap, resolve)
        == Take(s[..f.start] + ToForward(resolve(s[f.start..p]).value) + s[p..|s|] + [NUL], cap)
  {
    var q := QuoteScan(s, 0, NUL).quote;
    var f, b, out1, out2 := SubConvertSteps(s, q, cap, resolve);
    TransduceSteps(s, cap, resolve);
    var p := RealTo(s, |s|);
    assert b.to == |s|;
    assert out2 == RpConvert(s, f.start, |s|, out1, cap, resolve);
    RootedResolved(s, f.start, |s|, out1, cap, resolve);
    ResolvedAlgebra(s[..f.start], ToForward(resolve(s[f.start..p]).value), s[p..|s|], out1, out2, cap, NUL);
  }

  /** The buffer algebra of a cut rooted path: the prefix and the
      converted path, then the `/` at `c` and everything after it. */
  lemma {:induction false} CutAlgebra(s: seq<char>, c: nat, prefix: seq<char>, path: seq<char>, out1: seq<char>, out2: seq<char>,
                   cap: nat)
    requires c < |s| && NulFree(s)
    requires out1 == Take(prefix, cap) && out2 == Take(out1 + path + s[c..c], cap)
    ensures CopyToDst(s, c + 1, Some(|s|), Emit(out2, cap, s[c]), cap) == Take(prefix + path + s[c..], cap)
  {
    ResolvedAlgebra(prefix, path, s[c..c], out1, out2, cap, s[c]);
    var t := prefix + path + s[c..c] + [s[c]];
    CopyRangeIsTruncatedAppend(s, c + 1, |s|, Take(t, cap), cap);
    TakeTakeAppend(t, s[c + 1..|s|], cap);
    AppendNil(prefix + path, s[c..c]);
    ConsSlice(s, c);
    AppendAssoc(prefix + path, [s[c]], s[c + 1..]);
  }

  /** Where find_end_of_rooted_path cuts a range holding `/..`. */
  lemma CutFacts(s: seq<char>, start: nat, q: char) returns (c: nat)
    requires NulFree(s) && start <= |s| && IsQuoteState(q) && FirstParentRef(s, start, |s|).Some?
    ensures c == FirstParentRef(s, start, |s|).value - 1
    ensures c < |s| && s[c] == '/' && s[c + 1] == '.' && At(s, c + 2) == '.'
    ensures FindEndOfRootedPath(s, start, |s|, q) == Bound(c, q) && RealTo(s, c) == c
  {
    c := FirstParentRef(s, start, |s|).value - 1;
  }

  /** The cut rooted path, once the segment driver's steps are known. */
  lemma {:induction false} CutCore(s: seq<char>, cap: nat, resolve: Resolver, start: nat, c: nat,
                out1: seq<char>, out2: seq<char>, t: seq<char>)
    requires NulFree(s) && start < c < |s| && s[c] == '/' && RealTo(s, c) == c
    requires !IsDevNull(s, start, c) && resolve(s[start..c]).Some? && NulFree(resolve(s[start..c]).value)
    requires out1 == Take(s[..start], cap) && |out1| <= cap
    requires out2 == RpConvert(s, start, c, out1, cap, resolve)
    requires t == CopyToDst(s, c + 1, Some(|s|), Emit(out2, cap, s[c]), cap)
    ensures t == Take(s[..start] + ToForward(resolve(s[start..c]).value) + s[c..], cap)
  {
    RootedResolved(s, start, c, out1, cap, resolve);
    CutAlgebra(s, c, s[..start], ToForward(resolve(s[start..c]).value), out1, out2, cap);
  }

  /** A rooted path holding `/..` is cut at the `/` before it: only the
      text before that `/` goes to the resolver, and the `/` and everything
      after it are copied verbatim. */
  lemma RootedCutAtParentRef(s: seq<char>, cap: nat, resolve: Resolver)
    requires NulFree(s)
    requires var f := FindPathStartAndType(s, 0, |s|);
      f.kind == RootedPath && FirstParentRef(s, f.start, |s|).Some?
    requires var f := FindPathStartAndType(s, 0, |s|);
      var c := FirstParentRef(s, f.start, |s|).value - 1;
      f.start < c && !IsDevNull(s, f.start, c)
      && resolve(s[f.start..c]).Some? && NulFree(resolve(s[f.start..c]).value)
    ensures var f := FindPathStartAndType(s, 0, |s|);
      var c := FirstParentRef(s, f.start, |s|).value - 1;
      s[c] == '/' && s[c + 1] == '.' && At(s, c + 2) == '.'
      && Transduce(s, cap, resolve) == Take(s[..f.start] + ToForward(resolve(s[f.start..c]).value) + s[c..], cap)
  {
    var f := FindPathStartAndType(s, 0, |s|);
    assert f == FindPathStartAndType(s, 0, |s|);
    var c := FirstParentRef(s, f.start, |s|).value - 1;
    assert c == FirstParentRef(s, f.start, |s|).value - 1;
    var native := ToForward(resolve(s[f.start..c]).value);
    assert native == ToForward(resolve(s[f.start..c]).value);
    RootedCutAt(s, cap, resolve, f.start, c);
  }

  /** convert_path hands a rooted range to rp_convert. */
  lemma RootedDispatch(s: seq<char>, from: nat, to: nat, out: seq<char>, cap: nat, resolve: Resolver)
    requires from < to <= |s| && |out| <= cap
    ensures ConvertPath(s, from, to, RootedPath, out, cap, resolve) == RpConvert(s, from, to, out, cap, resolve)
  {
  }

  /** RootedCutAtParentRef with the path's start and the cut named. */
  lemma {:induction false} RootedCutAt(s: seq<char>, cap: nat, resolve: Resolver, start: nat, c: int)
    requires NulFree(s)
    requires FindPathStartAndType(s, 0, |s|) == Found(RootedPath, start)
    requires FirstParentRef(s, start, |s|).Some? && c == FirstParentRef(s, start, |s|).value - 1
    requires start < c && !IsDevNull(s, start, c)
    requires resolve(s[start..c]).Some? && NulFree(resolve(s[start..c]).value)
    ensures s[c] == '/' && s[c + 1] == '.' && At(s, c + 2) == '.'
    ensures Transduce(s, cap, resolve) == Take(s[..start] + ToForward(resolve(s[start..c]).value) + s[c..], cap)
  {
    var out1, out2, rest := RootedCutSegment(s, cap, resolve, start, c);
    CutCore(s, cap, resolve, start, c, out1, out2, rest);
  }

  /** The segment driver's steps on a rooted path cut at `c`: the prefix is
      copied, rp_convert handles `s[start..c)`, the `/` at `c` is written
      and the rest of the string copied. */
  lemma {:induction false} RootedCutSegment(s: seq<char>, cap: nat, resolve: Resolver, start: nat, c: int)
    returns (out1: seq<char>, out2: seq<char>, rest: seq<char>)
    requires NulFree(s)
    requires FindPathStartAndType(s, 0, |s|) == Found(RootedPath, start)
    requires FirstParentRef(s, start, |s|).Some? && c == FirstParentRef(s, start, |s|).value - 1
    requires start < c
    ensures c < |s| && s[c] == '/' && RealTo(s, c) == c
    ensures out1 == Take(s[..start], cap) && |out1| <= cap
    ensures out2 == RpConvert(s, start, c, out1, cap, resolve)
    ensures rest == CopyToDst(s, c + 1, Some(|s|), Emit(out2, cap, s[c]), cap)
    ensures Transduce(s, cap, resolve) == rest
  {
    var q := QuoteScan(s, 0, NUL).quote;
    var f, b;
    f, b, out1, out2 := SubConvertSteps(s, q, cap, resolve);
    var c' := CutFacts(s, start, q);
    assert c' == c && b == Bound(c, q);
    RootedDispatch(s, start, c, out1, cap, resolve);
    rest := CopyToDst(s, c + 1, Some(|s|), Emit(out2, cap, s[c]), cap);
    TransduceAfterSegment(s, cap, resolve, Emit(out2, cap, s[c]), c, rest);
  }

  /** Once the first segment is known to stop before the end of the string,
      the rest of the string is copied after its output. */
  lemma {:induction false} TransduceAfterSegment(s: seq<char>, cap: nat, resolve: Resolver, o: seq<char>, to: nat,
                                                 rest: seq<char>)
    requires NulFree(s) && to < |s|
    requires SubConvert(s, 0, |s|, QuoteScan(s, 0, NUL).quote, [], cap, resolve).out == o
    requires SubConvert(s, 0, |s|, QuoteScan(s, 0, NUL).quote, [], cap, resolve).to == to
    requires |o| <= cap && rest == CopyToDst(s, to + 1, Some(|s|), o, cap)
    ensures Transduce(s, cap, resolve) == rest
  {
    QuoteScanWhole(s);
    var scan := QuoteScan(s, 0, NUL);
    var sub := SubConvert(s, 0, scan.to, scan.quote, [], cap, resolve);
    assert sub.out == o && sub.to == to && At(s, to) != NUL;
  }

  /** The quote scan of a C string's contents runs to its end. */
  lemma QuoteScanWhole(s: seq<char>)
    requires NulFree(s)
    ensures QuoteScan(s, 0, NUL).to == |s|
  {
  }
}
