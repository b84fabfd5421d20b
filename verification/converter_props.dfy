/** What the converters write, stated against unbounded appends of the
    input range. A range is "clean" when it holds no terminator. */
module ConverterProps {
  import opened Chars
  import opened Classifier
  import opened Copy
  import opened CopyProps
  import opened Converters

  /** No terminator in `s[from..to)`. */
  predicate Clean(s: seq<char>, from: int, to: int)
  {
    forall k :: from <= k < to && 0 <= k < |s| ==> s[k] != NUL
  }

  /** One more bounded write after a truncated append is the truncation
      of the longer append. */
  lemma EmitAfterTake(t: seq<char>, cap: nat, c: char)
    ensures Emit(Take(t, cap), cap, c) == Take(t + [c], cap)
  {
    if |t| > cap {
      assert (t + [c])[..cap] == t[..cap];
    }
  }

  /** A bounded write keeps what was written before it. */
  lemma EmitExtends(out: seq<char>, cap: nat, c: char)
    requires |out| <= cap
    ensures var r := Emit(out, cap, c); |out| <= |r| && r[..|out|] == out
  {
  }

  /** A converter that starts on a full buffer leaves it as it is. */
  lemma FullStaysFull(out: seq<char>, r: seq<char>, cap: nat)
    requires |out| == cap && |out| <= |r| <= cap && r[..|out|] == out
    ensures r == out
  {
  }

  /** convert_path per shape: the copying shapes append the range
      verbatim, the UNC and URL shapes append it with backslashes turned
      into slashes, and the two escaped shapes do the same after dropping
      exactly one leading byte. */
  lemma {:induction false} ConvertPathShapes(s: seq<char>, from: nat, to: nat, kind: PathType, out: seq<char>, cap: nat,
                          resolve: Resolver)
    requires from <= to <= |s| && |out| <= cap && Clean(s, from, to)
    requires kind == EscapeWindowsPath || kind == EscapedPath ==> from < to
    requires kind == RootedPath && from == to ==> At(s, to) != NUL
    requires kind == PosixPathList ==> !IsAlpha(At(s, to))
    ensures var r := ConvertPath(s, from, to, kind, out, cap, resolve);
      (kind == NoPath ==> r == out)
      && (kind in {SimpleWindowsPath, RelativePath, WindowsPathList} ==> r == Take(out + s[from..to], cap))
      && (kind in {Unc, Url} ==> r == Take(out + ToForward(s[from..to]), cap))
      && (kind in {EscapeWindowsPath, EscapedPath} ==> r == Take(out + ToForward(s[from + 1..to]), cap))
  {
    match kind
    case SimpleWindowsPath => CopyRangeIsTruncatedAppend(s, from, to, out, cap);
    case RelativePath => CopyRangeIsTruncatedAppend(s, from, to, out, cap);
    case WindowsPathList => CopyRangeIsTruncatedAppend(s, from, to, out, cap);
    case Unc => UncRangeIsForwardedAppend(s, from, to, out, cap);
    case Url => UncRangeIsForwardedAppend(s, from, to, out, cap);
    case EscapeWindowsPath => UncRangeIsForwardedAppend(s, from + 1, to, out, cap);
    case EscapedPath => UncRangeIsForwardedAppend(s, from + 1, to, out, cap);
    case _ =>
  }

  /** The end handed to the resolver is the range end, or one byte less
      exactly when the range ends at the terminator after a quote. */
  lemma RealToSpec(s: seq<char>, to: nat)
    requires to <= |s| && NulFree(s)
    ensures RealTo(s, to) <= to
    ensures RealTo(s, to) < to <==> (to == |s| && 0 < to && IsQuote(s[to - 1]))
    ensures RealTo(s, to) < to ==> RealTo(s, to) == to - 1
  {
  }

  /** `/dev/null` becomes `nul`, whatever the resolver would answer; a
      quote held back from the test is written after it. */
  lemma DevNullIsNul(s: seq<char>, from: nat, to: nat, out: seq<char>, cap: nat, resolve: Resolver)
    requires from <= RealTo(s, to) <= to <= |s| && |out| <= cap && IsDevNull(s, from, RealTo(s, to))
    ensures RpConvert(s, from, to, out, cap, resolve) == Take(out + "nul" + s[RealTo(s, to)..to], cap)
    ensures IsDevNull(s, from, to) ==> RpConvert(s, from, to, out, cap, resolve) == Take(out + "nul", cap)
  {
    var p := RealTo(s, to);
    CopyAllIsTruncatedAppend("nul", 0, out, cap);
    assert "nul"[0..] == "nul";
    if p != to {
      EmitAfterTake(out + "nul", cap, s[p]);
      assert s[p..to] == [s[p]];
    } else {
      AppendNil(out + "nul", s[p..to]);
    }
    if IsDevNull(s, from, to) {
      assert s[to - 1] == s[from..to][8] == 'l';
    }
  }

  /** A rooted path the resolver maps to a native path becomes that
      native path with slashes for backslashes. The resolver sees the range
      without a trailing quote at the terminator, and that quote is written
      back after the native path. */
  lemma RootedResolved(s: seq<char>, from: nat, to: nat, out: seq<char>, cap: nat, resolve: Resolver)
    requires from <= to <= |s| && |out| <= cap
    requires var p := RealTo(s, to);
      from < p && !IsDevNull(s, from, p)
      && resolve(s[from..p]).Some? && NulFree(resolve(s[from..p]).value)
    ensures var p := RealTo(s, to);
      RpConvert(s, from, to, out, cap, resolve)
        == Take(out + ToForward(resolve(s[from..p]).value) + s[p..to], cap)
  {
    var p := RealTo(s, to);
    var native := resolve(s[from..p]).value;
    UncAllIsForwardedAppend(native, 0, out, cap);
    assert native[0..] == native;
    if p != to {
      EmitAfterTake(out + ToForward(native), cap, s[p]);
      assert s[p..to] == [s[p]];
    } else {
      AppendNil(out + ToForward(native), s[p..to]);
    }
  }

  /** When the resolver fails the range is copied verbatim, a trailing
      quote included. */
  lemma RootedUnresolved(s: seq<char>, from: nat, to: nat, out: seq<char>, cap: nat, resolve: Resolver)
    requires from <= to <= |s| && |out| <= cap && Clean(s, from, to)
    requires var p := RealTo(s, to);
      from < p && !IsDevNull(s, from, p) && resolve(s[from..p]).None?
    ensures RpConvert(s, from, to, out, cap, resolve) == Take(out + s[from..to], cap)
  {
    var p := RealTo(s, to);
    var onePath := s[from..p];
    CopyAllIsTruncatedAppend(onePath, 0, out, cap);
    assert onePath[0..] == onePath;
    if p != to {
      EmitAfterTake(out + onePath, cap, s[p]);
      SliceSnoc(s, from, p);
      AppendAssoc(out, onePath, [s[p]]);
    }
  }

  /** A URL element of a list is converted as a URL: backslashes become
      slashes and nothing else changes. */
  lemma {:induction false} UrlElement(s: seq<char>, beg: nat, end: nat, out: seq<char>, cap: nat, resolve: Resolver)
    requires beg <= end <= |s| && |out| <= cap && Clean(s, beg, end)
    requires beg < end ==> !IsAlpha(At(s, end))
    ensures SubpConvert(s, beg, end, true, out, cap, resolve) == Take(out + ToForward(s[beg..end]), cap)
  {
    CopyRangeIsTruncatedAppend(s, beg, beg, out, cap);
    assert out + s[beg..beg] == out;
    ConvertPathShapes(s, beg, end, Url, out, cap, resolve);
  }

  /** subp_convert's backslash pass over a converter that appended `body`
      as far as it fit: the skipped text, then `body` with every slash
      turned into a backslash, truncated once to the buffer. */
  lemma {:induction false} BackslashedAppend(out: seq<char>, pre: seq<char>, body: seq<char>, cap: nat)
    requires |out| <= cap
    ensures var out1 := Take(out + pre, cap);
      var out2 := Take(out1 + body, cap);
      |out1| <= |out2| && out1 + ToBackward(out2[|out1|..]) == Take(out + pre + ToBackward(body), cap)
  {
    var out1 := Take(out + pre, cap);
    if |out + pre| <= cap {
      TakeAppend(out1, body, cap);
      ToBackwardTake(body, cap - |out1|);
      TakeAppend(out1, ToBackward(body), cap);
    } else {
      assert Take(out1 + body, cap) == out1 by {
        assert (out1 + body)[..cap] == out1;
      }
      assert (out + pre + ToBackward(body))[..cap] == (out + pre)[..cap];
    }
  }

  /** subp_convert of a non-URL element: the skipped text, then, for a
      path shape, what that shape's converter appends with every slash
      turned into a backslash. */
  lemma {:induction false} SubpUnfold(s: seq<char>, beg: nat, end: nat, out: seq<char>, cap: nat, resolve: Resolver)
    requires beg <= end <= |s| && |out| <= cap && Clean(s, beg, end)
    requires beg < end ==> !IsAlpha(At(s, end))
    ensures var f := FindPathStartAndType(s, beg, end);
      var out1 := Take(out + s[beg..f.start], cap);
      var r := SubpConvert(s, beg, end, false, out, cap, resolve);
      f.start <= end && |out| <= |out1| <= cap
      && (f.kind == NoPath ==> r == out1)
      && (f.kind != NoPath ==>
            f.start < end
            && r == out1 + ToBackward(ConvertPath(s, f.start, end, f.kind, out1, cap, resolve)[|out1|..]))
  {
    var f := FindPathStartAndType(s, beg, end);
    CopyRangeIsTruncatedAppend(s, beg, f.start, out, cap);
  }

  /** subp_convert of a non-URL element writes the skipped text verbatim
      and no `/` after it; an element with no colon is never a list. */
  lemma {:induction false} SubpPrefixNoSlash(s: seq<char>, beg: nat, end: nat, out: seq<char>, cap: nat, resolve: Resolver)
    requires beg <= end <= |s| && |out| <= cap && Clean(s, beg, end)
    requires beg < end ==> !IsAlpha(At(s, end))
    ensures var f := FindPathStartAndType(s, beg, end);
      var prefix := Take(out + s[beg..f.start], cap);
      var r := SubpConvert(s, beg, end, false, out, cap, resolve);
      f.start <= end && prefix <= r && (forall i :: |prefix| <= i < |r| ==> r[i] != '/')
      && (f.kind == NoPath ==> r == prefix)
      && (Absent(s, beg, end, ':') ==> f.kind != PosixPathList)
  {
    var f := FindPathStartAndType(s, beg, end);
    var prefix := Take(out + s[beg..f.start], cap);
    SubpUnfold(s, beg, end, out, cap, resolve);
    if f.kind != NoPath {
      BackslashedHasNoSlash(prefix, ConvertPath(s, f.start, end, f.kind, prefix, cap, resolve)[|prefix|..]);
    }
    NoColonNoList(s, beg, end);
  }

  /** Nothing after `prefix` in `prefix + ToBackward(t)` is a slash. */
  lemma {:induction false} BackslashedHasNoSlash(prefix: seq<char>, t: seq<char>)
    ensures var r := prefix + ToBackward(t);
      prefix <= r && forall i :: |prefix| <= i < |r| ==> r[i] != '/'
  {
    var r := prefix + ToBackward(t);
    forall i | |prefix| <= i < |r|
      ensures r[i] != '/'
    {
      assert r[i] == ToBackward(t)[i - |prefix|];
    }
  }

  /** A range with no colon is never classified as a POSIX path list. */
  lemma {:induction false} NoColonNoList(s: seq<char>, beg: nat, end: nat)
    requires beg <= end <= |s| && (beg < end ==> !IsAlpha(At(s, end)))
    ensures Absent(s, beg, end, ':') ==> FindPathStartAndType(s, beg, end).kind != PosixPathList
  {
  }

  /** The backslash pass over each non-rooted, non-list shape: the path
      itself with backslashes, or for the escaped shapes the path after its
      first byte. */
  lemma {:induction false} ShapeBackslashed(s: seq<char>, start: nat, end: nat, kind: PathType, out: seq<char>, pre: seq<char>,
                         cap: nat, resolve: Resolver)
    requires start < end <= |s| && |out| <= cap && Clean(s, start, end)
    requires kind !in {NoPath, RootedPath, PosixPathList}
    ensures var out1 := Take(out + pre, cap);
      var r := ConvertPath(s, start, end, kind, out1, cap, resolve);
      |out1| <= |r|
      && (kind in {SimpleWindowsPath, RelativePath, WindowsPathList, Unc, Url} ==>
            out1 + ToBackward(r[|out1|..]) == Take(out + pre + ToBackward(s[start..end]), cap))
      && (kind in {EscapeWindowsPath, EscapedPath} ==>
            out1 + ToBackward(r[|out1|..]) == Take(out + pre + ToBackward(s[start + 1..end]), cap))
  {
    var out1 := Take(out + pre, cap);
    ConvertPathShapes(s, start, end, kind, out1, cap, resolve);
    if kind in {SimpleWindowsPath, RelativePath, WindowsPathList} {
      BackslashedAppend(out, pre, s[start..end], cap);
    } else if kind in {Unc, Url} {
      BackslashedAppend(out, pre, ToForward(s[start..end]), cap);
      ToBackwardForward(s[start..end]);
    } else {
      BackslashedAppend(out, pre, ToForward(s[start + 1..end]), cap);
      ToBackwardForward(s[start + 1..end]);
    }
  }

  /** Any other list element keeps the text the classifier skipped
      verbatim, then writes what its shape's converter writes with every
      slash turned into a backslash: the copying, UNC and URL shapes give
      the path itself with backslashes, the escaped shapes the path after
      its first byte. RootedElement states the rooted shape; an element
      with no colon is never itself a list. */
  lemma {:induction false} PlainElement(s: seq<char>, beg: nat, end: nat, out: seq<char>, cap: nat, resolve: Resolver)
    requires beg <= end <= |s| && |out| <= cap && Clean(s, beg, end)
    requires beg < end ==> !IsAlpha(At(s, end))
    ensures var f := FindPathStartAndType(s, beg, end);
      var prefix := Take(out + s[beg..f.start], cap);
      var r := SubpConvert(s, beg, end, false, out, cap, resolve);
      f.start <= end && prefix <= r && (forall i :: |prefix| <= i < |r| ==> r[i] != '/')
      && (f.kind == NoPath ==> r == prefix)
      && (f.kind in {SimpleWindowsPath, RelativePath, WindowsPathList, Unc, Url} ==>
            r == Take(out + s[beg..f.start] + ToBackward(s[f.start..end]), cap))
      && (f.kind in {EscapeWindowsPath, EscapedPath} ==>
            f.start < end && r == Take(out + s[beg..f.start] + ToBackward(s[f.start + 1..end]), cap))
      && (Absent(s, beg, end, ':') ==> f.kind != PosixPathList)
  {
    SubpPrefixNoSlash(s, beg, end, out, cap, resolve);
    SubpWholeShapes(s, beg, end, out, cap, resolve);
    SubpEscapedShapes(s, beg, end, out, cap, resolve);
  }

  /** The clause of PlainElement for the shapes written whole. */
  lemma {:induction false} SubpWholeShapes(s: seq<char>, beg: nat, end: nat, out: seq<char>, cap: nat, resolve: Resolver)
    requires beg <= end <= |s| && |out| <= cap && Clean(s, beg, end)
    requires beg < end ==> !IsAlpha(At(s, end))
    ensures var f := FindPathStartAndType(s, beg, end);
      f.start <= end
      && (f.kind in {SimpleWindowsPath, RelativePath, WindowsPathList, Unc, Url} ==>
            SubpConvert(s, beg, end, false, out, cap, resolve)
              == Take(out + s[beg..f.start] + ToBackward(s[f.start..end]), cap))
  {
    var f := FindPathStartAndType(s, beg, end);
    if f.kind in {SimpleWindowsPath, RelativePath, WindowsPathList, Unc, Url} {
      SubpUnfold(s, beg, end, out, cap, resolve);
      ShapeBackslashed(s, f.start, end, f.kind, out, s[beg..f.start], cap, resolve);
    }
  }

  /** The clause of PlainElement for the escaped shapes. */
  lemma {:induction false} SubpEscapedShapes(s: seq<char>, beg: nat, end: nat, out: seq<char>, cap: nat, resolve: Resolver)
    requires beg <= end <= |s| && |out| <= cap && Clean(s, beg, end)
    requires beg < end ==> !IsAlpha(At(s, end))
    ensures var f := FindPathStartAndType(s, beg, end);
      f.kind in {EscapeWindowsPath, EscapedPath} ==>
        f.start < end
        && SubpConvert(s, beg, end, false, out, cap, resolve)
             == Take(out + s[beg..f.start] + ToBackward(s[f.start + 1..end]), cap)
  {
    var f := FindPathStartAndType(s, beg, end);
    assert f == FindPathStartAndType(s, beg, end);
    if f.kind in {EscapeWindowsPath, EscapedPath} {
      SubpEscapedAt(s, beg, end, f.start, f.kind, out, cap, resolve);
    }
  }

  /** SubpEscapedShapes with the classifier's answer named. */
  lemma {:induction false} SubpEscapedAt(s: seq<char>, beg: nat, end: nat, start: nat, kind: PathType, out: seq<char>, cap: nat,
                      resolve: Resolver)
    requires beg <= end <= |s| && |out| <= cap && Clean(s, beg, end)
    requires beg < end ==> !IsAlpha(At(s, end))
    requires FindPathStartAndType(s, beg, end) == Found(kind, start) && kind in {EscapeWindowsPath, EscapedPath}
    ensures start < end
    ensures SubpConvert(s, beg, end, false, out, cap, resolve)
              == Take(out + s[beg..start] + ToBackward(s[start + 1..end]), cap)
  {
    SubpUnfold(s, beg, end, out, cap, resolve);
    var out1 := Take(out + s[beg..start], cap);
    var mid := out1 + ToBackward(ConvertPath(s, start, end, kind, out1, cap, resolve)[|out1|..]);
    EscapedBackslashed(s, start, end, kind, out, s[beg..start], cap, resolve);
    EqualTrans(SubpConvert(s, beg, end, false, out, cap, resolve), mid,
               Take(out + s[beg..start] + ToBackward(s[start + 1..end]), cap));
  }

  /** The escaped shapes under the backslash pass: the path after its
      first byte, with backslashes. */
  lemma {:induction false} EscapedBackslashed(s: seq<char>, start: nat, end: nat, kind: PathType, out: seq<char>, pre: seq<char>,
                           cap: nat, resolve: Resolver)
    requires start < end <= |s| && |out| <= cap && Clean(s, start, end)
    requires kind in {EscapeWindowsPath, EscapedPath}
    ensures var out1 := Take(out + pre, cap);
      var r := ConvertPath(s, start, end, kind, out1, cap, resolve);
      |out1| <= |r| && out1 + ToBackward(r[|out1|..]) == Take(out + pre + ToBackward(s[start + 1..end]), cap)
  {
    ShapeBackslashed(s, start, end, kind, out, pre, cap, resolve);
  }

  /** The backslash pass over rp_convert's output for a rooted range:
      `/dev/null` becomes `nul`, a resolved path the native path with
      backslashes, an unresolved one the range with backslashes, and a
      quote held back from the resolver follows in each case. */
  lemma RootedBackslashed(s: seq<char>, start: nat, end: nat, out: seq<char>, pre: seq<char>,
                          cap: nat, resolve: Resolver)
    requires start < end <= |s| && |out| <= cap && Clean(s, start, end) && s[start] == '/'
    ensures var p := RealTo(s, end);
      var out1 := Take(out + pre, cap);
      var r := RpConvert(s, start, end, out1, cap, resolve);
      start < p <= end && |out1| <= |r|
      && (IsDevNull(s, start, p) ==> out1 + ToBackward(r[|out1|..]) == Take(out + pre + "nul" + s[p..end], cap))
      && (!IsDevNull(s, start, p) && resolve(s[start..p]).None? ==>
            out1 + ToBackward(r[|out1|..]) == Take(out + pre + ToBackward(s[start..end]), cap))
      && (!IsDevNull(s, start, p) && resolve(s[start..p]).Some? && NulFree(resolve(s[start..p]).value) ==>
            out1 + ToBackward(r[|out1|..])
              == Take(out + pre + ToBackward(resolve(s[start..p]).value + s[p..end]), cap))
  {
    var p := RealTo(s, end);
    var out1 := Take(out + pre, cap);
    var q := s[p..end];
    if IsDevNull(s, start, p) {
      RootedDevNullBackslashed(s, start, end, out, pre, cap, resolve);
    } else if resolve(s[start..p]).None? {
      RootedUnresolved(s, start, end, out1, cap, resolve);
      BackslashedAppend(out, pre, s[start..end], cap);
    } else if NulFree(resolve(s[start..p]).value) {
      var native := resolve(s[start..p]).value;
      RootedResolved(s, start, end, out1, cap, resolve);
      AppendAssoc(out1, ToForward(native), q);
      BackslashedAppend(out, pre, ToForward(native) + q, cap);
      ToBackwardAppend(ToForward(native), q);
      ToBackwardForward(native);
      ToBackwardAppend(native, q);
    }
  }

  /** The `/dev/null` case of RootedBackslashed. */
  lemma RootedDevNullBackslashed(s: seq<char>, start: nat, end: nat, out: seq<char>, pre: seq<char>,
                                 cap: nat, resolve: Resolver)
    requires start < end <= |s| && |out| <= cap && s[start] == '/'
    requires start <= RealTo(s, end) && IsDevNull(s, start, RealTo(s, end))
    ensures var p := RealTo(s, end);
      var out1 := Take(out + pre, cap);
      var r := RpConvert(s, start, end, out1, cap, resolve);
      |out1| <= |r| && out1 + ToBackward(r[|out1|..]) == Take(out + pre + "nul" + s[p..end], cap)
  {
    var p := RealTo(s, end);
    var out1 := Take(out + pre, cap);
    var q := s[p..end];
    assert q == [] || (|q| == 1 && IsQuote(q[0]));
    DevNullIsNul(s, start, end, out1, cap, resolve);
    AppendAssoc(out1, "nul", q);
    BackslashedAppend(out, pre, "nul" + q, cap);
    NulQuoteHasNoSlash(q);
    AppendAssoc(out + pre, "nul", q);
  }

  /** `nul`, with or without a quote after it, has no slash to turn. */
  lemma {:induction false} NulQuoteHasNoSlash(q: seq<char>)
    requires q == [] || (|q| == 1 && IsQuote(q[0]))
    ensures ToBackward("nul" + q) == "nul" + q
  {
    ToBackwardNoSlash("nul" + q);
  }

  /** A rooted list element goes through rp_convert and then has every
      slash turned into a backslash: `/dev/null` becomes `nul`, a resolved
      path becomes the native path with backslashes, an unresolved one the
      range with backslashes, and a quote held back from the resolver
      follows in each case. */
  lemma {:induction false} RootedElement(s: seq<char>, beg: nat, end: nat, out: seq<char>, cap: nat, resolve: Resolver)
    requires beg <= end <= |s| && |out| <= cap && Clean(s, beg, end)
    requires beg < end ==> !IsAlpha(At(s, end))
    requires FindPathStartAndType(s, beg, end).kind == RootedPath
    ensures var f := FindPathStartAndType(s, beg, end);
      var p := RealTo(s, end);
      var pre := out + s[beg..f.start];
      var r := SubpConvert(s, beg, end, false, out, cap, resolve);
      f.start < p <= end
      && (IsDevNull(s, f.start, p) ==> r == Take(pre + "nul" + s[p..end], cap))
      && (!IsDevNull(s, f.start, p) && resolve(s[f.start..p]).None? ==>
            r == Take(pre + ToBackward(s[f.start..end]), cap))
      && (!IsDevNull(s, f.start, p) && resolve(s[f.start..p]).Some? && NulFree(resolve(s[f.start..p]).value) ==>
            r == Take(pre + ToBackward(resolve(s[f.start..p]).value + s[p..end]), cap))
  {
    var f := FindPathStartAndType(s, beg, end);
    SubpUnfold(s, beg, end, out, cap, resolve);
    RootedBackslashed(s, f.start, end, out, s[beg..f.start], cap, resolve);
  }

  /** The list loop does not depend on where the list began once the
      current element starts elsewhere. */
  lemma {:induction false} PplLoopFromIrrelevant(s: seq<char>, f1: nat, f2: nat, to: nat, it: nat, beg: nat,
                                                 simc: bool, isUrl: bool, out: seq<char>, cap: nat,
                                                 resolve: Resolver)
    requires f1 <= beg <= it <= to <= |s| && f2 <= beg && |out| <= cap
    requires !IsAlpha(At(s, to))
    requires !simc && |out| == cap ==> beg == it
    requires beg == f1 && !simc && !isUrl ==> Absent(s, f1, it, ':')
    requires beg == f2 && !simc && !isUrl ==> Absent(s, f2, it, ':')
    requires simc ==> f1 < it && f2 < it
    ensures PplLoop(s, f1, to, it, beg, simc, isUrl, out, cap, resolve)
            == PplLoop(s, f2, to, it, beg, simc, isUrl, out, cap, resolve)
    decreases |s| - it, 2
  {
    if At(s, it) == NUL || it == to || |out| == cap {
    } else if s[it] == ':' {
      PplColonFromIrrelevant(s, f1, f2, to, it, beg, simc, isUrl, out, cap, resolve);
    } else if simc {
      PplLoopFromIrrelevant(s, f1, f2, to, it + 1, it, false, isUrl, out, cap, resolve);
    } else {
      PplLoopFromIrrelevant(s, f1, f2, to, it + 1, beg, false, isUrl, out, cap, resolve);
    }
  }

  /** The colon step of PplLoopFromIrrelevant. */
  lemma {:induction false} PplColonFromIrrelevant(s: seq<char>, f1: nat, f2: nat, to: nat, it: nat, beg: nat,
                                                  simc: bool, isUrl: bool, out: seq<char>, cap: nat,
                                                  resolve: Resolver)
    requires f1 <= beg <= it < to <= |s| && f2 <= beg && |out| < cap && s[it] == ':'
    requires !IsAlpha(At(s, to))
    requires beg == f1 && !simc && !isUrl ==> Absent(s, f1, it, ':')
    requires beg == f2 && !simc && !isUrl ==> Absent(s, f2, it, ':')
    requires simc ==> f1 < it && f2 < it
    ensures PplLoop(s, f1, to, it, beg, simc, isUrl, out, cap, resolve)
            == PplLoop(s, f2, to, it, beg, simc, isUrl, out, cap, resolve)
    decreases |s| - it, 1
  {
    if simc {
      PplLoopFromIrrelevant(s, f1, f2, to, it + 1, beg, simc, isUrl, out, cap, resolve);
    } else {
      var schemeFollows := At(s, it + 1) == '/' && At(s, it + 2) == '/' && IsAlpha(At(s, beg));
      var url := if schemeFollows then IsScheme(s, beg, it) else isUrl;
      if schemeFollows && url {
        PplLoopFromIrrelevant(s, f1, f2, to, it + 1, beg, false, true, out, cap, resolve);
      } else {
        PplSplitFromIrrelevant(s, f1, f2, to, it, beg, isUrl, url, out, cap, resolve);
      }
    }
  }

  /** The element-ending step of PplLoopFromIrrelevant. */
  lemma {:induction false} PplSplitFromIrrelevant(s: seq<char>, f1: nat, f2: nat, to: nat, it: nat, beg: nat,
                                                  isUrl: bool, url: bool, out: seq<char>, cap: nat,
                                                  resolve: Resolver)
    requires f1 <= beg <= it < to <= |s| && f2 <= beg && |out| < cap && s[it] == ':'
    requires !IsAlpha(At(s, to))
    requires beg == f1 && !isUrl ==> Absent(s, f1, it, ':')
    requires beg == f2 && !isUrl ==> Absent(s, f2, it, ':')
    requires url == (if At(s, it + 1) == '/' && At(s, it + 2) == '/' && IsAlpha(At(s, beg))
                     then IsScheme(s, beg, it) else isUrl)
    requires !(At(s, it + 1) == '/' && At(s, it + 2) == '/' && IsAlpha(At(s, beg)) && url)
    ensures PplLoop(s, f1, to, it, beg, false, isUrl, out, cap, resolve)
            == PplLoop(s, f2, to, it, beg, false, isUrl, out, cap, resolve)
    decreases |s| - it, 0
  {
    var out1 := SubpConvert(s, beg, it, url, out, cap, resolve);
    if |out1| != cap {
      PplLoopFromIrrelevant(s, f1, f2, to, it + 1, beg, true, false, out1 + [';'], cap, resolve);
    }
  }

  /** Inside an element the loop only advances. */
  lemma {:induction false} PplSkipsElement(s: seq<char>, from: nat, to: nat, it: nat, k: nat, beg: nat,
                                           isUrl: bool, out: seq<char>, cap: nat, resolve: Resolver)
    requires from <= beg <= it <= k <= to <= |s| && |out| < cap
    requires !IsAlpha(At(s, to))
    requires beg == from && !isUrl ==> Absent(s, from, it, ':')
    requires forall j :: it <= j < k ==> s[j] != ':' && s[j] != NUL
    ensures beg == from && !isUrl ==> Absent(s, from, k, ':')
    ensures PplLoop(s, from, to, it, beg, false, isUrl, out, cap, resolve)
            == PplLoop(s, from, to, k, beg, false, isUrl, out, cap, resolve)
    decreases k - it
  {
    if it < k {
      PplSkipsElement(s, from, to, it + 1, k, beg, isUrl, out, cap, resolve);
    }
  }

  /** Inside a run of colons the loop only advances. */
  lemma {:induction false} PplSkipsColonRun(s: seq<char>, from: nat, to: nat, it: nat, m: nat, beg: nat,
                                            isUrl: bool, out: seq<char>, cap: nat, resolve: Resolver)
    requires from <= beg <= it <= m <= to <= |s| && from < it && |out| <= cap
    requires !IsAlpha(At(s, to))
    requires forall j :: it <= j < m ==> s[j] == ':'
    ensures PplLoop(s, from, to, it, beg, true, isUrl, out, cap, resolve)
            == PplLoop(s, from, to, m, beg, true, isUrl, out, cap, resolve)
    decreases m - it
  {
    if it < m && |out| < cap {
      PplSkipsColonRun(s, from, to, it + 1, m, beg, isUrl, out, cap, resolve);
    }
  }

  /** A `:` that keeps a `scheme://` element together: the element starts
      with a letter and holds only letters, digits and `+` before it. */
  predicate SchemeColon(s: seq<char>, beg: nat, k: nat)
  {
    At(s, k) == ':' && At(s, k + 1) == '/' && At(s, k + 2) == '/' && IsAlpha(At(s, beg)) && IsScheme(s, beg, k)
  }

  /** The list splits at its first run of colons, which becomes exactly
      one `;`, unless the element before it filled the buffer; the rest of
      the list is converted as a list of its own. A run that reaches the
      end leaves no final element. */
  lemma {:induction false} PplSplitsAtColonRun(s: seq<char>, from: nat, k: nat, m: nat, to: nat,
                                               out: seq<char>, cap: nat, resolve: Resolver)
    requires from <= k < m <= to <= |s| && |out| <= cap && Clean(s, from, to)
    requires !IsAlpha(At(s, to))
    requires forall j :: from <= j < k ==> s[j] != ':'
    requires forall j :: k <= j < m ==> s[j] == ':'
    requires m == to || s[m] != ':'
    requires !SchemeColon(s, from, k)
    ensures var out1 := SubpConvert(s, from, k, false, out, cap, resolve);
      PplConvert(s, from, to, out, cap, resolve)
        == if |out1| == cap then out1 else PplConvert(s, m, to, out1 + [';'], cap, resolve)
    ensures m == to ==> var out1 := SubpConvert(s, from, k, false, out, cap, resolve);
      PplConvert(s, from, to, out, cap, resolve) == Take(out1 + [';'], cap)
  {
    var out1 := SubpConvert(s, from, k, false, out, cap, resolve);
    if |out| == cap {
      FullStaysFull(out, out1, cap);
      FullStaysFull(out, SubpConvert(s, from, from, false, out, cap, resolve), cap);
    } else {
      PplSkipsElement(s, from, to, from, k, from, false, out, cap, resolve);
      PplColonSplits(s, from, k, to, out, cap, resolve);
      if |out1| < cap {
        PplRestAfterColonRun(s, from, k, m, to, out1 + [';'], cap, resolve);
      }
    }
  }

  /** The first colon of a list that does not keep a `scheme://`
      element together ends the element: the element is converted and one
      `;` follows, unless the buffer is full. */
  lemma {:induction false} PplColonSplits(s: seq<char>, from: nat, k: nat, to: nat, out: seq<char>, cap: nat, resolve: Resolver)
    requires from <= k < to <= |s| && |out| < cap && s[k] == ':'
    requires !IsAlpha(At(s, to))
    requires Absent(s, from, k, ':')
    requires !SchemeColon(s, from, k)
    ensures var out1 := SubpConvert(s, from, k, false, out, cap, resolve);
      PplLoop(s, from, to, k, from, false, false, out, cap, resolve)
        == if |out1| == cap then out1 else PplLoop(s, from, to, k + 1, from, true, false, out1 + [';'], cap, resolve)
  {
  }

  /** After a run of colons the loop goes on as a list of its own that
      starts at the first byte after the run; a run that reaches the end
      leaves the buffer as it is. */
  lemma {:induction false} PplAfterColonRun(s: seq<char>, from: nat, m: nat, to: nat, o: seq<char>, cap: nat, resolve: Resolver)
    requires from < m <= to <= |s| && |o| <= cap && Clean(s, from, to)
    requires !IsAlpha(At(s, to))
    requires m == to || s[m] != ':'
    ensures PplLoop(s, from, to, m, from, true, false, o, cap, resolve) == PplConvert(s, m, to, o, cap, resolve)
    ensures m == to ==> PplLoop(s, from, to, m, from, true, false, o, cap, resolve) == o
  {
    if m == to {
      assert SubpConvert(s, m, m, false, o, cap, resolve) == o;
    } else {
      if |o| == cap {
        FullStaysFull(o, SubpConvert(s, m, m, false, o, cap, resolve), cap);
      } else {
        PplLoopFromIrrelevant(s, from, m, to, m + 1, m, false, false, o, cap, resolve);
      }
    }
  }

  /** What follows the `;` of a colon run `s[k..m)`: the rest of the list
      converted as a list of its own. */
  lemma PplRestAfterColonRun(s: seq<char>, from: nat, k: nat, m: nat, to: nat, o: seq<char>, cap: nat,
                             resolve: Resolver)
    requires from <= k < m <= to <= |s| && |o| <= cap && Clean(s, from, to)
    requires !IsAlpha(At(s, to))
    requires forall i :: k <= i < m ==> s[i] == ':'
    requires m == to || s[m] != ':'
    ensures PplLoop(s, from, to, k + 1, from, true, false, o, cap, resolve) == PplConvert(s, m, to, o, cap, resolve)
    ensures m == to ==> PplLoop(s, from, to, k + 1, from, true, false, o, cap, resolve) == o
  {
    PplSkipsColonRun(s, from, to, k + 1, m, from, false, o, cap, resolve);
    PplAfterColonRun(s, from, m, to, o, cap, resolve);
  }

  /** A list with no colon is one element. */
  lemma {:induction false} PplSingleElement(s: seq<char>, from: nat, to: nat, out: seq<char>, cap: nat, resolve: Resolver)
    requires from <= to <= |s| && |out| <= cap && Clean(s, from, to)
    requires !IsAlpha(At(s, to))
    requires forall j :: from <= j < to ==> s[j] != ':'
    ensures PplConvert(s, from, to, out, cap, resolve) == SubpConvert(s, from, to, false, out, cap, resolve)
  {
    if |out| == cap {
      FullStaysFull(out, SubpConvert(s, from, from, false, out, cap, resolve), cap);
      FullStaysFull(out, SubpConvert(s, from, to, false, out, cap, resolve), cap);
    } else {
      PplSkipsElement(s, from, to, from, to, from, false, out, cap, resolve);
    }
  }

  /** A `scheme://` element is not split at its scheme colon and is
      converted as a URL. */
  lemma {:induction false} PplUrlElement(s: seq<char>, from: nat, j: nat, to: nat, out: seq<char>, cap: nat, resolve: Resolver)
    requires from <= j < to <= |s| && |out| <= cap && Clean(s, from, to)
    requires !IsAlpha(At(s, to))
    requires SchemeColon(s, from, j)
    requires forall i :: from <= i < to && i != j ==> s[i] != ':'
    ensures PplConvert(s, from, to, out, cap, resolve) == SubpConvert(s, from, to, true, out, cap, resolve)
  {
    if |out| == cap {
      FullStaysFull(out, SubpConvert(s, from, from, false, out, cap, resolve), cap);
      FullStaysFull(out, SubpConvert(s, from, to, true, out, cap, resolve), cap);
    } else {
      PplSkipsElement(s, from, to, from, j, from, false, out, cap, resolve);
      PplSkipsElement(s, from, to, j + 1, to, from, true, out, cap, resolve);
    }
  }

  /** A scheme colon does not end the element; it marks it as a URL. */
  lemma {:induction false} PplSchemeColonSkips(s: seq<char>, from: nat, j: nat, to: nat, out: seq<char>, cap: nat,
                            resolve: Resolver)
    requires from <= j < to <= |s| && |out| < cap && Clean(s, from, to)
    requires !IsAlpha(At(s, to)) && Absent(s, from, j, ':') && SchemeColon(s, from, j)
    ensures PplLoop(s, from, to, j, from, false, false, out, cap, resolve)
            == PplLoop(s, from, to, j + 1, from, false, true, out, cap, resolve)
  {
  }

  /** The loop over a `scheme://` element reaches the next colon with the
      element marked as a URL. */
  lemma {:induction false} PplUrlReachesColon(s: seq<char>, from: nat, j: nat, k: nat, to: nat, out: seq<char>, cap: nat,
                           resolve: Resolver)
    requires from <= j < k <= to <= |s| && |out| < cap && Clean(s, from, to)
    requires !IsAlpha(At(s, to))
    requires SchemeColon(s, from, j)
    requires forall i :: from <= i < k && i != j ==> s[i] != ':'
    ensures PplConvert(s, from, to, out, cap, resolve) == PplLoop(s, from, to, k, from, false, true, out, cap, resolve)
  {
    PplSkipsElement(s, from, to, from, j, from, false, out, cap, resolve);
    PplSchemeColonSkips(s, from, j, to, out, cap, resolve);
    PplSkipsElement(s, from, to, j + 1, k, from, true, out, cap, resolve);
  }

  /** The first colon after a `scheme://` element's scheme colon ends the
      element. The element stays a URL unless that colon is itself
      followed by `//`: the protocol check then spans the earlier colon,
      fails, and the element is converted as an ordinary one. */
  lemma {:induction false} PplUrlColonSplits(s: seq<char>, from: nat, j: nat, k: nat, to: nat, out: seq<char>, cap: nat,
                          resolve: Resolver)
    requires from <= j < k < to <= |s| && |out| < cap && s[j] == ':' && s[k] == ':'
    requires !IsAlpha(At(s, to)) && IsAlpha(At(s, from))
    ensures var url := !(At(s, k + 1) == '/' && At(s, k + 2) == '/');
      var out1 := SubpConvert(s, from, k, url, out, cap, resolve);
      PplLoop(s, from, to, k, from, false, true, out, cap, resolve)
        == if |out1| == cap then out1 else PplLoop(s, from, to, k + 1, from, true, false, out1 + [';'], cap, resolve)
  {
    assert !IsScheme(s, from, k) by {
      assert !(IsAlnum(At(s, j)) || At(s, j) == '+');
    }
  }

  /** A list that starts with a `scheme://` element and goes on after a
      later run of colons: the URL element reaches up to that run, the run
      becomes one `;` unless the element filled the buffer, and the rest
      is converted as a list of its own. */
  lemma {:induction false} PplUrlSplitsAtColonRun(s: seq<char>, from: nat, j: nat, k: nat, m: nat, to: nat,
                                                  out: seq<char>, cap: nat, resolve: Resolver)
    requires from <= j < k < m <= to <= |s| && |out| <= cap && Clean(s, from, to)
    requires !IsAlpha(At(s, to))
    requires SchemeColon(s, from, j)
    requires forall i :: from <= i < k && i != j ==> s[i] != ':'
    requires forall i :: k <= i < m ==> s[i] == ':'
    requires m == to || s[m] != ':'
    ensures var url := !(At(s, k + 1) == '/' && At(s, k + 2) == '/');
      var out1 := SubpConvert(s, from, k, url, out, cap, resolve);
      PplConvert(s, from, to, out, cap, resolve)
        == if |out1| == cap then out1 else PplConvert(s, m, to, out1 + [';'], cap, resolve)
    ensures m == to ==> var url := !(At(s, k + 1) == '/' && At(s, k + 2) == '/');
      var out1 := SubpConvert(s, from, k, url, out, cap, resolve);
      PplConvert(s, from, to, out, cap, resolve) == Take(out1 + [';'], cap)
  {
    var url := !(At(s, k + 1) == '/' && At(s, k + 2) == '/');
    var out1 := SubpConvert(s, from, k, url, out, cap, resolve);
    if |out| == cap {
      FullStaysFull(out, out1, cap);
      FullStaysFull(out, SubpConvert(s, from, from, false, out, cap, resolve), cap);
    } else {
      PplUrlReachesColon(s, from, j, k, to, out, cap, resolve);
      PplUrlColonSplits(s, from, j, k, to, out, cap, resolve);
      var atK := PplLoop(s, from, to, k, from, false, true, out, cap, resolve);
      if |out1| < cap {
        var o := out1 + [';'];
        PplRestAfterColonRun(s, from, k, m, to, o, cap, resolve);
        assert Take(o, cap) == o;
      } else {
        assert atK == out1;
        assert Take(out1 + [';'], cap) == out1 by {
          assert (out1 + [';'])[..cap] == out1;
        }
      }
    }
  }
}
