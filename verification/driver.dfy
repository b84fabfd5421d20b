/** The entry point `convert` and its segment driver `sub_convert`. The
    result of `convert` is the image of the `dstlen + 1` bytes at `dst`
    (the source also writes `dst[dstlen]`): `Some(c)` where a byte was
    written, `None` where the buffer was left untouched. */
module Driver {
  import opened Chars
  import opened Classifier
  import opened Copy
  import opened Boundaries
  import opened Converters

  /** The state `sub_convert` leaves behind: the bytes written, where its
      `*to` ended and the quote state. */
  datatype SubResult = SubResult(out: seq<char>, to: nat, quote: char)

  /** The fast-path test of convert: a `\` or `/` occurs before the first
      whitespace character. */
  function NeedConvert(s: seq<char>, i: nat): (slow: bool)
    decreases |s| - i
  {
    if At(s, i) == NUL then false
    else if s[i] == '\\' || s[i] == '/' then true
    else if IsSpace(s[i]) then false
    else NeedConvert(s, i + 1)
  }

  /** The quote pre-scan of convert from index `i` with quote state `q`:
      where the scan stops and the quote state it leaves. A quote opens a
      quoted run; the same quote closes it unless it is doubled. */
  function QuoteScan(s: seq<char>, i: nat, q: char): (b: Bound)
    requires i <= |s|
    ensures i <= b.to <= |s| && At(s, b.to) == NUL
    ensures forall k :: i <= k < b.to ==> s[k] != NUL
    ensures IsQuoteState(q) ==> IsQuoteState(b.quote)
    decreases |s| - i
  {
    if At(s, i) == NUL then Bound(i, q)
    else if IsQuote(s[i]) then
      var q' := if q == s[i] then (if At(s, i + 1) != q then NUL else q) else s[i];
      QuoteScan(s, i + 1, q')
    else QuoteScan(s, i + 1, q)
  }

  /** sub_convert on `s[from..to)`: classify, revise the end for a list or
      a rooted path, copy the skipped prefix, convert the path, and write
      the byte at the end of the path. */
  function SubConvert(s: seq<char>, from: nat, to: nat, q: char, out: seq<char>, cap: nat,
                      resolve: Resolver): (r: SubResult)
    requires from <= to <= |s| && |out| <= cap
    requires !IsAlpha(At(s, to)) && IsQuoteState(q)
    ensures |out| <= |r.out| <= cap && r.out[..|out|] == out
    ensures r.to <= |s|
  {
    var f := FindPathStartAndType(s, from, to);
    var b := if f.kind == PosixPathList then FindEndOfPosixList(s, to, q)
             else if f.kind == RootedPath then FindEndOfRootedPath(s, f.start, to, q)
             else Bound(to, q);
    var out1 := CopyToDst(s, from, Some(f.start), out, cap);
    var out2 := if f.kind != NoPath then ConvertPath(s, f.start, b.to, f.kind, out1, cap, resolve)
                else out1;
    var written := Emit(out2, cap, At(s, b.to));
    PrefixTrans(out, out1, out2);
    PrefixTrans(out, out2, written);
    SubResult(written, b.to, b.quote)
  }

  /** The slow path of convert: the bytes written into a buffer of `cap`
      data cells before the final terminator. */
  function Transduce(s: seq<char>, cap: nat, resolve: Resolver): (r: seq<char>)
    requires NulFree(s)
    ensures |r| <= cap
  {
    var scan := QuoteScan(s, 0, NUL);
    var sub := SubConvert(s, 0, scan.to, scan.quote, [], cap, resolve);
    if At(s, sub.to) == NUL then sub.out
    else CopyToDst(s, sub.to + 1, Some(scan.to), sub.out, cap)
  }

  /** The `dstlen + 1` cells at `dst` after `data` and a terminator after
      it were written, and, when `capNul`, a terminator at `dst[dstlen]`
      first. */
  function Image(data: seq<char>, dstlen: nat, capNul: bool): (img: seq<Option<char>>)
    requires |data| <= dstlen
    ensures |img| == dstlen + 1
    ensures forall i :: 0 <= i < |data| ==> img[i] == Some(data[i])
    ensures img[|data|] == Some(NUL)
    ensures forall i :: |data| < i <= dstlen ==> (img[i].Some? <==> capNul && i == dstlen)
  {
    seq(dstlen + 1, i requires 0 <= i <= dstlen =>
      if i < |data| then Some(data[i])
      else if i == |data| || (capNul && i == dstlen) then Some(NUL)
      else None)
  }

  /** convert(dst, dstlen, src). A null `dst` is `dstNull`, a null `src`
      is `None`. */
  function Convert(dstNull: bool, dstlen: nat, src: Option<seq<char>>, resolve: Resolver): (img: seq<Option<char>>)
    requires src.Some? ==> NulFree(src.value)
    ensures |img| == dstlen + 1
    ensures dstNull || dstlen == 0 || src.None? ==> forall i :: 0 <= i <= dstlen ==> img[i].None?
    ensures !(dstNull || dstlen == 0 || src.None?) ==>
              exists t :: 0 <= t <= dstlen && img[t] == Some(NUL) && forall i :: 0 <= i < t ==> img[i].Some?
    ensures !(dstNull || dstlen == 0 || src.None?) && NeedConvert(src.value, 0) ==> img[dstlen] == Some(NUL)
  {
    if dstNull || dstlen == 0 || src.None? then seq(dstlen + 1, _ => None)
    else
      var s := src.value;
      var slow := NeedConvert(s, 0);
      var data := if slow then Transduce(s, dstlen, resolve) else CopyToDst(s, 0, None, [], dstlen);
      Image(data, dstlen, slow)
  }
}
