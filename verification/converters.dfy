/** The per-shape converters, their dispatch `convert_path`, and the POSIX
    path list converter `ppl_convert` with its per-element `subp_convert`.
    A list element is classified and converted again, so these functions
    are mutually recursive; every one appends to `out` within `cap`. */
module Converters {
  import opened Chars
  import opened Classifier
  import opened Copy

  /** The platform's POSIX-to-Windows path resolution (`cygwin_conv_path`):
      the native path for a POSIX path, or `None` when resolution fails. */
  type Resolver = seq<char> -> Option<seq<char>>

  /** The end `rp_convert` hands to the resolver: one byte earlier when the
      range ends at the terminator right after a quote. */
  function RealTo(s: seq<char>, to: nat): (realTo: nat)
  {
    if At(s, to) == NUL && IsQuote(At(s, to - 1)) then to - 1 else to
  }

  /** is_special_posix_path's test: the range is exactly `/dev/null`. */
  predicate IsDevNull(s: seq<char>, from: nat, to: nat)
    requires from <= to <= |s|
  {
    s[from..to] == "/dev/null"
  }

  /** posix_to_win32_path: resolves `s[from..to]`, writing the native path
      with backslashes turned into slashes, or the POSIX path itself when
      resolution fails; an empty range writes nothing. */
  function PosixToWin32Path(s: seq<char>, from: nat, to: nat, out: seq<char>, cap: nat,
                            resolve: Resolver): (r: seq<char>)
    requires from <= to <= |s| && |out| <= cap
    ensures |out| <= |r| <= cap && r[..|out|] == out
  {
    if from == to then out
    else
      var onePath := s[from..to];
      match resolve(onePath)
      case None => CopyToDst(onePath, 0, None, out, cap)
      case Some(native) => UncConvert(native, 0, None, out, cap)
  }

  /** rp_convert together with is_special_posix_path: `/dev/null` becomes
      `nul`; any other range goes through the resolver; a trailing quote
      that was kept out of the range is written back afterwards. */
  function RpConvert(s: seq<char>, from: nat, to: nat, out: seq<char>, cap: nat,
                     resolve: Resolver): (r: seq<char>)
    requires from <= to <= |s| && |out| <= cap
    requires from == to ==> At(s, to) != NUL
    ensures |out| <= |r| <= cap && r[..|out|] == out
  {
    var realTo := RealTo(s, to);
    var out1 := if IsDevNull(s, from, realTo) then CopyToDst("nul", 0, None, out, cap)
                else PosixToWin32Path(s, from, realTo, out, cap, resolve);
    if realTo != to then Emit(out1, cap, s[realTo]) else out1
  }

  /** convert_path: the converter for each shape. `swp_convert`,
      `wpl_convert` and the relative-path case copy verbatim; `url_convert`
      is `unc_convert`; `ep_convert` is `ewp_convert`, which skips the first
      byte and then behaves as `unc_convert`. */
  function ConvertPath(s: seq<char>, from: nat, to: nat, kind: PathType, out: seq<char>, cap: nat,
                       resolve: Resolver): (r: seq<char>)
    requires from <= to <= |s| && |out| <= cap
    requires kind == EscapeWindowsPath || kind == EscapedPath ==> from < to
    requires kind == RootedPath && from == to ==> At(s, to) != NUL
    requires kind == PosixPathList ==> !IsAlpha(At(s, to))
    ensures |out| <= |r| <= cap && r[..|out|] == out
    decreases (to - from), (if kind == PosixPathList then 4 else 1)
  {
    match kind
    case NoPath => out
    case SimpleWindowsPath => CopyToDst(s, from, Some(to), out, cap)
    case RelativePath => CopyToDst(s, from, Some(to), out, cap)
    case WindowsPathList => CopyToDst(s, from, Some(to), out, cap)
    case EscapeWindowsPath => UncConvert(s, from + 1, Some(to), out, cap)
    case EscapedPath => UncConvert(s, from + 1, Some(to), out, cap)
    case Unc => UncConvert(s, from, Some(to), out, cap)
    case Url => UncConvert(s, from, Some(to), out, cap)
    case RootedPath => RpConvert(s, from, to, out, cap, resolve)
    case PosixPathList => PplConvert(s, from, to, out, cap, resolve)
  }

  /** subp_convert: one list element `s[beg..end)`. The text the classifier
      skips is copied verbatim; the converted path that follows has its
      slashes written as backslashes unless the element is a URL. */
  function SubpConvert(s: seq<char>, beg: nat, end: nat, isUrl: bool, out: seq<char>, cap: nat,
                       resolve: Resolver): (r: seq<char>)
    requires beg <= end <= |s| && |out| <= cap
    requires beg < end ==> !IsAlpha(At(s, end))
    ensures |out| <= |r| <= cap && r[..|out|] == out
    decreases end - beg,
              (if !isUrl && FindPathStartAndType(s, beg, end).kind == PosixPathList then 5 else 2)
  {
    var f := if isUrl then Found(Url, beg) else FindPathStartAndType(s, beg, end);
    var out1 := CopyToDst(s, beg, Some(f.start), out, cap);
    if f.kind == NoPath then out1
    else
      var out2 := ConvertPath(s, f.start, end, f.kind, out1, cap, resolve);
      if isUrl then out2 else out1 + ToBackward(out2[|out1|..])
  }

  /** ppl_convert on `s[from..to)`. */
  function PplConvert(s: seq<char>, from: nat, to: nat, out: seq<char>, cap: nat,
                      resolve: Resolver): (r: seq<char>)
    requires from <= to <= |s| && |out| <= cap
    requires !IsAlpha(At(s, to))
    ensures |out| <= |r| <= cap && r[..|out|] == out
    decreases (to - from), 3, (to - from + 1)
  {
    PplLoop(s, from, to, from, from, false, false, out, cap, resolve)
  }

  /** The loop of ppl_convert from index `it`: `beg` starts the current
      element, `simc` ("previous was a separator") is set while inside a run
      of colons, and `isUrl` while the current element has been recognised
      as `scheme://`. A `:` ends an element unless it continues a colon run
      or follows an all-alphanumeric (or `+`) scheme that starts with a
      letter and is itself followed by `//`; each ended element is converted
      and followed by one `;`. */
  function PplLoop(s: seq<char>, from: nat, to: nat, it: nat, beg: nat, simc: bool, isUrl: bool,
                   out: seq<char>, cap: nat, resolve: Resolver): (r: seq<char>)
    requires from <= beg <= it <= to <= |s| && |out| <= cap
    requires !IsAlpha(At(s, to))
    requires !simc && |out| == cap ==> beg == it
    requires beg == from && !simc && !isUrl ==> Absent(s, from, it, ':')
    requires simc ==> from < it
    ensures |out| <= |r| <= cap && r[..|out|] == out
    decreases (to - from), 3, (to - it)
  {
    if At(s, it) == NUL || it == to || |out| == cap then
      if simc then out
      else
        assert beg == from && it == to && !isUrl ==>
          FindPathStartAndType(s, from, to).kind != PosixPathList;
        SubpConvert(s, beg, it, isUrl, out, cap, resolve)
    else if s[it] == ':' then
      if simc then PplLoop(s, from, to, it + 1, beg, simc, isUrl, out, cap, resolve)
      else
        var schemeFollows := At(s, it + 1) == '/' && At(s, it + 2) == '/' && IsAlpha(At(s, beg));
        var url := if schemeFollows then IsScheme(s, beg, it) else isUrl;
        if schemeFollows && url then PplLoop(s, from, to, it + 1, beg, false, true, out, cap, resolve)
        else
          var out1 := SubpConvert(s, beg, it, url, out, cap, resolve);
          if |out1| == cap then out1
          else
            var r := PplLoop(s, from, to, it + 1, beg, true, false, out1 + [';'], cap, resolve);
            PrefixTrans(out, out1, out1 + [';']);
            PrefixTrans(out, out1 + [';'], r);
            r
    else if simc then PplLoop(s, from, to, it + 1, it, false, isUrl, out, cap, resolve)
    else PplLoop(s, from, to, it + 1, beg, false, isUrl, out, cap, resolve)
  }

  /** The protocol check of ppl_convert: every byte of `s[beg..it)` is
      alphanumeric or `+`. */
  predicate IsScheme(s: seq<char>, beg: nat, it: nat)
  {
    forall p :: beg <= p < it ==> IsAlnum(At(s, p)) || At(s, p) == '+'
  }
}
