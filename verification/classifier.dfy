/** The recogniser `find_path_start_and_type`: from a start position and an
    exclusive end bound it skips leading non-path text (flags such as `-I`,
    `NAME=` prefixes, quotes) and labels the path that begins there with one
    of the ten shapes. The cursor `*src` it moves is the `start` of the
    returned `Found`. */
module Classifier {
  import opened Chars

  datatype PathType =
    | NoPath
    | SimpleWindowsPath
    | EscapeWindowsPath
    | WindowsPathList
    | Unc
    | EscapedPath
    | RootedPath
    | PosixPathList
    | RelativePath
    | Url

  /** The classifier's answer: a shape and where the path starts. */
  datatype Found = Found(kind: PathType, start: nat)

  /** Characters the prefix-skipping loop stops at. */
  predicate PathChar(c: char)
  {
    IsAlnum(c) || c == '/' || c == '\\' || c == ':' || c == '-' || c == '.'
  }

  /** The skip loop: advances over non-path characters, stopping on a path
      character, or one step past the last skipped character when that step
      lands on `end` or on the terminator. */
  function SkipPrefix(s: seq<char>, it: nat, end: nat): (p: nat)
    requires At(s, it) != NUL && it != end
    ensures it <= p <= |s|
    ensures it < end ==> p <= end
    ensures forall k :: it <= k < p ==> k < |s| && !PathChar(s[k]) && k != end
    ensures p == end || At(s, p) == NUL || (PathChar(At(s, p)) && p != end)
    decreases |s| - it
  {
    if PathChar(At(s, it)) then it
    else if it + 1 == end || At(s, it + 1) == NUL then it + 1
    else SkipPrefix(s, it + 1, end)
  }

  /** The scan of a path starting with a single `/` (lines 246-257): the
      first `:` or `;` before `end` decides between the two list shapes;
      reaching `end` or the terminator makes it a rooted path. */
  function RootedScan(s: seq<char>, p: nat, end: nat): (r: PathType)
    ensures r != NoPath
    ensures p <= end && r == PosixPathList ==> exists q :: p <= q < end && At(s, q) == ':'
    decreases |s| - p
  {
    if At(s, p) == NUL || p == end then RootedPath
    else if s[p] == ':' then
      var next := At(s, p + 1);
      if next == '/' || next == ':' || next == '.' then PosixPathList else WindowsPathList
    else if s[p] == ';' then WindowsPathList
    else RootedScan(s, p + 1, end)
  }

  /** The shape of a path whose first character is `/`; `j` is the index
      just after that slash. */
  function SlashShape(s: seq<char>, j: nat, end: nat): (r: PathType)
    ensures r != NoPath
    ensures j <= end && r == PosixPathList ==> exists q :: j <= q < end && At(s, q) == ':'
  {
    if IsAlpha(At(s, j)) && At(s, j + 1) == ':' then EscapeWindowsPath
    else if At(s, j) == '.' && At(s, j + 1) == '.' then SimpleWindowsPath
    else if At(s, j) == '/' then
      var k := j + 1;
      if At(s, k) == ':' then Url
      else if At(s, k) == '/' then EscapedPath
      else if MemChr(s, k, end - k, '/') then Unc
      else EscapedPath
    else RootedScan(s, j, end)
  }

  /** find_path_start_and_type. The source's `recurse` argument is written
      but never read and is therefore not a parameter here.

      `start` never moves backwards. When the search begins at or before
      `end` and the byte at `end` is not a letter (the only way the scan can
      overrun `end` is a `-` just before `end` followed by a letter there),
      `start` stays at or before `end`, a shape other than `NoPath` starts
      strictly before `end`, and a POSIX path list has a `:` in its range. */
  function FindPathStartAndType(s: seq<char>, src: nat, end: nat): (r: Found)
    ensures src <= r.start
    ensures src == end ==> r == Found(NoPath, src)
    ensures src <= |s| ==> r.start <= |s|
    ensures r.kind == NoPath <==> (r.start == end || At(s, r.start) == NUL)
    ensures r.kind != NoPath ==> PathChar(s[r.start])
    ensures r.kind == RootedPath ==> s[r.start] == '/'
    ensures src <= end && !IsAlpha(At(s, end)) ==>
              r.start <= end
              && (r.kind == PosixPathList ==> exists q :: r.start <= q < end && At(s, q) == ':')
    decreases |s| - src, 1
  {
    if At(s, src) == NUL || src == end then Found(NoPath, src)
    else
      var it := SkipPrefix(s, src, end);
      if it == end || At(s, it) == NUL then Found(NoPath, it)
      else
        var c := s[it];
        var driveColon := IsAlpha(c) && At(s, it + 1) == ':';
        if driveColon && At(s, it + 2) == '\\' then Found(SimpleWindowsPath, it)
        else if driveColon && At(s, it + 2) == '/' && !MemChr(s, it + 2, end - (it + 2), ':') then
          Found(SimpleWindowsPath, it)
        else if driveColon && At(s, it + 2) == '/' && MemChr(s, it + 2, end - (it + 2), ';') then
          Found(WindowsPathList, it)
        else if c == '.' && (At(s, it + 1) == '.' || At(s, it + 1) == '/')
                && !MemChr(s, it + 2, end - (it + 2), ':') then
          Found(RelativePath, it)
        else if c == '/' then
          Found(SlashShape(s, it + 1, end), it)
        else
          var minus := c == '-';
          var minusAlpha := minus && IsAlpha(At(s, it + 1));
          var from := if minusAlpha then it + 2 else if minus then it + 1 else it;
          if minusAlpha && MemChr(s, from, end - from, ';') then Found(WindowsPathList, it)
          else ScanTail(s, it, from, from, end, minus, minusAlpha)
  }

  /** The character loop of lines 274-318, from `it2`. `start` is the
      cursor position returned for a shape decided here, `base` the `it` the
      source measures its `memchr` lengths from. Every restart of the
      classification begins strictly after `start`. A quote clears
      `starts_with_minus` in the source, but a quote always restarts the
      classification, so the cleared flag is never read. */
  function ScanTail(s: seq<char>, start: nat, base: nat, it2: nat, end: nat,
                    minus: bool, minusAlpha: bool): (r: Found)
    requires start < |s| && PathChar(s[start]) && start != end
    requires start <= base <= it2
    requires minusAlpha ==> start < it2
    requires start < end && !IsAlpha(At(s, end)) ==> it2 <= end
    ensures start <= r.start
    ensures r.start <= |s|
    ensures r.kind == NoPath <==> (r.start == end || At(s, r.start) == NUL)
    ensures r.kind != NoPath ==> PathChar(s[r.start])
    ensures r.kind == RootedPath ==> s[r.start] == '/'
    ensures start < end && !IsAlpha(At(s, end)) ==>
              r.start <= end
              && (r.kind == PosixPathList ==> exists q :: r.start <= q < end && At(s, q) == ':')
    decreases |s| - start, 0, |s| - it2
  {
    if At(s, it2) == NUL || it2 == end then Found(SimpleWindowsPath, start)
    else
      var ch := s[it2];
      if minusAlpha && IsAlpha(ch) && At(s, it2 + 1) == ':' && At(s, it2 + 2) == '/' then
        Found(SimpleWindowsPath, start)
      else if minusAlpha && ch == '/' && !MemChr(s, it2, end - base, ',') then
        FindPathStartAndType(s, it2, end)
      else if ch == '=' || (ch == ':' && minus) || IsQuote(ch) then
        FindPathStartAndType(s, it2 + 1, end)
      else if ch == ',' && minus then
        FindPathStartAndType(s, it2 + 1, end)
      else if ch == ':' && it2 + 1 != end then
        var next := At(s, it2 + 1);
        if next == '/' || next == ':' || next == '.' then
          if next == '/' && At(s, it2 + 2) == '/' then Found(Url, start)
          else Found(PosixPathList, start)
        else if !MemChr(s, it2 + 1, end - base, '=') then Found(SimpleWindowsPath, start)
        else ScanTail(s, start, base, it2 + 2, end, minus, false)
      else ScanTail(s, start, base, it2 + 1, end, minus, false)
  }
}
