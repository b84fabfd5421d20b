/** What the classifier promises about the shapes it assigns, stated over
    C strings (no NUL before the terminator) and a range `[src, end)` that
    ends inside the string. */
module ClassifierProps {
  import opened Chars
  import opened Classifier

  /** No `:` and no `;` in `s[from..to)`. */
  predicate NoListSeparator(s: seq<char>, from: int, to: int)
  {
    forall k :: from <= k < to && 0 <= k < |s| ==> s[k] != ':' && s[k] != ';'
  }

  /** A `:` that starts a POSIX list separator rather than a Windows one. */
  predicate PosixColonAt(s: seq<char>, k: int)
  {
    At(s, k) == ':' && (At(s, k + 1) == '/' || At(s, k + 1) == ':' || At(s, k + 1) == '.')
  }

  /** The rooted-path scan: a path after one `/` is rooted exactly when no
      `:` or `;` occurs before `end`; it is a POSIX list exactly when the
      first of them is a `:` followed by `/`, `:` or `.`; otherwise it is a
      Windows list. */
  lemma {:induction false} RootedScanSpec(s: seq<char>, p: nat, end: nat)
    requires NulFree(s) && p <= end <= |s|
    ensures RootedScan(s, p, end) == RootedPath <==> NoListSeparator(s, p, end)
    ensures RootedScan(s, p, end) == PosixPathList <==>
              exists k :: p <= k < end && PosixColonAt(s, k) && NoListSeparator(s, p, k)
    ensures RootedScan(s, p, end) in {RootedPath, PosixPathList, WindowsPathList}
    decreases |s| - p
  {
    if p < end && s[p] != ':' && s[p] != ';' {
      RootedScanSpec(s, p + 1, end);
      var r := RootedScan(s, p, end);
      if r == PosixPathList {
        var k :| p + 1 <= k < end && PosixColonAt(s, k) && NoListSeparator(s, p + 1, k);
        assert p <= k < end && PosixColonAt(s, k) && NoListSeparator(s, p, k);
      }
      if exists k :: p <= k < end && PosixColonAt(s, k) && NoListSeparator(s, p, k) {
        var k :| p <= k < end && PosixColonAt(s, k) && NoListSeparator(s, p, k);
        assert k != p;
        assert NoListSeparator(s, p + 1, k);
      }
    } else if p < end && s[p] == ':' {
      if !PosixColonAt(s, p) {
        forall k | p <= k < end && PosixColonAt(s, k)
          ensures !NoListSeparator(s, p, k)
        {
          assert k != p;
        }
      }
    } else if p < end {
      forall k | p <= k < end && PosixColonAt(s, k)
        ensures !NoListSeparator(s, p, k)
      {
        assert k != p;
      }
    }
  }

  /** Paths that begin with a `/`: the character after it, and after a
      second `/`, decides among the escaped shapes; failing those, the scan
      for `:` and `;` decides among rooted path and the two list shapes.
      The start does not move. */
  lemma {:induction false} SlashShapes(s: seq<char>, src: nat, end: nat)
    requires NulFree(s) && src < end <= |s| && s[src] == '/'
    ensures FindPathStartAndType(s, src, end).start == src
    ensures var r := FindPathStartAndType(s, src, end).kind;
      var c1, c2 := At(s, src + 1), At(s, src + 2);
      (IsAlpha(c1) && c2 == ':' ==> r == EscapeWindowsPath)
      && (c1 == '.' && c2 == '.' ==> r == SimpleWindowsPath)
      && (c1 == '/' && c2 == ':' ==> r == Url)
      && (c1 == '/' && c2 == '/' ==> r == EscapedPath)
      && (c1 == '/' && c2 != ':' && c2 != '/' && src + 2 <= end ==>
            (r == Unc <==> exists k :: src + 2 <= k < end && s[k] == '/')
            && (r == Unc || r == EscapedPath))
      && (!(IsAlpha(c1) && c2 == ':') && !(c1 == '.' && c2 == '.') && c1 != '/' ==>
            (r == RootedPath <==> NoListSeparator(s, src + 1, end))
            && (r == PosixPathList <==>
                  exists k :: src + 1 <= k < end && PosixColonAt(s, k) && NoListSeparator(s, src + 1, k))
            && r in {RootedPath, PosixPathList, WindowsPathList})
  {
    var c1, c2 := At(s, src + 1), At(s, src + 2);
    if c1 == '/' && c2 != ':' && c2 != '/' && src + 2 <= end {
      assert SearchLimit(s, src + 2, end - (src + 2)) == end;
    }
    if !(IsAlpha(c1) && c2 == ':') && !(c1 == '.' && c2 == '.') && c1 != '/' {
      RootedScanSpec(s, src + 1, end);
    }
  }

  /** Paths that begin with a drive letter and a colon. */
  lemma {:induction false} DriveShapes(s: seq<char>, src: nat, end: nat)
    requires NulFree(s) && src < end <= |s| && IsAlpha(s[src]) && At(s, src + 1) == ':'
    ensures At(s, src + 2) == '\\' ==> FindPathStartAndType(s, src, end) == Found(SimpleWindowsPath, src)
    ensures At(s, src + 2) == '/' && src + 2 <= end && Absent(s, src + 2, end, ':') ==>
              FindPathStartAndType(s, src, end) == Found(SimpleWindowsPath, src)
    ensures At(s, src + 2) == '/' && src + 2 <= end && !Absent(s, src + 2, end, ':')
              && !Absent(s, src + 2, end, ';') ==>
              FindPathStartAndType(s, src, end) == Found(WindowsPathList, src)
  {
    if src + 2 <= end {
      assert SearchLimit(s, src + 2, end - (src + 2)) == end;
    }
  }

  /** A leading `.` followed by `.` or `/`, with no `:` ahead, is a relative
      path. */
  lemma {:induction false} RelativeShape(s: seq<char>, src: nat, end: nat)
    requires NulFree(s) && src + 2 <= end <= |s| && s[src] == '.'
    requires s[src + 1] == '.' || s[src + 1] == '/'
    requires Absent(s, src + 2, end, ':')
    ensures FindPathStartAndType(s, src, end) == Found(RelativePath, src)
  {
    assert SearchLimit(s, src + 2, end - (src + 2)) == end;
  }

  /** The character loop passes over letters and digits unchanged. */
  lemma {:induction false} ScanTailSkipsAlnum(s: seq<char>, start: nat, base: nat, it2: nat, e: nat,
                                              end: nat, minus: bool)
    requires start < |s| && PathChar(s[start]) && start != end
    requires start <= base <= it2 <= e <= end <= |s|
    requires forall k :: it2 <= k < e ==> IsAlnum(s[k])
    ensures ScanTail(s, start, base, it2, end, minus, false) == ScanTail(s, start, base, e, end, minus, false)
    decreases e - it2
  {
    if it2 < e {
      ScanTailSkipsAlnum(s, start, base, it2 + 1, e, end, minus);
    }
  }

  /** A word of letters and digits that runs to `end` is a simple Windows
      path: nothing in it makes any other rule apply, and the result falls
      back to the default. */
  lemma {:induction false} PlainWordIsSimple(s: seq<char>, src: nat, end: nat)
    requires NulFree(s) && src < end <= |s|
    requires forall k :: src <= k < end ==> IsAlnum(s[k])
    requires At(s, end) != ':'
    ensures FindPathStartAndType(s, src, end) == Found(SimpleWindowsPath, src)
  {
    ScanTailSkipsAlnum(s, src, src, src, end, end, false);
  }

  /** A flag `-X` directly followed by `/` is skipped: classification
      restarts at the `/`, provided no `;` or `,` occurs in the value. */
  lemma FlagIsSkipped(s: seq<char>, src: nat, end: nat)
    requires NulFree(s) && src + 2 < end <= |s|
    requires s[src] == '-' && IsAlpha(s[src + 1]) && s[src + 2] == '/'
    requires Absent(s, src + 2, end, ';') && Absent(s, src + 2, end, ',')
    ensures FindPathStartAndType(s, src, end) == FindPathStartAndType(s, src + 2, end)
  {
    assert SearchLimit(s, src + 2, end - (src + 2)) == end;
  }

  /** An assignment `NAME=` with an alphanumeric name is skipped:
      classification restarts just after the `=`. */
  lemma AssignmentIsSkipped(s: seq<char>, src: nat, eq: nat, end: nat)
    requires NulFree(s) && src < eq < end <= |s|
    requires forall k :: src <= k < eq ==> IsAlnum(s[k])
    requires s[eq] == '='
    ensures FindPathStartAndType(s, src, end) == FindPathStartAndType(s, eq + 1, end)
  {
    ScanTailSkipsAlnum(s, src, src, src, eq, end, false);
  }

  /** `-I/usr` is a rooted path starting at the `/`. */
  lemma IncludeFlagExample()
    ensures FindPathStartAndType("-I/usr", 0, 6) == Found(RootedPath, 2)
  {
    var s := "-I/usr";
    FlagIsSkipped(s, 0, 6);
    SlashShapes(s, 2, 6);
  }

  /** `NAME=/x` is a rooted path starting at the `/`. */
  lemma AssignmentExample()
    ensures FindPathStartAndType("NAME=/x", 0, 7) == Found(RootedPath, 5)
  {
    var s := "NAME=/x";
    AssignmentIsSkipped(s, 0, 4, 7);
    SlashShapes(s, 5, 7);
  }
}
