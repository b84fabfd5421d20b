# path_conv in Dafny

A model of the msys2 argument path converter (`runtime/path_convert/src/path_conv.cpp`).
`convert(dst, dstlen, src)` takes one command-line argument. It finds the part that looks like a
path and labels it with one of ten shapes. It then rewrites only that part into a
bounded output buffer, turning POSIX paths and POSIX path lists into Windows form.

The model is functional:

- The argument is a `seq<char>`. `Chars.At` reads it as a C string: outside the sequence it yields
  the terminator.
- Cursors are indices.
- A buffer is the sequence of bytes already written, `out`, together with its capacity `cap`
  (`dstend - dst`). Every write appends, and `Chars.Take` describes what a bounded write keeps.
- `Driver.Convert` returns the image of the `dstlen + 1` bytes at `dst`. `Some(c)` is a byte that
  was written and `None` a byte that was left alone.

Modules follow the source:

- `Chars` holds the C-string accessor, the ASCII character classes, the clamped `memchr` and the
  sequence helpers.
- `Copy` holds `copy_to_dst` and `unc_convert`.
- `Classifier` holds `find_path_start_and_type`.
- `Converters` holds `convert_path` and the per-shape converters, `rp_convert`, `subp_convert` and
  `ppl_convert`.
- `Boundaries` holds the two end finders.
- `Driver` holds `sub_convert` and `convert`.
- The `*Props` modules state and prove what these promise.

The Cygwin path conversion is a parameter, `Converters.Resolver`: it maps a POSIX path to a
native path, or to `None` when conversion fails.

## Model

| member | source | states |
|---|---|---|
| Copy.Emit | runtime/path_convert/src/path_conv.cpp:110-113 | one guarded byte write: the buffer becomes the truncation of `out + [c]` to its capacity |
| Copy.CopyToDst | runtime/path_convert/src/path_conv.cpp:181-185 | appends bytes of the source in order, keeps what was written, never exceeds the capacity, and stops exactly at the terminator, at `to` or at a full buffer |
| Copy.UncConvert | runtime/path_convert/src/path_conv.cpp:351-360 | the same bounded copy, with every written byte the source byte with `\` turned into `/` |
| CopyProps.CopyRangeIsTruncatedAppend | runtime/path_convert/src/path_conv.cpp:181-185 | copying a terminator-free range `[from, to)` leaves exactly `Take(out + s[from..to], cap)` |
| CopyProps.CopyAllIsTruncatedAppend | runtime/path_convert/src/path_conv.cpp:181-185 | with a NULL `to`, the copy of a C string leaves `Take(out + s[from..], cap)` |
| CopyProps.UncIsForwardedCopy | runtime/path_convert/src/path_conv.cpp:351-360 | unc_convert writes what copy_to_dst writes, with backslashes made forward slashes and nothing else changed |
| CopyProps.UncRangeIsForwardedAppend | runtime/path_convert/src/path_conv.cpp:351-360 | unc_convert of a terminator-free range leaves `Take(out + ToForward(s[from..to]), cap)` |
| CopyProps.UncAllIsForwardedAppend | runtime/path_convert/src/path_conv.cpp:480-482 | the copy of a native path writes the whole path, as far as it fits, with `\` turned into `/` |
| CopyProps.CopyIgnoresWritten | runtime/path_convert/src/path_conv.cpp:181-185 | the bytes appended depend on the buffer only through the room left in it |
| CopyProps.CopyCapMonotone | runtime/path_convert/src/path_conv.cpp:181-185 | copying into a smaller buffer writes exactly the truncation of what a larger buffer receives |
| CopyProps.UncCapMonotone | runtime/path_convert/src/path_conv.cpp:351-360 | the same capacity monotonicity for unc_convert |
| Classifier.SkipPrefix | runtime/path_convert/src/path_conv.cpp:197-201 | the skip loop passes only non-path bytes, never passes `end`, and stops on a path byte, on `end` or on the terminator |
| Classifier.RootedScan | runtime/path_convert/src/path_conv.cpp:246-257 | the scan after a single `/` never answers NONE, and answers POSIX_PATH_LIST only when a `:` lies in the range |
| Classifier.SlashShape | runtime/path_convert/src/path_conv.cpp:223-258 | a path starting with `/` always gets a shape, and a POSIX list has a `:` in its range |
| Classifier.FindPathStartAndType | runtime/path_convert/src/path_conv.cpp:192-319 | `*src` never moves backwards and stays within the string; NONE exactly when the start is at `end` or at the terminator; a rooted path starts on `/`; the start does not pass `end` unless a letter sits at `end` |
| Classifier.ScanTail | runtime/path_convert/src/path_conv.cpp:274-318 | every restart of the classification begins after the current start, with the same guarantees as the classifier |
| ClassifierProps.RootedScanSpec | runtime/path_convert/src/path_conv.cpp:246-257 | ROOTED_PATH exactly when no `:` or `;` occurs before `end`; POSIX_PATH_LIST exactly when the first of them is a `:` followed by `/`, `:` or `.`; otherwise WINDOWS_PATH_LIST |
| ClassifierProps.SlashShapes | runtime/path_convert/src/path_conv.cpp:223-258 | `/X:` is ESCAPE_WINDOWS_PATH, `/..` SIMPLE_WINDOWS_PATH, `//:` URL, `///` ESCAPED_PATH, `//h` UNC exactly when another `/` precedes `end` (else ESCAPED_PATH), and the remaining `/` paths follow RootedScanSpec |
| ClassifierProps.DriveShapes | runtime/path_convert/src/path_conv.cpp:205-217 | `X:\` is SIMPLE_WINDOWS_PATH, `X:/` without a later `:` is SIMPLE_WINDOWS_PATH, and `X:/` with a later `:` and `;` is WINDOWS_PATH_LIST |
| ClassifierProps.RelativeShape | runtime/path_convert/src/path_conv.cpp:219-221 | `..` or `./` with no `:` ahead is RELATIVE_PATH starting at the dot |
| ClassifierProps.ScanTailSkipsAlnum | runtime/path_convert/src/path_conv.cpp:274-311 | the character loop passes over letters and digits without effect |
| ClassifierProps.PlainWordIsSimple | runtime/path_convert/src/path_conv.cpp:274-318 | a word of letters and digits falls through to the default SIMPLE_WINDOWS_PATH |
| ClassifierProps.FlagIsSkipped | runtime/path_convert/src/path_conv.cpp:260-283 | a `-X/` flag restarts classification at the `/` when no `;` or `,` follows |
| ClassifierProps.AssignmentIsSkipped | runtime/path_convert/src/path_conv.cpp:286-291 | an alphanumeric `NAME=` prefix restarts classification just after the `=` |
| ClassifierProps.IncludeFlagExample | runtime/path_convert/src/path_conv.cpp:260-283 | `-I/usr` is a rooted path with `*src` moved onto the `/` |
| ClassifierProps.AssignmentExample | runtime/path_convert/src/path_conv.cpp:286-291 | `NAME=/x` is a rooted path with `*src` moved onto the `/` |
| Converters.PosixToWin32Path | runtime/path_convert/src/path_conv.cpp:468-485 | resolving a range only appends to the buffer, within its capacity |
| Converters.RpConvert | runtime/path_convert/src/path_conv.cpp:366-385 | rp_convert only appends to the buffer, within its capacity |
| Converters.ConvertPath | runtime/path_convert/src/path_conv.cpp:321-336 | every shape converter only appends to the buffer, within its capacity |
| Converters.SubpConvert | runtime/path_convert/src/path_conv.cpp:391-410 | converting a list element only appends to the buffer, within its capacity |
| Converters.PplConvert | runtime/path_convert/src/path_conv.cpp:412-456 | converting a POSIX list only appends to the buffer, within its capacity |
| Converters.PplLoop | runtime/path_convert/src/path_conv.cpp:418-455 | each step of the list loop only appends to the buffer, within its capacity |
| ConverterProps.ConvertPathShapes | runtime/path_convert/src/path_conv.cpp:321-364 | swp, wpl and relative paths append the range verbatim; unc and url append it with `\` made `/`; ewp and ep drop exactly one leading byte and then do the same; NONE writes nothing |
| ConverterProps.RealToSpec | runtime/path_convert/src/path_conv.cpp:368-375 | the resolved range ends one byte early exactly when it ends at the terminator right after a quote |
| ConverterProps.DevNullIsNul | runtime/path_convert/src/path_conv.cpp:366-385 | a range equal to `/dev/null`, once a quote at the terminator is held back, writes `nul` then that quote, whatever the resolver would answer |
| ConverterProps.RootedResolved | runtime/path_convert/src/path_conv.cpp:366-385 | a resolved rooted path writes the native path with `/` for `\`, then the quote that was held back |
| ConverterProps.RootedUnresolved | runtime/path_convert/src/path_conv.cpp:476-477 | when resolution fails the range, quote included, is copied verbatim |
| ConverterProps.UrlElement | runtime/path_convert/src/path_conv.cpp:391-398 | a URL list element is written with `\` made `/` and nothing else changed |
| ConverterProps.PlainElement | runtime/path_convert/src/path_conv.cpp:391-410 | a non-URL element keeps its skipped prefix verbatim and writes no `/` after it; with no path it writes only the prefix; a SIMPLE_WINDOWS, RELATIVE, WINDOWS_PATH_LIST, UNC or URL path is written with every `/` and `\` as `\`, an escaped path likewise after its first byte; an element without a colon is never a POSIX list |
| ConverterProps.RootedElement | runtime/path_convert/src/path_conv.cpp:391-410 | a rooted element keeps its prefix, then writes `nul` for `/dev/null`, the native path for a resolved path and the range itself for an unresolved one, each with every `/` as `\` and followed by a quote held back from the resolver |
| ConverterProps.PplLoopFromIrrelevant | runtime/path_convert/src/path_conv.cpp:412-456 | once the current element starts elsewhere, the loop does not depend on where the list began |
| ConverterProps.PplSkipsElement | runtime/path_convert/src/path_conv.cpp:418-451 | inside an element with no `:` the loop only advances |
| ConverterProps.PplSkipsColonRun | runtime/path_convert/src/path_conv.cpp:419-422 | inside a run of colons the loop only advances |
| ConverterProps.PplColonSplits | runtime/path_convert/src/path_conv.cpp:434-444 | a colon that does not keep a `scheme://` together converts the element and writes one `;`, or stops when the buffer is full |
| ConverterProps.PplAfterColonRun | runtime/path_convert/src/path_conv.cpp:447-455 | after a colon run the loop converts the rest as a list of its own, and a run reaching the end adds nothing |
| ConverterProps.PplSplitsAtColonRun | runtime/path_convert/src/path_conv.cpp:412-456 | each run of colons yields exactly one `;`; a full buffer after an element stops the conversion with what was written; a trailing run leaves no final element |
| ConverterProps.PplSingleElement | runtime/path_convert/src/path_conv.cpp:412-456 | a list with no colon is converted as one element |
| ConverterProps.PplUrlSplitsAtColonRun | runtime/path_convert/src/path_conv.cpp:418-444 | a `scheme://` element runs up to the next colon run, which yields one `;` before the rest of the list; the element is converted as a URL unless that colon is followed by `//`, where the protocol check spans the scheme colon and fails |
| ConverterProps.PplUrlElement | runtime/path_convert/src/path_conv.cpp:423-433 | a `scheme://` element whose scheme starts with a letter and is alphanumeric or `+` is not split and is converted as a URL |
| Boundaries.FindEndOfPosixList | runtime/path_convert/src/path_conv.cpp:56-63 | the end advances to the first terminator or open quote, and stopping on the quote closes it |
| Boundaries.FirstParentRef | runtime/path_convert/src/path_conv.cpp:66-70 | finds the first `..` after a `/` in the range before the terminator; no such reference exists when it finds none |
| Boundaries.RootedTail | runtime/path_convert/src/path_conv.cpp:72-88 | the second loop stops at its first exit: the terminator, an unquoted space, the open quote (closing it) or a space before `/` (stepping back onto it); no index it passes is an exit |
| Boundaries.FindEndOfRootedPath | runtime/path_convert/src/path_conv.cpp:65-89 | the revised end stays in the string and does not fall before a rooted path's start |
| Driver.QuoteScan | runtime/path_convert/src/path_conv.cpp:147-158 | the pre-scan ends on the terminator and leaves a valid quote state |
| Driver.SubConvert | runtime/path_convert/src/path_conv.cpp:91-114 | sub_convert only appends to the buffer, within its capacity, and its end stays in the string |
| Driver.Transduce | runtime/path_convert/src/path_conv.cpp:140-170 | the slow path writes no data byte at or past `dst + dstlen` |
| Driver.Image | runtime/path_convert/src/path_conv.cpp:133-140 | the written data, a terminator right after it, and `dst[dstlen]` only when the slow path wrote it |
| Driver.Convert | runtime/path_convert/src/path_conv.cpp:116-179 | null or empty arguments leave `dst` untouched; otherwise a terminator is written at some index no greater than `dstlen` with data before it, and the slow path also terminates `dst[dstlen]` |
| DriverProps.NeedConvertSpec | runtime/path_convert/src/path_conv.cpp:121-131 | conversion is needed exactly when a `\` or `/` occurs before the first whitespace |
| DriverProps.FastPath | runtime/path_convert/src/path_conv.cpp:133-139 | without such a separator the output is the first `min(len, dstlen)` input bytes, then a terminator, then untouched cells |
| DriverProps.SegmentIsWholeArgument | runtime/path_convert/src/path_conv.cpp:147-158 | the segment is the whole argument, and at its end the list end finder and the second rooted loop do not move |
| DriverProps.PrefixIsVerbatim | runtime/path_convert/src/path_conv.cpp:104 | the text before the path is written first and verbatim |
| DriverProps.WindowsShapesUnchanged | runtime/path_convert/src/path_conv.cpp:91-114 | an argument of a Windows or relative shape, or without a path, is written back unchanged with its terminator |
| DriverProps.RootedWholeArgument | runtime/path_convert/src/path_conv.cpp:160-164 | a resolved rooted path without `/..` becomes the prefix, the native path with `/` for `\`, the held-back quote and the terminator |
| DriverProps.RootedCutAtParentRef | runtime/path_convert/src/path_conv.cpp:65-70 | a rooted path holding `/..` is cut at that `/`: only the text before it is resolved, and the `/` and everything after it are copied verbatim |

## Left out

- `cygwin_conv_path` is a foreign call. It is the `resolve` parameter, so its `PATH_MAX` result limit, `alloca` and `strncpy` are not modelled. A native path is any sequence, and properties about resolved paths assume it holds no NUL.
- The `printf` in `posix_to_win32_path` and the diagnostics at lines 94 and 439 write to the console only. They are not modelled.
- `isalnum`, `isalpha` and `isspace` are the ASCII (C locale) classes.
- `memchr` searches are clamped to the string. The lengths at lines 210, 214, 219, 240, 268, 280 and 307 can reach past `end`, or past the terminator when negative; the undefined over-read is not modelled.
- Reads before the start of the argument (`*(it - 1)` at line 67, `*(*to - 1)` at line 83 and `*real_to` after `real_to -= 1` at line 371) yield the terminator.
- The commented-out fallback at lines 172-176 is disabled code.
- The `recurse` argument of `find_path_start_and_type` is written but never read. The `result` variable is never assigned, so the branches at lines 253 and 313 are dead; neither is modelled.
- Only the argument's bytes are modelled, not the address arithmetic on them. The code fills up to `dstlen` data bytes and may write a terminator at `dst[dstlen]`, so the buffer is modelled with `dstlen + 1` cells. A caller must supply `dstlen + 1` bytes.
- Classifier.FindPathStartAndType: the bound `start <= end` is stated only when the byte at `end` is not a letter. A `-` just before `end` makes the scan step over `end`.
- ConverterProps.PlainElement: stated for ranges without a terminator, which is always the case inside a C string. For an element whose own range is a POSIX path list, it states only the verbatim prefix and the absence of `/` after it; ppl_convert never hands such an element over: a non-URL element holds at most a scheme colon followed by `//`, and the classifier labels such an element URL at that colon (lines 301-303), or SIMPLE_WINDOWS_PATH for a one-letter scheme (line 210).
- ConverterProps.RootedElement: stated for ranges without a terminator, which is always the case inside a C string; a resolved path is described only when the native path holds no NUL.
- ConverterProps.PplSplitsAtColonRun: stated for ranges without a terminator, which is always the case inside a C string.
- ConverterProps.PplSingleElement: stated for ranges without a terminator, which is always the case inside a C string.
- ConverterProps.PplUrlElement: stated for ranges without a terminator, which is always the case inside a C string. A URL followed by more elements is stated by PplUrlSplitsAtColonRun.
- ConverterProps.PplUrlSplitsAtColonRun: stated for ranges without a terminator, which is always the case inside a C string.
- Converters.PosixToWin32Path: the contract states only that the converter appends within capacity. What it writes is stated by the ConverterProps lemmas.
- Converters.RpConvert: the contract states only that the converter appends within capacity. What it writes is stated by the ConverterProps lemmas.
- Converters.ConvertPath: the contract states only that the converter appends within capacity. What it writes is stated by the ConverterProps lemmas.
- Converters.SubpConvert: the contract states only that the converter appends within capacity. What it writes is stated by the ConverterProps lemmas.
- Converters.PplLoop: the contract states only that the converter appends within capacity. What it writes is stated by the ConverterProps lemmas.
- Converters.PplConvert: the contract states only that the converter appends within capacity. What it writes is stated by the ConverterProps lemmas.
- Driver.SubConvert: the contract states only the capacity bound and that its end stays in the string. What it writes for a whole argument is stated by DriverProps.PrefixIsVerbatim, WindowsShapesUnchanged, RootedWholeArgument and RootedCutAtParentRef.
- Boundaries.FindEndOfRootedPath: the contract states only the bounds. The cut and the tail search are stated by FirstParentRef, RootedTail and DriverProps.RootedCutAtParentRef.
