# image_resize, modelled in Dafny

A model of the decision logic of `image_resize.py`, a command-line tool that
resizes one image by a width, a height, both, or a uniform scale factor and
saves it next to the source as `name__{width}x{height}.ext` (or under an
output directory). The model covers:

- **Argument validation** (`validate_arguments`): three ordered rules and the
  three fixed messages, with Python's truthiness (a `0`, `0.0` or `""`
  counts as not given where the source tests truthiness).
- **Resize parameters** (`get_resize_params`, `get_proporsion_ratio`): a
  record that holds the options, the source size and its ratio.
- **Resize planning** (`get_resize_info`): the four branches (scale;
  both sides; width only; height only) tried in that order. `int()` is
  modelled as truncation toward zero.
- **Aspect-ratio drift** (`check_resized_proportions`): a boolean saying
  whether the warning is printed. It is true when the ratios differ by
  strictly more than 0.1.
- **Output path** (the path part of `save_image`): the output path is
  built from models of `os.path.splitext`, `os.path.join` and `str()`.
  These are in the modules `PosixPath` and `Decimal`.
- **The main block**: one function `Run` that chains these steps. It takes
  the opened image's size and whether the write succeeds as parameters. It
  returns how the run ends: a usage error, an open failure, an uncaught
  `ZeroDivisionError`, a save failure, or the saved path with the warning
  flag.

Modules: `Wrappers` (Option), `Decimal`, `PosixPath`, `ImageResize`.

### Behaviour worth noting

- The conflict rule (line 25) tests the truthiness of the options. So
  `--width 0 --scale 2` passes it and is then rejected as "Values of
  arguments must be greater than 0" (`ZeroWidthWithScale`).
- The three validation messages are fixed strings, and no two are equal
  (`ErrorMessagesDistinct`).
- The proportion check runs in every mode. Scale mode and the one-side
  modes can warn, because `int()` truncates: `(10,3)` at scale `0.5` gives
  `(5,1)`, and `(200,100)` with width `3` gives `(3,1)` (`DriftExamples`).
- Nothing clamps a planned side, so it can be 0. When the planned height is
  0, the ratio computation divides by zero and the run ends in an uncaught
  `ZeroDivisionError`: `(200,100)` with width `1` does (`RunCrashExample`).
- Every outcome message goes to `sys.exit`, so a successful save exits with
  status 1, and only a rejected option exits with 2 (`ExitStatus`,
  `RunExitStatus`).
- `os.path.splitext` is applied to the whole `file` argument, so the new
  path keeps the source's directory. With an output directory, that
  directory part is joined under it: `pics/photo.jpg` with `--output out`
  gives `out/pics/photo__300x200.jpg` (`OutputPathParts`).

## Model

| member | source | states |
|---|---|---|
| ImageResize.ErrorMessagesDistinct | image_resize.py:24-28 | the three validation messages are pairwise different, so each rejection is reported with its own text |
| ImageResize.ErrorMessage | image_resize.py:24-28 | the three fixed validation messages; `ErrorMessagesDistinct` states that they differ pairwise |
| ImageResize.ValidateArguments | image_resize.py:18-28 | NoModeSpecified exactly when no option is given. A conflict is reported only when a scale and a width or height are given. NonPositiveValue only when some given value is <= 0. Success exactly when some option is given, every given option is positive, and a scale is not combined with a width or height |
| ImageResize.ConflictRule | image_resize.py:25-26 | the conflict message is returned iff the scale is truthy and the width or the height is truthy |
| ImageResize.NonPositiveRule | image_resize.py:27-28 | the non-positive message is returned iff some option is given, there is no truthy conflict, and some given value is <= 0 |
| ImageResize.ZeroWidthWithScale | image_resize.py:25-28 | a zero width or height next to a scale is rejected as non-positive, not as a conflict |
| ImageResize.ProportionRatio | image_resize.py:70-71 | the ratio times the height is the width |
| ImageResize.GetResizeParams | image_resize.py:117-129 | the options and the file are copied unchanged, the image size is recorded, and the ratio times the image height is the image width |
| ImageResize.Trunc | image_resize.py:80-81 | `int()`: for x >= 0 the result n satisfies 0 <= n <= x < n+1; for x < 0 it rounds toward zero: n-1 < x <= n <= 0 |
| ImageResize.GetResizeInfo | image_resize.py:74-92 | both-sides branch returns (width, height) verbatim; width-only keeps the width; height-only keeps the height |
| ImageResize.ValidatedBranch | image_resize.py:79-90 | on accepted options the branch is the one named by the given options, and exactly one branch applies |
| ImageResize.ValidatedCanPlan | image_resize.py:85-92 | accepted options with a source of positive height always reach a branch without dividing by zero, except width-only on a zero-width image |
| ImageResize.ValidatedPlanNonNegative | image_resize.py:79-90 | accepted options never plan a negative side |
| ImageResize.ScaleTarget | image_resize.py:79-81 | scale mode: each planned side is the floor of source side times scale |
| ImageResize.ScaleOneIsIdentity | image_resize.py:79-81 | a scale of 1 returns the source size |
| ImageResize.ScaleTakesPrecedence | image_resize.py:79-84 | with a truthy scale the result does not depend on width or height |
| ImageResize.WidthOnlyTarget | image_resize.py:85-87 | width-only: new width = width, and new height d satisfies d*W <= width*H < (d+1)*W for source (W,H) |
| ImageResize.HeightOnlyTarget | image_resize.py:88-90 | height-only: new height = height, and new width d satisfies d*H <= height*W < (d+1)*H |
| ImageResize.PlanExamples | image_resize.py:74-92 | (100,50) at scale 2 gives (200,100); (200,100) with width 50 or height 25 gives (50,25); both 50 gives (50,50); (10,10) at scale 0.1 gives (1,1); (200,100) with width 1 gives (1,0) |
| ImageResize.CheckResizedProportions | image_resize.py:58-67 | no warning iff the new ratio lies within 0.1 of the source ratio, bounds included |
| ImageResize.SameProportionsNeverWarn | image_resize.py:58-71 | a target with exactly the source proportions never warns |
| ImageResize.ScaleOneNeverWarns | image_resize.py:58-67 | scaling by 1 plans a non-zero height and never warns |
| ImageResize.DriftExamples | image_resize.py:58-67 | (200,100) to (50,50) warns; scale and width-only modes can warn after truncation |
| ImageResize.SizeTag | image_resize.py:103 | the size tag contains neither a `/` nor a `.` |
| ImageResize.SaveImage | image_resize.py:99-114 | a path is returned iff the write succeeds; it has the source file's extension, its final component is the tagged source name at the resized image's size, and its directory part is the source's, joined under the output directory when that is non-empty |
| ImageResize.NewFilename | image_resize.py:100-103 | the source root, the size tag and the source extension; `NewFilenameOfSplit`, `NewFilenameSplits` and `NewFilenameUnderDir` state what it gives |
| ImageResize.NewFilePath | image_resize.py:105-108 | the new name, joined under the output directory when that is truthy; `OutputPathKeepsExtension`, `OutputPathParts` and `OutputPathUnderDir` state what it gives |
| ImageResize.NewFilenameOfSplit | image_resize.py:100-103 | from a known split (root, extension) of the source, the new name is root, size tag, extension |
| ImageResize.NewFilenameSplits | image_resize.py:100-103 | splitting the new name gives the source root plus the tag, and the source extension |
| ImageResize.NewFilenameUnderDir | image_resize.py:100-103 | only the final component is renamed; the source's directory part is kept |
| ImageResize.OutputPathKeepsExtension | image_resize.py:100-108 | the written path, with or without an output directory, has the source's extension |
| ImageResize.OutputPathParts | image_resize.py:100-108 | the written path's final component is the tagged source name; its directory part is the source's, joined under the output directory when that is non-empty |
| ImageResize.NewFilenameRelative | image_resize.py:100-103 | a source path not starting with `/` gives a non-empty new name not starting with `/` |
| ImageResize.OutputPathUnderDir | image_resize.py:105-106 | for a relative source path and a non-empty output directory, the path is the directory (with a `/` added when it has none at the end) followed by the new name |
| ImageResize.PhotoName | image_resize.py:100-103 | `photo.jpg` at (300,200) is named `photo__300x200.jpg` |
| ImageResize.OutputPathExampleHere | image_resize.py:105-108 | with no output directory, or an empty one, the path is the new name itself |
| ImageResize.OutputPathExampleSlash | image_resize.py:105-106 | output `out/` gives `out/photo__300x200.jpg` |
| ImageResize.OutputPathExampleNoSlash | image_resize.py:105-106 | output `out` gives `out/photo__300x200.jpg` |
| ImageResize.Run | image_resize.py:132-154 | a saved run's path keeps the source file's extension |
| ImageResize.RunPlannedOutcome | image_resize.py:141-154 | with accepted options, an image of positive height, a plan without division by zero and a non-zero planned height, the run saves to the tagged path under the output directory when the write succeeds and reports the failed save otherwise, with the warning flag equal to the proportion check of the plan |
| ImageResize.RunValidatesFirst | image_resize.py:41-47 | rejected options end the run with that error whatever the image and the write would do |
| ImageResize.RunSavesIff | image_resize.py:132-154 | the file is saved iff the options are accepted, the image opens with positive height, it can be planned, the planned height is non-zero and the write succeeds |
| ImageResize.ExitStatus | image_resize.py:137-154 | the status is 2 exactly for a usage error (`parser.error`, line 45) and is never 0, since every other outcome is a `sys.exit` with a message or an uncaught exception |
| ImageResize.RunExitStatus | image_resize.py:41-47 | a run exits with status 2 exactly when its options are rejected |
| ImageResize.ExitMessage | image_resize.py:137-154 | the text written on exit for each outcome (`parser.error` at line 45, the `sys.exit` messages at lines 138-139, 152 and 154), none for a traceback; `RunExitMessage` ties it to `Run` |
| ImageResize.RunExitMessage | image_resize.py:44-45 | a run that stops before planning writes the rejection's message (`parser.error`, lines 44-45), or the open failure message of lines 137-139 when the options are accepted and the image does not open |
| ImageResize.RunSavesExample | image_resize.py:132-154 | `photo.jpg` (600,400) at 300x200 with output `out/` is saved as `out/photo__300x200.jpg`, with no warning |
| ImageResize.RunWarnsExample | image_resize.py:143-152 | (200,100) resized to (50,50) warns and then reports the failed save |
| ImageResize.RunCrashExample | image_resize.py:143-145 | (200,100) with width 1 is accepted, plans height 0, and crashes in the ratio check |
| ImageResize.RunRejectExamples | image_resize.py:133-139 | no options is a usage error; accepted options with an image that does not open are an open failure |
| PosixPath.RFind | image_resize.py:100 | the index of the last occurrence of a character, or -1 |
| PosixPath.SplitExt | image_resize.py:100 | root + extension is the path; the extension is empty or starts at the last `.` and contains no `/` and no other `.`; there is an extension exactly when the final component has a `.` after a character other than `.`, and then the root's part of the final component contains such a character |
| PosixPath.SplitExtInsert | image_resize.py:100-103 | text without `/` and `.` inserted before the extension joins the root and leaves the extension as is |
| PosixPath.SplitExtUnderDir | image_resize.py:100-106 | splitting a name placed under a directory splits the name alone |
| PosixPath.SplitExtHeadTail | image_resize.py:100 | a path splits as its final component does, behind its directory part |
| PosixPath.SplitExtExamplePhoto | image_resize.py:100 | `photo.jpg` splits as `photo` and `.jpg` |
| PosixPath.SplitExtExamplesLastDot | image_resize.py:100 | `dir/name.ext` and `archive.tar.gz` split at the last dot |
| PosixPath.SplitExtExamplesNoExt | image_resize.py:100 | `.bashrc` and `a.b/c` have no extension |
| PosixPath.Head | image_resize.py:100 | the directory part is a prefix of the path, and is empty or ends in `/` |
| PosixPath.Tail | image_resize.py:100 | the final component has no `/`, and directory part + final component is the path |
| PosixPath.Join | image_resize.py:106 | `os.path.join` of one directory and one name; `JoinCases`, `JoinHead` and `JoinTail` state what it gives |
| PosixPath.JoinDir | image_resize.py:106 | the directory `os.path.join` puts a relative name under is empty or ends in `/` |
| PosixPath.JoinCases | image_resize.py:106 | an absolute name is the join itself; a relative name is appended to the directory, with a `/` added when the directory is non-empty and does not end in one |
| PosixPath.HeadUnderDir | image_resize.py:106 | behind a directory that is empty or ends in `/`, the directory part of a path grows by that directory |
| PosixPath.TailUnderDir | image_resize.py:106 | behind such a directory, the final component is unchanged |
| PosixPath.JoinHead | image_resize.py:106 | the directory part of a join is the join of the directory part |
| PosixPath.JoinTail | image_resize.py:106 | a join keeps the final component of the name |
| PosixPath.JoinExamples | image_resize.py:106 | `out/` and `out` both join `photo.jpg` as `out/photo.jpg`; an absolute name replaces the directory |
| Decimal.NatToDecimal | image_resize.py:103 | `str()` of a size is a non-empty string of digits with no leading zero |
| Decimal.DecimalRoundTrip | image_resize.py:103 | reading the numeral back gives the number |
| Decimal.NatToDecimalInjective | image_resize.py:103 | different sizes give different numerals |
| Decimal.NatToDecimalExamples | image_resize.py:103 | 0, 7, 200 and 300 are written `0`, `7`, `200`, `300` |

## Left out

- Argument parsing (`parse_args`, `get_args_descriptions`, lines 7-15 and 31-47) is not modelled. This includes the type conversion of option strings and argparse's usage text around the error message. The parsed options are a record.
- Opening, resampling and saving the image through PIL (lines 50-55, 95-96, 110-114) are calls into a foreign library. The opened image is an optional size. The resized image is assumed to have exactly the planned size. Whether the write succeeds is a boolean parameter. PIL exceptions other than `OSError`/`IOError` are not modelled, for example on a zero-width target.
- The warning text (lines 66-67) and the printing of messages are not modelled. The warning is a flag and the exit message is a function of the outcome. An uncaught exception's traceback is not modelled either.
- Floating-point rounding is not modelled. Scale factors and ratios are exact reals. Cases where float division makes `int()` return one less than the exact floor are not captured. The same goes for a difference such as 1.1 - 1.0 that lands just above 0.1 in floats.
- NaN and infinite scale values, which argparse's `float` accepts, are not modelled.
- `os.path.join` is modelled for one directory and one name with `/` as the separator. An absolute file name replaces the output directory, as in Python. General OS path semantics are out of scope.
- ImageResize.Run: requires the opened image's sides to be non-negative (`PixelSize`), as PIL image sizes are. `SaveImage` requires the same of the resized image.
- ImageResize.ExitMessage: for runs that reach planning, no lemma states the message on its own. `RunPlannedOutcome` fixes the outcome of such a run, and `ExitMessage` maps that outcome to its message. The two facts are not combined into a lemma of their own.
