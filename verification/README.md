# Code snippet window and view, modelled in Dafny

This project models the code-snippet helper of detect-secrets
(`detect_secrets/util/code_snippet.py`). The helper shows a reported line of a
file together with its surroundings. It has two parts:

- `get_code_snippet` is the window selector. It maps a 1-based line number and
  a context radius (default 5) onto a slice of the file's lines. It also records
  where that slice starts in the file and where the target line sits in it.
- `CodeSnippet` is the view over that slice. It offers the `target_line`
  getter and setter and the `previous_line` property. Its two mutators are
  `add_line_numbers` and `highlight_line`, and `str()` renders it.

Modules:

- `Wrappers` (`wrappers.dfy`) holds `Option` and `Result`. They stand for the
  exceptions the Python code raises.
- `Text` (`text.dfy`) holds the parts of Python's `str` and `list` the helper
  relies on: slicing with clipping, `lower()`, `str.index` and `'\n'.join`.
  It also defines `str.split`, the inverse used to state what rendering keeps.
- `CodeSnippet` (`code_snippet.dfy`) holds the `Snippet` datatype, the
  selector, the accessors, the mutators, rendering, and the lemmas about them.
- `SnippetExamples` (`snippet_examples.dfy`) works through concrete windows and
  highlights.

Each mutator returns a new `Snippet` instead of changing one in place. The two
colourising hooks, `get_line_number` and `apply_highlight`, become function
parameters of type `int -> string` and `string -> string`.

Errors are `Result` values:

- `IndexOutOfRange` stands for Python's `IndexError` on `lines[target_index]`.
- `SubstringNotFound` stands for the `ValueError` that `str.index` raises.

The selector raises no error for a line number past the end of the file, and
the model follows the code here. Such a line number gives a clipped window
whose target lies outside it.
The error appears only when the target line is read, written or highlighted
(`SelectedTargetIsFileLine`). A line number below 1 is excluded by a
precondition, because Python would index from the end of the list.

## Model

| member | source | states |
|---|---|---|
| CodeSnippet.GetCodeSnippet | detect_secrets/util/code_snippet.py:8-32 | window start plus target position is always `line_number - 1`; the window is at most `2*radius+1` lines; each window line is the file line at the same offset; the window has `min(line_number + radius, len(lines)) - start` lines, or none when it starts at or past the end of the file; the target is inside the window exactly when the line number is at most the file length |
| CodeSnippet.SelectionBranches | detect_secrets/util/code_snippet.py:19-26 | near the start (`line_number - 1 <= radius`) the window starts at 0 and the target sits at `line_number - 1`; otherwise it starts `radius` lines before the target and the target sits at `radius` |
| CodeSnippet.WindowIsContextRadius | detect_secrets/util/code_snippet.py:20-29 | a file line is in the window if and only if it is at most `radius` lines from the target |
| CodeSnippet.FullWindowLength | detect_secrets/util/code_snippet.py:20-29 | a target with `radius` lines on both sides gets exactly `2*radius+1` lines |
| CodeSnippet.SelectedTargetIsFileLine | detect_secrets/util/code_snippet.py:19-49 | the selected snippet's `target_line` is file line `line_number`; reading it fails with IndexError exactly when `line_number` is past the end of the file |
| CodeSnippet.TargetLine | detect_secrets/util/code_snippet.py:47-49 | the getter succeeds exactly when the target index is inside the window and then returns that line; otherwise it raises IndexError |
| CodeSnippet.SetTargetLine | detect_secrets/util/code_snippet.py:51-53 | the setter fails with IndexError when the target is out of range; otherwise the target then reads back the new value, and every other line, the length, `start_line` and `target_index` stay the same |
| CodeSnippet.SetTwiceKeepsLast | detect_secrets/util/code_snippet.py:51-53 | setting the target line twice gives the same snippet as setting it once to the second value |
| CodeSnippet.SetToCurrentIsIdentity | detect_secrets/util/code_snippet.py:47-53 | setting the target line to its own value leaves the snippet unchanged |
| CodeSnippet.PreviousLine | detect_secrets/util/code_snippet.py:55-59 | empty string when the target is first in the window or lies more than one past its end; the line before the target when the target index lies in `1..len(lines)` |
| CodeSnippet.SelectedPreviousLine | detect_secrets/util/code_snippet.py:55-59 | for `1 <= line_number <= len(lines)` the `len(lines) < target_index` guard never fires, and `previous_line` is file line `line_number - 1`, except that it is empty on the first line of the file and whenever the radius is 0 |
| CodeSnippet.PreviousLinePastEnd | detect_secrets/util/code_snippet.py:55-59 | for a line number past the end of the file the `len(lines) < target_index` guard fires exactly when the target is more than one line past the end and the radius is not zero; one line past the end with a non-zero radius `previous_line` is the file's last line, otherwise it is empty |
| CodeSnippet.NumberLines | detect_secrets/util/code_snippet.py:62-66 | the enumerate loop keeps the line count and prefixes line `i` with the hook's rendering of `first + i` and a colon |
| CodeSnippet.AddLineNumbers | detect_secrets/util/code_snippet.py:61-68 | the line count, `start_line` and `target_index` stay the same; line `i` becomes `get_line_number(start_line + i + 1) + ":" + old line i` |
| CodeSnippet.StripUndoesLineNumbers | detect_secrets/util/code_snippet.py:61-68 | numbering loses nothing: removing each line's own number prefix gives back the original snippet |
| CodeSnippet.NumberedWindowShowsFileNumbers | detect_secrets/util/code_snippet.py:61-68 | for any window that shows the file from `start_line` on, numbering turns window line `i` into `get_line_number(start_line + i + 1) + ":" + lines[start_line + i]`, and the numbered target line is the file's target line with its own number |
| CodeSnippet.NumberedSelectionShowsFileNumbers | detect_secrets/util/code_snippet.py:61-68 | in a numbered selected window every line carries the 1-based file number of the line it shows; the target line reads `get_line_number(line_number) + ":" + lines[line_number - 1]` |
| CodeSnippet.HighlightLine | detect_secrets/util/code_snippet.py:70-83 | succeeds exactly when the target is in range and the lower-cased payload occurs in the lower-cased target line; otherwise it fails with IndexError or not-found; on success only the target line may change |
| CodeSnippet.HighlightWrapsFirstMatch | detect_secrets/util/code_snippet.py:74-81 | when the folded payload first occurs at `k` in the folded target line `t`, the target becomes `t[:k] + apply_highlight(t[k:k+len(payload)]) + t[k+len(payload):]`, and the wrapped span equals the payload up to case |
| CodeSnippet.PlainHighlightIsIdentity | detect_secrets/util/code_snippet.py:77-81 | with a hook that styles nothing, a successful highlight returns the snippet unchanged, so the three pieces rebuild the original line |
| CodeSnippet.ToText | detect_secrets/util/code_snippet.py:93-94 | an empty window renders as the empty string; a one-line window renders as that line; otherwise the text starts with the first line and a newline |
| CodeSnippet.RenderedTextSplitsIntoLines | detect_secrets/util/code_snippet.py:93-94 | when no line contains a newline, splitting the rendered text on newlines gives back the window's lines in order |
| Text.Slice | detect_secrets/util/code_snippet.py:29 | Python slicing with non-negative bounds: the result is clipped to the end of the list, has the stated length, and holds the list's elements from `start` on |
| Text.Lower | detect_secrets/util/code_snippet.py:74 | `lower()` keeps the length, leaves no upper-case ASCII letter, turns each into its lower-case partner and keeps every other character; its partner `Text.LowerIdempotent` shows folding twice is folding once |
| Text.LowerIdempotent | detect_secrets/util/code_snippet.py:74 | lower-casing an already lower-cased string changes nothing |
| Text.Join | detect_secrets/util/code_snippet.py:94 | `sep.join(parts)` is empty for no parts and starts with the first part, followed by `sep` when there are more; its meaning is pinned down by the round trips `Text.SplitJoin` and `Text.JoinSplit` |
| Text.IndexOf | detect_secrets/util/code_snippet.py:74 | `str.index`: a position is returned exactly when the needle occurs, and it is the lowest position at which it occurs |
| Text.SplitJoin | detect_secrets/util/code_snippet.py:94 | splitting a `sep.join` on `sep` gives back the non-empty list of parts, provided no part contains `sep` |
| Text.JoinSplit | detect_secrets/util/code_snippet.py:94 | joining the parts of a split with the separator gives back the original text |
| SnippetExamples.NearStartWindow | detect_secrets/util/code_snippet.py:19-32 | line 3 of an 8-line file with radius 5 gives the whole file, start 0, target index 2, target line "TARGET" |
| SnippetExamples.FarWindow | detect_secrets/util/code_snippet.py:19-32 | line 15 of a 20-line file with radius 5 gives the lines at 0-based indices 9 to 19 (clipped at the end), start 9, target index 5 and target line `lines[14]` |
| SnippetExamples.HighlightKeepsCase | detect_secrets/util/code_snippet.py:70-83 | highlighting "target" on "has a Target word" wraps "Target" in its original case |
| SnippetExamples.HighlightMissingPayload | detect_secrets/util/code_snippet.py:74 | highlighting "xyz" on a line that lacks it fails with not-found |

## Left out

- The real `colorize` and `AnsiColor` (lines 4-5, 85-91) are not part of this
  model. `get_line_number` and `apply_highlight` are arbitrary function
  parameters, so every property holds for any colouring, plain text included.
- Text.Lower: it folds only ASCII `A`-`Z`. Python's full Unicode `str.lower()`
  can change a string's length. Line 75 uses `len(payload)`, not the length of
  the lowered payload. With such characters the highlighted span could be
  misplaced. Under the length-preserving folding modelled here,
  `k + len(payload)` never passes the end of the line.
- `__iter__` (lines 96-97) is not a separate member. Iterating a snippet yields
  its `lines` field in order, and its generator laziness has no counterpart in
  a value model.
- A line number below 1 is excluded by a precondition of
  `CodeSnippet.GetCodeSnippet`. Python would silently index from the end of
  the list.
- A negative context radius is excluded: the radius is a `nat`.
- A negative `start_line` or `target_index` passed straight to the
  `CodeSnippet` constructor is excluded: both fields are `nat`. The selector
  never produces negative values.
- In-place mutation, aliasing and `return self` chaining become functions that
  return a new snippet. The slice on line 29 is a copy in Python too, so the
  caller's list is never changed, and in the model it cannot be.
- The default radius of 5 is the constant `DefaultLinesOfContext`. Dafny
  functions here have no default arguments.
