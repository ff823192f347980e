# ghostty_ai reply handling in Dafny

`ai/ghostty_ai.py` is a small command-line helper. It sends a natural-language
request to a local language model (through the Ollama chat client) and prints
the shell command the model proposes. A second function asks the model to
correct a command that failed. Apart from the chat calls, the file holds a
little string logic, and that logic is what this project models:

- **The command path** (`get_command_from_ollama`). The reply content is
  stripped of surrounding whitespace. If the stripped reply contains the
  reasoning model's closing marker `</think>`, only the text after the *last*
  marker is kept, stripped again. Otherwise the stripped reply is returned.
  An `Exception` raised while asking the model or reading its reply becomes
  the text `"Error communicating with Ollama: " + str(e)`.
- **The correction path** (`get_command_correction`). The reply content is
  stripped and nothing else; think blocks are kept. An `Exception` becomes
  `"Error: " + str(e)`.
- **The entry point.** With at least one argument after the program name, the
  arguments are joined with single spaces into the prompt, and the command
  path's result is printed.

The chat call is replaced by its outcome: `ChatResult = Ok(content) |
Fault(msg)`, where `msg` stands for `str(e)`. The two paths are then pure
functions of that outcome.

Files:

- `whitespace.dfy` (module `Whitespace`) models Python's argument-less
  `str.strip()`. The whitespace set is written out explicitly: the code points
  for which Python 3's `str.isspace()` holds (U+0009–U+000D, U+001C–U+0020,
  U+0085, U+00A0, U+1680, U+2000–U+200A, U+2028, U+2029, U+202F, U+205F,
  U+3000).
- `substrings.dfy` (module `Substrings`) models three Python
  operations:
  - `sub in s`;
  - `s.split(sep)`, which cuts at each first occurrence from left to right;
  - `sep.join(pieces)`.
  It also models the last-occurrence search.
- `ghostty_ai.dfy` contains two modules:
  - `StrippedSearch` holds facts about searching a stripped string.
  - `GhosttyAi` holds the two reply paths and the entry point.

## Model

| member | source | states |
|---|---|---|
| Whitespace.Strip | ai/ghostty_ai.py:47 | `strip()` returns a string with no whitespace at either end. The result starts in the input right after the leading whitespace, and only whitespace follows it. |
| Whitespace.StripOfPadded | ai/ghostty_ai.py:47 | This is the reference characterisation of `strip()`. Put whitespace on both sides of an already stripped string, strip it, and you get exactly that string back. |
| Whitespace.StripIgnoresPadding | ai/ghostty_ai.py:47 | Adding whitespace on either side of a string never changes what it strips to. |
| Whitespace.StripIdempotent | ai/ghostty_ai.py:47 | Stripping twice gives the same result as stripping once. |
| Substrings.Contains | ai/ghostty_ai.py:48 | Python's `sub in s`: some slice of `s` equals `sub`. As a definition it has no `ensures` of its own. ContainsIffLastIndexOf ties it to the last-occurrence search, and ContainsInStripped shows stripping does not change it for the marker. |
| Substrings.Split | ai/ghostty_ai.py:49 | Python's `s.split(sep)` for a non-empty separator: cut at the first occurrence, then split the rest. The wrapper has no `ensures` of its own. SplitPiecesAvoidSeparator, JoinSplit and LastPieceFollowsLastOccurrence pin what it returns. |
| Substrings.Join | ai/ghostty_ai.py:83 | Python's `sep.join(pieces)`: the pieces in order with `sep` between neighbours. The wrapper has no `ensures` of its own. JoinOne and JoinCons give its defining equations, and SplitJoin shows splitting undoes it. |
| Substrings.FindFromIsFirst | ai/ghostty_ai.py:49 | The scan that `split` relies on finds the first occurrence at or after the start index. When there is none, nothing occurs from that index on. |
| Substrings.ContainsIffLastIndexOf | ai/ghostty_ai.py:48 | `"</think>" in s` holds exactly when `s` has a last occurrence of the marker. |
| Substrings.LastIndexOfUnique | ai/ghostty_ai.py:48-49 | The last occurrence is the only occurrence with none after it. |
| Substrings.SplitPiecesAvoidSeparator | ai/ghostty_ai.py:49 | No piece of `s.split(sep)` contains `sep`. |
| Substrings.LastPiece | ai/ghostty_ai.py:49 | `s.split(sep)[-1]` is a suffix of `s` and does not contain `sep`. |
| Substrings.JoinSplit | ai/ghostty_ai.py:49 | Joining the pieces of `s.split(sep)` with `sep` gives back `s`, so the split loses and adds nothing. |
| Substrings.SplitJoin | ai/ghostty_ai.py:83 | Join some pieces with a one-character separator that none of them contains, then split the result on that separator: you get the pieces back. |
| Substrings.LastPieceFollowsLastOccurrence | ai/ghostty_ai.py:49 | For a separator that cannot overlap itself, `s.split(sep)[-1]` is exactly the text after the last occurrence of `sep`. It is all of `s` when `sep` does not occur. |
| StrippedSearch.ContainsInStripped | ai/ghostty_ai.py:47-48 | A non-empty needle with no whitespace at its ends occurs in a string exactly when it occurs in the stripped string. |
| StrippedSearch.LastIndexStripped | ai/ghostty_ai.py:47-48 | The last occurrence of such a needle in the stripped string is its last occurrence in the original, shifted by the leading whitespace. |
| GhosttyAi.ThinkCloseBorderFree | ai/ghostty_ai.py:48-49 | Two occurrences of `</think>` can never overlap. |
| GhosttyAi.DropThinking | ai/ghostty_ai.py:48-51 | The marker-removal branch. Its result never contains `</think>` and is a contiguous piece of its input. On stripped input it is stripped. |
| GhosttyAi.ExtractCommand | ai/ghostty_ai.py:47-51 | The post-processed reply never contains `</think>`. It has no surrounding whitespace and is a contiguous piece of the reply, so nothing is inserted or reordered. |
| GhosttyAi.DropThinkingWithoutMarker | ai/ghostty_ai.py:48-51 | A stripped reply without the marker is returned unchanged. |
| GhosttyAi.DropThinkingAfterLastMarker | ai/ghostty_ai.py:48-49 | When the last marker of a stripped reply is at `k`, the result is the stripped text after that marker. |
| GhosttyAi.ExtractCommandSplitsAtLastMarker | ai/ghostty_ai.py:47-51 | The command path splits at the last marker of the stripped reply and keeps the stripped text after it. Without a marker, the result is the stripped reply. |
| GhosttyAi.RawReplyWithoutMarker | ai/ghostty_ai.py:47-51 | If the raw reply has no marker, the result is the stripped reply. |
| GhosttyAi.RawReplyWithMarker | ai/ghostty_ai.py:47-49 | If the raw reply's last marker is at `j`, the result is the stripped text after the marker that starts at `j`. Stripping first never moves the split. |
| GhosttyAi.EarlierMarkersIgnored | ai/ghostty_ai.py:48-49 | When no marker follows a given marker, the result is the stripped text after it. Whatever precedes that marker, including earlier markers, never decides the split. |
| GhosttyAi.MarkerAtEndGivesEmpty | ai/ghostty_ai.py:48-49 | The result is not guaranteed to be non-empty: a reply that ends in `</think>`, possibly followed by whitespace, yields `""`. |
| GhosttyAi.ExtractCommandIgnoresPadding | ai/ghostty_ai.py:47 | Whitespace around the reply never changes the result. |
| GhosttyAi.ExtractCommandKeepsCleanText | ai/ghostty_ai.py:47-51 | A stripped text without the marker passes through unchanged. |
| GhosttyAi.ExtractCommandIdempotent | ai/ghostty_ai.py:47-51 | Post-processing the output again returns the same output. |
| GhosttyAi.CommandFromReply | ai/ghostty_ai.py:46-53 | For a reply, the command path gives a stripped piece of the content with no marker in it. For a fault, it gives `"Error communicating with Ollama: " + msg`. |
| GhosttyAi.CorrectionFromReply | ai/ghostty_ai.py:75-77 | For a reply, the correction path gives the stripped content: a stripped piece that starts right after the leading whitespace, with only whitespace after it. It contains the marker exactly when the reply does. For a fault, it gives `"Error: " + msg`. |
| GhosttyAi.CorrectionOfPadded | ai/ghostty_ai.py:75 | Pad a stripped text with whitespace on both sides and send it as the reply: the correction is exactly that text, think blocks and all. |
| GhosttyAi.CommandIsCorrectionWithoutThinking | ai/ghostty_ai.py:47-75 | For the same reply, the command path's result is the correction path's result with think blocks removed. |
| GhosttyAi.ErrorTextIsAmbiguous | ai/ghostty_ai.py:51-53 | Nothing marks the error text. A clean reply that reads `"Error communicating with Ollama: " + msg` gives the same output as a fault with message `msg`. |
| GhosttyAi.Run | ai/ghostty_ai.py:82-85 | A run asks the model something exactly when there is at least one argument after the program name. The prompt is the arguments after the program name joined in order by single spaces, so every argument appears in it. The printed line is the command path's result for that prompt. |
| GhosttyAi.PromptOfTwoArguments | ai/ghostty_ai.py:82-83 | Two arguments `x` and `y`, spaces inside them included, give exactly the prompt `x + " " + y`. |
| GhosttyAi.PromptRoundTrip | ai/ghostty_ai.py:82-83 | When no argument contains a space, splitting the prompt on spaces gives back exactly the arguments, so the join loses nothing. |

## Left out

- The `ollama.chat` calls, the `ollama` import and its error banner and exit (ai/ghostty_ai.py:12-20, 27-45, 60-74). They are a foreign library and network I/O. Each chat call is replaced by its `ChatResult`.
- The `Fault` message: the model carries it as the string `str(e)` and does not model Python exceptions. Any `Exception` the reply access raises (for example a missing `message` key) is folded into `Fault` too.
- Exceptions outside `Exception`: lines 52 and 76 catch only `Exception`. A `KeyboardInterrupt` or `SystemExit` raised during the chat call propagates, and no line is printed. `ChatResult` has no case for that.
- The system-prompt text, `os.uname()` and `os.getcwd()`, the model name and the arguments of `get_command_correction`. They only shape the request sent to the model, which the model does not represent.
- `print` and the process exit status. This is I/O; `Run` returns the line that would be printed.
- `ai/ghostty_ai.py` has no structured-JSON replies, no decline or question/answer handling, no mode fallback and no environment-variable configuration, so none is modelled.
- Substrings.Split: separators of length zero are excluded by a precondition. Python raises `ValueError` for an empty separator, and the code only ever splits on `"</think>"`.
- Substrings.SplitJoin: proved only for one-character separators such as the `" "` the entry point uses, not for longer ones.
