# Legal AI Assistant — verified model of its core logic

The assistant is a command-line chat client: it picks a generative model from
the ones the provider lists, then reads questions from standard input, sends
each to a chat session, and prints the replies quoted in Markdown style. This
project models the three pieces of logic in `Assistant_Main_Code.py` that do not
depend on the network, and proves what they promise:

- **Text** (`text.dfy`) — the Python string operations the rest relies on:
  `str.strip()` over Python's full whitespace set, `str.lower()` (ASCII case
  folding), `sep.join(items)` and substring containment.
- **Formatter** (`formatter.dfy`) — `to_markdown`: every bullet glyph `•`
  becomes `"  *"`. Then every line, blank ones included, gets the prefix `"> "`,
  exactly as `textwrap.indent` does with an always-true predicate. Lines are
  split as `str.splitlines(keepends=True)` splits them: `"\r\n"` counts as one
  boundary, and every other boundary character Python recognises counts as one.
- **ModelSelection** (`model_selection.dfy`) — `choose_model`. The provider's
  model listing is a parameter, either the listed names or the failure it
  raised. The result is either the chosen name or the text of the
  `RuntimeError` raised.
- **ChatLoop** (`chat_loop.dfy`) — the input-handling loop of `run_chat_loop`.
  - It is a method over a sequence of input events: a line, or an interrupt at
    the prompt. The end of the sequence is the end of input.
  - Each line is stripped. An empty line is skipped. `exit`/`quit` in any
    letter case ends the loop. Anything else is sent once.
  - The chat session is a function parameter `respond`. It receives the turns
    so far and the message, and decides whether `send_message` replies or
    raises.
  - The method returns the turns (the session history), the formatted replies
    it prints, and why the loop ended.
  - The specification of the loop is split in two. `Classify` says what one
    input does, as a `Step`. `Sent`, `Ends` and `Stops` say what a run of
    steps does.

## Model

| member | source | states |
|---|---|---|
| Text.SpanStart | Assistant_Main_Code.py:62 | the first non-whitespace index at or after a start point; everything skipped is whitespace |
| Text.SpanEnd | Assistant_Main_Code.py:62 | the end of the kept part after trailing whitespace is dropped; everything dropped is whitespace and the kept part does not end in whitespace |
| Text.Strip | Assistant_Main_Code.py:62 | `strip()` keeps a slice `s[lo..hi]` with only whitespace outside it and no whitespace at either end of it |
| Text.StripOfBounds | Assistant_Main_Code.py:62 | any bounds with that property give exactly what `strip()` returns, so the result is uniquely determined |
| Text.StripEmptyIffBlank | Assistant_Main_Code.py:62-68 | a line strips to the empty string if and only if it is entirely whitespace |
| Text.StripIdempotent | Assistant_Main_Code.py:62 | stripping twice is the same as stripping once |
| Text.StripSurrounded | Assistant_Main_Code.py:62 | whitespace on both sides of a word that neither starts nor ends in whitespace is exactly what `strip()` removes |
| Text.Lower | Assistant_Main_Code.py:70 | `lower()` keeps the length and lowers each character independently |
| Text.JoinContainsItems | Assistant_Main_Code.py:40 | every item of `sep.join(items)` occurs whole in the joined string |
| Formatter.ReplaceBulletsRemovesBullets | Assistant_Main_Code.py:10 | no `•` is left after the replacement |
| Formatter.ReplaceBulletsLength | Assistant_Main_Code.py:10 | replacement adds exactly two characters per `•` and keeps every other character |
| Formatter.ReplaceBulletsAppend | Assistant_Main_Code.py:10 | replacement distributes over concatenation |
| Formatter.ReplaceBulletsNoBullet | Assistant_Main_Code.py:10 | bullet-free text is unchanged |
| Formatter.ReplaceBulletsChars | Assistant_Main_Code.py:10 | every output character is an input character, a space or `*`, so no line boundary is introduced |
| Formatter.BodyLength | Assistant_Main_Code.py:11 | the length of a line's text: no boundary before it, and a boundary at it unless the text ends there |
| Formatter.FirstLineLength | Assistant_Main_Code.py:11 | the first line of a non-empty text is non-empty and fits in the text |
| Formatter.SplitLines | Assistant_Main_Code.py:11 | `splitlines(keepends=True)` never yields an empty line |
| Formatter.SplitLinesAreLines | Assistant_Main_Code.py:11 | every piece of `splitlines(keepends=True)` is one line: no boundary before its terminator (`"\r\n"` counts as one), a terminator on every piece but the last, and no piece ending in a lone `"\r"` followed by one starting with `"\n"` |
| Formatter.FirstLineIsLine | Assistant_Main_Code.py:11 | the first piece of a non-empty text is one line, and unterminated only when it reaches the end of the text |
| Formatter.ConcatSplitLines | Assistant_Main_Code.py:11 | joining the kept-ends lines gives back the text |
| Formatter.PrefixEach | Assistant_Main_Code.py:11 | the prefix goes in front of every line, with the count and order kept |
| Formatter.UnprefixEach | Assistant_Main_Code.py:11 | one leading prefix is removed from every line that has one; other lines are kept |
| Formatter.UnprefixPrefixed | Assistant_Main_Code.py:11 | removing the prefix undoes adding it, line by line |
| Formatter.SplitIndented | Assistant_Main_Code.py:11 | indenting by a prefix without line boundaries moves no boundary: the output's lines are the prefixed input lines |
| Formatter.SplitReplaced | Assistant_Main_Code.py:10-11 | bullet replacement keeps every line boundary: the replaced text's lines are the replaced lines |
| Formatter.IndentAppendNewline | Assistant_Main_Code.py:11 | a final `"\n"` after an unterminated last line ends that line rather than adding a new prefixed line |
| Formatter.ToMarkdownHasNoBullet | Assistant_Main_Code.py:10-11 | the formatted text contains no `•` |
| Formatter.ToMarkdownLength | Assistant_Main_Code.py:10-11 | output length = input length + 2·(number of `•`) + 2·(number of input lines) |
| Formatter.ToMarkdownQuotesEveryLine | Assistant_Main_Code.py:10-11 | the output has one line per input line, blank ones included, and each is `"> "` followed by that line with its bullets replaced |
| Formatter.ToMarkdownDedent | Assistant_Main_Code.py:10-11 | removing one leading `"> "` from every output line gives back the bullet-replaced text |
| Formatter.ToMarkdownTrailingNewline | Assistant_Main_Code.py:11 | empty input gives empty output; a trailing `"\n"` adds only `"\n"` to the output, not another quoted line |
| Formatter.ToMarkdownBulletLine | Assistant_Main_Code.py:10-11 | `"•" + a + "\n" + rest` becomes `">   *" + a + "\n"` followed by the formatted rest |
| Formatter.ToMarkdownLastBulletLine | Assistant_Main_Code.py:10-11 | an unterminated last line `"•" + b` becomes `">   *" + b` |
| Formatter.ToMarkdownTwoBullets | Assistant_Main_Code.py:10-11 | two bulleted lines become two quoted Markdown list items |
| Formatter.ToMarkdownExample | Assistant_Main_Code.py:10-11 | `to_markdown("• a\n• b") == ">   * a\n>   * b"` |
| ModelSelection.FirstListed | Assistant_Main_Code.py:33-35 | the fallback loop finds the first listed candidate in tuple order, and the number of candidates when none is listed |
| ModelSelection.ChooseModel | Assistant_Main_Code.py:22-41 | listing failure gives the "Failed to list models" error; a listed preferred name wins; otherwise the first listed fallback; the error is raised only when none of these is listed; any chosen name was listed |
| ModelSelection.ChooseModelFailureMessage | Assistant_Main_Code.py:38-41 | when nothing acceptable is listed, the error message contains the preferred name and every listed name |
| ModelSelection.ChooseModelMembershipOnly | Assistant_Main_Code.py:29-35 | the choice depends only on which names are listed, not on their order or repeats |
| ModelSelection.FirstListedMembershipOnly | Assistant_Main_Code.py:33-35 | the fallback search depends only on which names are listed |
| ModelSelection.DefaultPreference | Assistant_Main_Code.py:22-35 | with the default preference, selection succeeds if and only if a fallback is listed, and it picks the default if and only if the default is listed |
| ChatLoop.Classify | Assistant_Main_Code.py:61-72 | a sent message is the stripped text of a line |
| ChatLoop.Steps | Assistant_Main_Code.py:60-72 | there is one step per input |
| ChatLoop.StepsClassify | Assistant_Main_Code.py:60-72 | the step for each input is what that input does on its own |
| ChatLoop.RunChatLoop | Assistant_Main_Code.py:60-80 | the messages sent are exactly `Sends(events)`, in order, whatever the session answers; each is sent once, in the session as it stood after the earlier turns; the printed replies are the formatted successful replies, in order; the loop ends as `EndingOf(events)` says |
| ChatLoop.SentQuestion | Assistant_Main_Code.py:62-72 | a message sent for one input is non-empty, already stripped, and not a quit command |
| ChatLoop.SendsAreQuestions | Assistant_Main_Code.py:62-75 | every message sent is non-empty, already stripped, and not a quit command |
| ChatLoop.SentAppend | Assistant_Main_Code.py:60-72 | steps after the first stop are never reached; otherwise two runs of steps are handled one after the other |
| ChatLoop.StepsAppend | Assistant_Main_Code.py:60-72 | inputs are classified one by one, independently of each other |
| ChatLoop.SendsAppend | Assistant_Main_Code.py:60-72 | input after the first stop is never read; before it, the two halves are handled in sequence, for the messages and for the ending |
| ChatLoop.EndOfInputIffNoStop | Assistant_Main_Code.py:63-72 | the loop ends at end of input if and only if no input stops it |
| ChatLoop.InputAfter | Assistant_Main_Code.py:60-75 | an input behind inputs that did not stop the loop is handled as if the run started with it |
| ChatLoop.BlankLineSkipped | Assistant_Main_Code.py:67-68 | a whitespace-only line changes neither the messages sent nor how the loop ends |
| ChatLoop.QuitLineStops | Assistant_Main_Code.py:70-72 | a quit command ends the loop as `QuitCommand`; nothing typed after it is sent |
| ChatLoop.InterruptStops | Assistant_Main_Code.py:63-65 | an interrupt at the prompt ends the loop as `Interrupted`; nothing after it is sent |
| ChatLoop.QuestionSentOnce | Assistant_Main_Code.py:62-75 | any other line is sent exactly once, as its stripped text, after what came before it and before what comes after it |
| ChatLoop.SentBounded | Assistant_Main_Code.py:60-75 | a run of steps sends at most one message per step |
| ChatLoop.SendsBounded | Assistant_Main_Code.py:60-75 | no more messages are sent than inputs are read |
| ChatLoop.QuitCommandIff | Assistant_Main_Code.py:70 | a stripped input is a quit command if and only if it is `quit` or `exit` with any of its letters in capitals: each character is the word's own or the ASCII capital 32 code points below it |
| ChatLoop.LowerIsWord | Assistant_Main_Code.py:70 | `lower()` of a text equals a word of small letters if and only if the text matches that word ignoring ASCII case |
| ChatLoop.PaddedQuit | Assistant_Main_Code.py:62-70 | `"QUIT"` with any whitespace around it is a quit command once stripped |

## Left out

- The provider SDK (`genai.configure`, `genai.list_models`, `GenerativeModel`, `start_chat`, `send_message`; lines 20, 25, 45-58, 75) is foreign network code. The model listing is the `Listing` parameter of `ChooseModel`. `send_message` is the `respond` parameter of `RunChatLoop`, which gets the session history as the turns so far.
- `configure_genai` (lines 13-20) reads `GOOGLE_API_KEY` from the process environment; it is environment I/O around a single truthiness check.
- Console output (banners, answer separators, farewells, stderr reports; lines 54-56, 64, 71, 76-80) is not modelled. The only printed content modelled is the formatted reply: `shown` in `RunChatLoop`.
- `main` (lines 82-99), the mapping of errors to `sys.exit(1)`, is process control.
- The system-instruction text (lines 47-51) is an opaque constant handed to the SDK.
- Text.Lower: folds only ASCII letters, not full Unicode `str.lower()`. `Lower` is used only to compare with `"quit"` and `"exit"`, and there the two agree. No character outside `A`–`Z` lowers to exactly one of the letters `q u i t e x`. The one that lowers to a string containing such a letter is U+0130. It lowers to `i` followed by U+0307, and U+0307 occurs in neither word.
- ChatLoop.RunChatLoop: a `KeyboardInterrupt` that arrives while `send_message` is running is not modelled. It is not an `Exception`, so neither line 79 nor `main` catches it, and the process ends with a traceback. Interrupts are modelled only at the prompt (line 63).
- ChatLoop.RunChatLoop: the session is a function of the history and the message. This excludes a session whose behaviour depends on anything else, such as time or randomness.
- A line read by `input()` is modelled without its newline, and stripping it is part of `Classify`.
- Line 10 replaces each `•` with `"  *"` (two spaces and an asterisk), which is why `ToMarkdownLength` counts two extra characters per bullet.
