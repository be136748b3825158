# llm-commit: a Dafny model of the commit helper's deterministic core

`auto-commit.py` gathers the staged changes of a git working copy and turns
them into a prompt for a language-model service. It then proposes the answer
as a commit message, and falls back to a templated message when the service
call fails. Finally it asks the user whether to commit, edit or cancel. Most of
the script is subprocess, network and terminal glue. This project models the
deterministic text and decision logic in between, and proves what that logic
promises:

- `text.dfy` (module `Text`): the Python built-ins the script relies on.
  These are `str.split('\n')` (with `Join` as its inverse), `str(n)` for a
  count (with `ParseDecimal` as its inverse) and lower-casing, restricted to
  ASCII.
- `staged_changes.dfy` (module `StagedChanges`): `get_staged_changes`.
  - The staged-path filter is a function, because the source uses a list
    comprehension.
  - The change-record loop is a method, `CollectChanges`. Its loop invariant
    ties it to the recursive specification `Assemble`.
  - Git's name listing, the per-path diff and the file read are inputs.
    A failing git call is `None` and makes the whole collection fail. For a
    git call that exits with an error this is the source's `sys.exit(1)`
    path; `None` also stands for the failures the source does not catch
    (see "## Left out"). An unreadable file contributes `""`.
- `prompt.dfy` (module `Prompt`): `prepare_claude_prompt`. The method
  `BuildPrompt` grows the prompt with three appends per change, as the source
  does. It is proved equal to `PromptText` = header ++ blocks ++ closing.
  The header is the source's triple-quoted literal, byte for byte, written as
  Dafny string pieces.
  Lemmas then give the prompt's frame, its exact length, the placement of
  each change's block and the distribution of blocks over concatenation.
- `messages.dfy` (module `Messages`): `generate_fallback_message`, and the
  choice between the generated text and the fallback that
  `get_commit_message_from_claude` makes.
- `confirmation.dfy` (module `Confirmation`): the y / e / other branch at the
  end of `run`, and what follows from it.
- `optional.dfy` (module `Optional`): the `Option` type used for the inputs
  that may fail.

## Model

| member | source | states |
|---|---|---|
| `Text.Split` | auto-commit.py:20-23 | `split('\n')`: the pieces between newlines, at least one, empty pieces kept; `JoinSplit`, `SplitPiecesLackSeparator` and `SplitWithoutSeparator` characterize it |
| `Text.JoinSplit` | auto-commit.py:20-23 | joining the pieces of `split('\n')` with `'\n'` gives back the listing, so splitting loses nothing |
| `Text.SplitPiecesLackSeparator` | auto-commit.py:20-23 | no piece of `split('\n')` contains a newline |
| `Text.SplitWithoutSeparator` | auto-commit.py:20-23 | text with no newline splits into exactly itself, one piece |
| `Text.Decimal` | auto-commit.py:104 | `str(n)` for a count: at least one character; `DecimalWellFormed` and `ParseDecimalOfDecimal` characterize it |
| `Text.DecimalWellFormed` | auto-commit.py:104 | `str(len(changes))` is non-empty, all digits, starts with `0` only for zero, and is then exactly `"0"` |
| `Text.ParseDecimalOfDecimal` | auto-commit.py:104 | reading the decimal text of a count back gives the count |
| `Text.DecimalInjective` | auto-commit.py:104 | distinct counts have distinct decimal texts |
| `Text.AsciiLower` | auto-commit.py:135-137 | lower-casing keeps the length and maps each character on its own (ASCII capitals to small letters, all else unchanged) |
| `Text.AsciiLowerIsLetter` | auto-commit.py:135-137 | a reply lower-cases to a one-letter word exactly when it is that letter in either case |
| `StagedChanges.KeepNonEmpty` | auto-commit.py:24 | the filtered list has no empty string and only elements of the input |
| `StagedChanges.StagedPaths` | auto-commit.py:20-24 | no staged path is empty and none contains a newline |
| `StagedChanges.KeepNonEmptyCharacterized` | auto-commit.py:24 | a list is the filter's result if and only if it is an order-preserving subsequence of the pieces, holds no empty string, and keeps each non-empty piece as many times as it occurs |
| `StagedChanges.StagedPathsAreNonEmptyLines` | auto-commit.py:20-24 | the staged paths are exactly the non-empty lines of the listing, in their original order |
| `StagedChanges.ContentOf` | auto-commit.py:33-37 | an unreadable file contributes `""`, a readable one its text |
| `StagedChanges.Assemble` | auto-commit.py:26-39 | the records for a path list, or none when a diff fails; a success has one record per path, and `AssembleSpec` characterizes it |
| `StagedChanges.AssembleSpec` | auto-commit.py:26-39 | assembly succeeds if and only if every path's diff is obtained; then there is one record per path, record i holds path i, its diff and its content (`""` when the read failed) |
| `StagedChanges.CollectChanges` | auto-commit.py:19-44 | a failed name listing gives no changes; otherwise the loop yields exactly `Assemble` of the staged paths, so a failed diff gives no changes |
| `Prompt.Block` | auto-commit.py:64-66 | the text one change contributes, `"File: " + path + "\n" + "Diff:\n" + diff + "\n" + "Current file content:\n" + content + "\n\n"`, whose length is the three fields plus 38 |
| `Prompt.Blocks` | auto-commit.py:63-66 | the blocks of the changes in order, at least 38 characters per change; `BlocksAppend`, `BlocksLength` and `BlockInPrompt` characterize it |
| `Prompt.PromptText` | auto-commit.py:50-68 | header ++ blocks ++ closing, at least as long as header, closing and 38 characters per change; `PromptFrame`, `PromptLength` and `BlockInPrompt` characterize it |
| `Prompt.BuildPrompt` | auto-commit.py:46-69 | the prompt built by `+=` equals header ++ blocks of the changes in order ++ closing |
| `Prompt.BlocksAppend` | auto-commit.py:63-67 | the blocks of `a ++ b` are the blocks of `a` followed by those of `b` |
| `Prompt.PromptOfNoChanges` | auto-commit.py:50-68 | with no changes the prompt is exactly header ++ closing |
| `Prompt.PromptFrame` | auto-commit.py:50-68 | every prompt starts with the header and ends with the closing sentence |
| `Prompt.BlocksLength` | auto-commit.py:63-67 | the blocks are as long as the sum over changes of path, diff and content lengths plus 38 characters of labels and newlines |
| `Prompt.PromptLength` | auto-commit.py:50-68 | the prompt's length is the header's plus the sum above plus the closing's: nothing is truncated |
| `Prompt.BlockInPrompt` | auto-commit.py:63-66 | change i's block occurs verbatim in the prompt, right after the header and the blocks of changes 0..i-1 |
| `Messages.FallbackMessage` | auto-commit.py:96-104 | `generate_fallback_message`: every message starts with `"Update "`, and for counts other than one it is longer than `"Update "` plus `" files"`; `FallbackForOneChange`, `FallbackCountReadBack` and `FallbackDeterminedByCount` characterize it |
| `Messages.SelectMessage` | auto-commit.py:75-94 | the message is the generated text when the call succeeds and the fallback message when it fails |
| `Messages.FallbackForOneChange` | auto-commit.py:100-102 | exactly one change gives `"Update " + path` |
| `Messages.FallbackCountReadBack` | auto-commit.py:103-104 | any other count, including 0, gives `"Update " + d + " files"`, where d is the count in decimal: non-empty, digits only, starting with `0` only for zero (and then exactly `"0"`), and read back as the count |
| `Messages.FallbackForNoChanges` | auto-commit.py:103-104 | no changes give exactly `"Update 0 files"` |
| `Messages.FallbackForThreeChanges` | auto-commit.py:103-104 | three changes give exactly `"Update 3 files"` |
| `Messages.FallbackDeterminedByCount` | auto-commit.py:103-104 | for counts other than one, two change lists get the same fallback if and only if they have the same length |
| `Confirmation.Decide` | auto-commit.py:134-143 | `y`/`Y` accepts, `e`/`E` edits, and every other reply cancels; the three cases are exclusive and cover every reply |
| `Confirmation.LongOrEmptyRepliesCancel` | auto-commit.py:135-143 | the empty reply and every reply longer than one character (such as `" y"` or `"yes"`) cancel |
| `Confirmation.Act` | auto-commit.py:135-143 | Accept runs `git commit -m` with the message, Edit writes the message as a draft and runs `git commit -e`, Cancel does neither |
| `Confirmation.Conclude` | auto-commit.py:129-143 | the step after the reply: a `-m` commit or editor draft carries the selected message, and nothing happens exactly when `Decide` cancels; `CommitOnlyOnAccept` characterizes it |
| `Confirmation.CommitOnlyOnAccept` | auto-commit.py:129-143 | `git commit -m` runs if and only if the reply is `y` or `Y`, with exactly the generated text or, after a failed call, the fallback message; any reply other than y/Y/e/E leaves the repository untouched |

## Left out

- Subprocess calls (`git diff --cached --name-only`, `git diff --cached <path>`, `git commit -m`, `git commit -e`) are inputs or outcomes here. The listing is an `Option<string>`, the per-path diff a function to `Option<string>`, and the commit an `Outcome` value.
- Git failures other than a non-zero exit are not told apart. If git is missing, `check_output` raises `FileNotFoundError`; if its output does not decode, it raises `UnicodeDecodeError`. Only `CalledProcessError` is caught, so these end the program with a traceback rather than through `sys.exit(1)`. The model folds them into the same `None` as a git error exit.
- Reading the staged files is a function to `Option<string>`. The bare `except:` around the read becomes `None`, whatever the reason.
- `universal_newlines=True` turns `\r\n` and a lone `\r` into `\n` before the split. The model takes the listing after that translation.
- The remote service call, its model name, token limit and temperature are not modelled. The call is an `Option<string>`: `None` is any exception, which selects the fallback.
- The response object's type confusion is not modelled. `message.content` is returned where a string is expected, `commit_message[0].text` fails on the fallback string, and the edit path writes a non-string. The message is modelled as a string throughout.
- The API-key check, the "no changes staged" exit and the other `sys.exit` calls in `run` and `create_commit` are not modelled. The same goes for `input()`, the printed messages and the write of `.git/COMMIT_EDITMSG`.
- Confirmation.Decide: lower-cases ASCII letters only, whereas Python's `str.lower()` follows Unicode. The decision compares the lower-cased reply with `y` and `e`, so only non-ASCII characters whose lower case is `y` or `e` could behave differently.
- The commit made through the editor after `git commit -e` is not modelled. The model stops at `EditorOpened`, and whatever the user saves is outside it.
- Confirmation.Act: `EditorOpened(draft)` records what the script means to do: write the message to `.git/COMMIT_EDITMSG`, then run `git commit -e`. Going by git's documented behaviour, and not executed here, `git commit -e` without `-m` or `-F` prepares that file itself. The draft may therefore never reach the editor.
