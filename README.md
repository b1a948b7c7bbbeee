# Log analyser and contact-book bot, modelled in Dafny

This project models two small command-line programs and proves properties of
the models.

- **The log analyser** (`03_script_logger/03_script_logger.py`):
  - Each line of a log file has the form `<date> <time> <level> <message>` and is parsed into an entry.
  - Blank lines are skipped. The first malformed line aborts the whole load.
  - The entries are then either filtered by level (the query is upper-cased and compared with each entry's level as stored) and listed as `date time - message`,
  - or counted per level and shown as a two-column table whose level column is as wide as the longest label or the header.
- **The assistant bot** (`04_bot_cli/bot_cli.py`):
  - A command line is split into a lower-cased command and its arguments.
  - The handlers `add`, `change`, `phone` and `all` work on a name-to-phone dictionary. `add` and `change` update it in place.
  - A decorator turns `KeyError`, `IndexError` and `ValueError` into replies.
  - The `main` loop answers commands until `close` or `exit`.

Files:

- `wrappers.dfy` holds `Option`, `Result` and `Outcome`, which stand in for raised exceptions.
- `text.dfy` (module `Text`) holds the Python string builtins the two programs rely on:
  - `str.isspace` and the whitespace set used by `strip()` and `split()`;
  - `strip()`, `split()` and `split(maxsplit=n)`, including the rule that the last part keeps its inner whitespace;
  - `upper()` and `lower()`;
  - code-point order and `sorted()` over a set of strings;
  - the `<width` format, `str(int)`, `join` and `split(c)`.
- `script_logger.dfy` (module `ScriptLogger`) holds the log analyser.
- `bot_cli.dfy` (module `BotCli`) holds the bot.

Input and output are modelled as follows:

- **Reading the file:** replaced by a sequence of lines.
- **Each line:** taken as the file iterator yields it, with any line terminator. `strip()` removes the terminator.
- **Printing:** replaced by a sequence of output strings, one per `print` call. The newline that `print` adds is not included.
- **`input()`:** the bot's `input()` calls are replaced by a sequence of input lines.

The bot's dictionary is the field `contacts` of the class `ContactBook`. Its methods `AddContact` and `ChangeContact` update the field in place, just as the handlers do. Each method is proved against a pure function of the old book, `AddOutcome` or `ChangeOutcome`. `Run` is the `main` loop, proved against the function `Converse`, which describes a whole session.

The table width for an empty count map is the header's length. This follows `max(len(header), longest_level)` with `default=0`. Rows and the table header pad the label on the right: the code uses the `<` alignment, so labels are left-aligned.

## Model

| member | source | states |
|---|---|---|
| Text.TrimLeftRemovesSpace | 03_script_logger/03_script_logger.py:20 | The leading part `strip()` removes is all whitespace. What is left is a suffix of the line that starts with a non-space character (with `TrimLeft`). |
| Text.TrimRightRemovesSpace | 03_script_logger/03_script_logger.py:20 | The trailing part `strip()` removes is all whitespace. What is left is a prefix that ends with a non-space character (with `TrimRight`). |
| Text.StripEmptyIffAllSpace | 03_script_logger/03_script_logger.py:43 | `line.strip()` is empty exactly when every character of the line is whitespace. |
| Text.StripKeeps | 03_script_logger/03_script_logger.py:20 | Stripping a string that neither starts nor ends with whitespace returns it unchanged. |
| Text.SplitMaxShape | 03_script_logger/03_script_logger.py:20 | `split(maxsplit=n)` of a string with at most n words gives its words. With more words it gives the first n words, then the rest of the string from the start of word n+1. That rest follows whitespace, starts with a non-space character, and its words are the remaining words. |
| Text.WordsAreTokens | 04_bot_cli/bot_cli.py:48 | Every piece `split()` returns is non-empty and has no whitespace. |
| Text.WordsEmptyIffAllSpace | 04_bot_cli/bot_cli.py:48 | `split()` returns no pieces exactly when the string is all whitespace. |
| Text.WordsOfJoin | 04_bot_cli/bot_cli.py:48 | Splitting words that were joined by single spaces returns those words. |
| Text.WordsOfSpaced | 04_bot_cli/bot_cli.py:48 | `split()` takes the maximal runs of non-whitespace: tokens separated by any non-empty whitespace, with any whitespace before the first and after the last, split into exactly those tokens. |
| Text.Upper | 03_script_logger/03_script_logger.py:59 | `upper()` keeps the length, maps each character through the ASCII capitalisation, and leaves no lower-case ASCII letter. |
| Text.UpperIdempotent | 03_script_logger/03_script_logger.py:59 | Upper-casing an upper-cased string changes nothing. |
| Text.Lower | 04_bot_cli/bot_cli.py:49 | `lower()` keeps the length, maps each character through the ASCII lower-casing, and leaves no capital ASCII letter. |
| Text.LowerKeepsSpace | 04_bot_cli/bot_cli.py:49 | Lower-casing neither creates nor removes whitespace. |
| Text.SortedStrings | 03_script_logger/03_script_logger.py:90 | `sorted()` of a set of strings holds exactly its elements, once each, in strictly ascending code-point order. |
| Text.SortedUnique | 03_script_logger/03_script_logger.py:90 | Two strictly ascending sequences with the same elements are equal, so the sorted order is unique. |
| Text.LexLessTotal | 03_script_logger/03_script_logger.py:90 | Of two different strings, one is less than the other. With `LexLessIrreflexive`, `LexLessAsymmetric` and `LexLessTransitive` this makes the order strict and total. |
| Text.PadRight | 03_script_logger/03_script_logger.py:82 | The `<width` format has length max(width, len). It starts with the string and continues with spaces only. |
| Text.NatToString | 03_script_logger/03_script_logger.py:91 | `str(n)` is a non-empty string of decimal digits with no leading zero unless n is 0. |
| Text.NatToStringRoundTrip | 03_script_logger/03_script_logger.py:91 | Reading the decimal digits of `str(n)` back gives n. |
| Text.SplitOnJoin | 04_bot_cli/bot_cli.py:150-153 | Splitting at c a join with c of pieces that contain no c gives the pieces back. |
| ScriptLogger.ErrorText | 03_script_logger/03_script_logger.py:23 | The error text is `Invalid log format: ` followed by the unmodified raw line, so the line can be read back from it. |
| ScriptLogger.ParseLogLineSpec | 03_script_logger/03_script_logger.py:20-32 | A line is rejected exactly when its stripped form has fewer than four words, and the error carries the raw line. Otherwise date, time and level are the first three words. |
| ScriptLogger.ParseLogLineFields | 03_script_logger/03_script_logger.py:20-32 | All four fields of a parsed entry are non-empty, and date, time and level hold no whitespace. The message is the stripped line from some point after whitespace to its end, with its inner whitespace kept. Its words are the words after the third, and it neither starts nor ends with whitespace. |
| ScriptLogger.ParseFormatEntry | 03_script_logger/03_script_logger.py:20-32 | Parsing `date time level message` built from a well-formed entry gives the entry back. |
| ScriptLogger.BlankIffStripEmpty | 03_script_logger/03_script_logger.py:43 | A line is skipped exactly when it is falsy after `strip()`. |
| ScriptLogger.NonBlank | 03_script_logger/03_script_logger.py:43 | The kept lines are not blank and are no more than the input lines. |
| ScriptLogger.NonBlankMembers | 03_script_logger/03_script_logger.py:42-43 | A line is kept exactly when it is one of the input lines and is not blank. |
| ScriptLogger.NonBlankAppend | 03_script_logger/03_script_logger.py:42-43 | Dropping blank lines works piece by piece, so the kept lines stay in file order. |
| ScriptLogger.ReadLine | 03_script_logger/03_script_logger.py:41-43 | A line is skipped exactly when it is blank and rejected exactly when it is non-blank but malformed. A rejection carries that line's error, and a parsed line's entry is its parse. |
| ScriptLogger.CollectAppend | 03_script_logger/03_script_logger.py:40-44 | Over outcomes that contain no rejection, collecting a concatenation concatenates the results, or gives the later part's first error. |
| ScriptLogger.LoadLogsSucceeds | 03_script_logger/03_script_logger.py:40-44 | The load succeeds exactly when no line is malformed. Blank lines never make it fail. |
| ScriptLogger.LoadLogsEntries | 03_script_logger/03_script_logger.py:40-44 | On success there is one entry per non-blank line, and entry i is the parse of the i-th non-blank line. |
| ScriptLogger.LoadLogsFirstError | 03_script_logger/03_script_logger.py:40-44 | On failure the error is that of the first malformed line, and no line before it is malformed. |
| ScriptLogger.LoadLogsAborts | 03_script_logger/03_script_logger.py:40-44 | A malformed line after loadable lines fails the whole load with its own error, whatever follows it. No partial list is returned. |
| ScriptLogger.WithLevelMembers | 03_script_logger/03_script_logger.py:60 | An entry is kept exactly when it is among the entries and has the requested level. |
| ScriptLogger.FilterLogsByLevel | 03_script_logger/03_script_logger.py:59-60 | Every kept entry has the upper-cased query as its level. An entry is kept exactly when it is in the input with that level, so no match gives an empty list. |
| ScriptLogger.FilterLogsByLevelParts | 03_script_logger/03_script_logger.py:59-60 | Filtering a concatenation concatenates the filtered parts. A single entry is kept exactly when its level equals the upper-cased query. Together these fix the result as the order-preserving subsequence of matches. |
| ScriptLogger.FilterIgnoresCase | 03_script_logger/03_script_logger.py:59 | Filtering with a query or with its upper-cased form gives the same list. |
| ScriptLogger.LevelsPresent | 03_script_logger/03_script_logger.py:68 | A level is among the counted levels exactly when some entry has it. |
| ScriptLogger.CountLogsByLevel | 03_script_logger/03_script_logger.py:68 | The keys are exactly the levels present. Each count is the number of entries with that level, so it is at least 1, and an empty list gives an empty map. |
| ScriptLogger.CountsSumToTotal | 03_script_logger/03_script_logger.py:68 | The counts, added up in the order the table lists them, equal the number of entries. |
| ScriptLogger.CalculateLevelWidth | 03_script_logger/03_script_logger.py:74-75 | The width is at least the header's length and at least every level's length. It equals one of them, and it is the header's length when there are no counts. |
| ScriptLogger.TableHeader | 03_script_logger/03_script_logger.py:82-83 | The header line starts with the level header, is padded with spaces to the width, and ends with the count header. The rule is dashes except for a bar; when the header fits the width, both lines have the same length, the header line has ` | ` starting at the width, and the rule has its bar at column width+1, under the header's. |
| ScriptLogger.TableRowLayout | 03_script_logger/03_script_logger.py:91 | A row is the level, then spaces to the width, then a space, a bar and a space starting at the width, then decimal digits that read back as the count, with no leading zero. |
| ScriptLogger.PrintTableRows | 03_script_logger/03_script_logger.py:90-91 | One row per level, ascending by level, each row built from that level's count. |
| ScriptLogger.DisplayLogCounts | 03_script_logger/03_script_logger.py:97-103 | The two header lines at the computed width, then the rows at the same width, one per level. |
| ScriptLogger.CountTableAligned | 03_script_logger/03_script_logger.py:82-91 | The header line, the rule and every row have their bar in the same column. |
| ScriptLogger.DetailLineWords | 03_script_logger/03_script_logger.py:117 | The words of a listed line are the date, the time, a dash and the message's words. |
| ScriptLogger.DisplayFilteredLogs | 03_script_logger/03_script_logger.py:109-117 | An empty list prints only the notice naming the upper-cased level. Otherwise it prints the heading and then one `date time - message` line per entry, in input order. |
| BotCli.ErrorReply | 04_bot_cli/bot_cli.py:16-25 | A caught failure always yields a non-empty reply. `KeyError` yields `Contact not found.` and `IndexError` yields `Enter the required arguments for this command.`. A `ValueError` with a message yields that message; one without a message yields `Invalid input.`. |
| BotCli.ParseInput | 04_bot_cli/bot_cli.py:48-50 | There is no result, meaning the uncaught unpacking failure, exactly when the line is all whitespace. Otherwise the command is the first word, lower-cased, and the arguments are the remaining words in order. All of them are non-empty and whitespace-free. |
| BotCli.ParseInputOfJoin | 04_bot_cli/bot_cli.py:48-50 | Words typed with single spaces come back as the lower-cased first word and the other words in order. |
| BotCli.ValidatePhone | 04_bot_cli/bot_cli.py:53-61 | A phone passes exactly when it is ten decimal digits. The "only digits" error is reported exactly when the phone is empty or has a non-digit. The "10 digits" error is reported exactly when it is all digits with another length. |
| BotCli.AddOutcome | 04_bot_cli/bot_cli.py:64-84 | A wrong argument count gives the usage error. With two arguments the add succeeds exactly when the phone is valid, and then binds the name to the phone, overwriting any old phone, and changes nothing else. An invalid phone fails with the error `validate_phone` gives for it. Any failure leaves the book as it was and is a `ValueError` with a message. |
| BotCli.ChangeOutcome | 04_bot_cli/bot_cli.py:87-110 | A wrong argument count gives the usage error. An unknown name gives `KeyError` before the phone is checked. For a known name the change succeeds exactly when the phone is valid; it rebinds only that name and keeps the keys and the size, and an invalid phone fails with the error `validate_phone` gives for it. Any failure leaves the book as it was. |
| BotCli.ShowPhone | 04_bot_cli/bot_cli.py:113-130 | A wrong argument count gives `Enter user name.` and an unknown name gives `KeyError`. Otherwise it returns `name: phone`. It cannot change the book. |
| BotCli.AddThenShowPhone | 04_bot_cli/bot_cli.py:83-130 | After a successful add, `phone` shows the phone just added. |
| BotCli.ChangeThenShowPhone | 04_bot_cli/bot_cli.py:109-130 | After a successful change, `phone` shows the new phone for that name and the old answer for every other name. |
| BotCli.ContactLines | 04_bot_cli/bot_cli.py:150-153 | One `name: phone` line per contact, ordered by name. |
| BotCli.ShowAll | 04_bot_cli/bot_cli.py:147-148 | An empty book gives `No contacts found.`. |
| BotCli.ShowAllLines | 04_bot_cli/bot_cli.py:150-153 | A non-empty listing, split at newlines, has one line per contact. The lines are in strictly ascending order of name, and each holds that name's phone. |
| BotCli.ValidBookHasNoNewlines | 04_bot_cli/bot_cli.py:48-61 | Names that came from `split()` and validated phones contain no newline, so `ShowAllLines` applies to every book the bot can build. |
| BotCli.AddKeepsValid | 04_bot_cli/bot_cli.py:78-84 | Adding a parsed name with its phone keeps every stored name a single word and every stored phone ten digits. |
| BotCli.ChangeKeepsValid | 04_bot_cli/bot_cli.py:100-110 | Changing a contact keeps every stored phone ten digits. |
| BotCli.Classify | 04_bot_cli/bot_cli.py:184-204 | A command is an exit word exactly when it is `close` or `exit`. Each key of the `commands` table (`hello`, `add`, `change`, `phone`, `all`, `help`) selects its own handler and only that key does. It is unknown exactly when it is neither an exit word nor a key of the table. |
| BotCli.Respond | 04_bot_cli/bot_cli.py:185-208 | Every handled command prints something. Only `add` and `change` can change the book, and they change it as their handlers do. `hello` replies `How can I help you?`. `add`, `change` and `phone` print the reply of their handler (the error text for a failure), `all` prints the listing and `help` prints the help text. A command outside the table prints the invalid-command notice and the help. |
| BotCli.Step | 04_bot_cli/bot_cli.py:196-208 | One loop pass ends the program with the uncaught unpacking failure exactly when the line is all whitespace. It leaves the loop exactly when the first word, lower-cased, is `close` or `exit`. Any other pass answers as `Respond` does for the parsed command and arguments. |
| BotCli.StepKeepsValid | 04_bot_cli/bot_cli.py:196-208 | A loop pass keeps a valid book valid. |
| BotCli.ConverseAt | 04_bot_cli/bot_cli.py:196-208 | A session from input line i is the crash, the good-bye, or this line's response followed by the session from line i+1. |
| BotCli.ConverseStops | 04_bot_cli/bot_cli.py:200-202 | Once the loop has ended by `close`/`exit` or the crash, later input changes neither the output nor the book. |
| BotCli.ConverseKeepsValid | 04_bot_cli/bot_cli.py:182-208 | From an empty or otherwise valid book, every session leaves a valid book. |
| BotCli.ContactBook.constructor | 04_bot_cli/bot_cli.py:182 | The book starts empty. |
| BotCli.ContactBook.AddContact | 04_bot_cli/bot_cli.py:78-84 | The reply and the updated field are those of `AddOutcome` on the old book. |
| BotCli.ContactBook.ChangeContact | 04_bot_cli/bot_cli.py:100-110 | The reply and the updated field are those of `ChangeOutcome` on the old book. |
| BotCli.ContactBook.Dispatch | 04_bot_cli/bot_cli.py:184-208 | The printed lines and the new book are those of `Respond` on the old book. |
| BotCli.ContactBook.Run | 04_bot_cli/bot_cli.py:175-208 | The welcome and the help come first, then exactly what `Converse` prints for the inputs. The final book and the way the session ended are those of `Converse`. |

## Left out

- Opening the file, its encoding, and the re-raised `FileNotFoundError`, `PermissionError` and `OSError` are left out (03_script_logger/03_script_logger.py:38-39, 46-53). They are I/O; `LoadLogs` takes the lines the file would yield.
- The log analyser's `main` is left out (03_script_logger/03_script_logger.py:119-143). It handles `sys.argv`, the usage text and the exit codes, and it chooses between filter mode and count mode.
- The second `return` in `filter_logs_by_level` (03_script_logger/03_script_logger.py:62) is unreachable and is not modelled.
- `collections.Counter` is replaced by a `map<string, nat>` built by recursion.
- `upper()`, `lower()` and `isdigit()` only act on ASCII. The model does not capture Unicode case mappings, such as `ß` upper-casing to `SS`, or non-ASCII digits that `isdigit()` accepts.
- The whitespace set used by `strip()`, `split()` and `isspace()` is written out explicitly.
- The prompt `Enter a command: ` that `input()` writes is not part of the printed sequence.
- End of input ends a session as `InputEnded`. Python would raise an uncaught `EOFError` there; the console behaviour after that (traceback, `KeyboardInterrupt`) is not modelled.
- The uncaught `ValueError` raised by `parse_input` for an empty line is modelled as the session ending in `Crashed`. The traceback text is not modelled.
- The file `02_generator_numbers.py` is not part of this model. It works on floating point through a regular-expression engine.
- BotCli.ShowAll: its contract states only the empty-book case. The line structure of a non-empty listing is stated by `ShowAllLines`, under the condition that no name or phone contains a newline. `ValidBookHasNoNewlines` shows every reachable book meets that condition.
- BotCli.ChangeKeepsValid: it states that validity is kept, not which entry changes; `ChangeOutcome` states that.
- `sorted(contacts.items())` orders pairs by name first. Names are unique keys, so the model orders by name alone.
- The `IndexError` branch of the decorator and its `Invalid input.` fallback are modelled in `ErrorReply`. No handler reaches either: `AddOutcome` and `ChangeOutcome` state that their failures are never an `IndexError`, because the argument count is checked before unpacking.
