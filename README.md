# PerfectworkBot task core in Dafny

PerfectworkBot is a Telegram bot that keeps a per-user to-do list by date.
`/add <text with a DD.MM.YYYY date>` stores a task under that date.
`/show DD.MM.YYYY` lists the tasks stored for that date.
This project models the logic of the two handlers without the chat
transport. It covers:

- finding the date in the text;
- cleaning up the task text;
- the calendar check;
- the ISO storage key;
- the nested in-memory store `user -> YYYY-MM-DD -> tasks`;
- the numbered listing.

Each handler returns an outcome value instead of sending a reply.

Modules, one per file:

- `TextOps` (`text.dfy`) covers Python's `str.strip()`, the leading and trailing `[\s\-]+` clean-up, `str.replace(x, '')`, and decimal digits and numbers.
- `Calendar` (`calendar.dfy`) covers the proleptic Gregorian calendar as `datetime.date` accepts it.
- `DateToken` (`date_token.dfy`) covers:
  - the `\d{2}\.\d{2}\.\d{4}` search;
  - `strptime('%d.%m.%Y')`;
  - `strftime('%Y-%m-%d')` and its inverse.
- `Commands` (`commands.dfy`) holds the decisions of `/add` and `/show` before the store is touched. They are checked in the handlers' order, and the first failing check decides the outcome.
- `Store` (`store.dfy`) covers:
  - the class `TaskStore` with the nested map as its field;
  - `AddTask`, which updates the map in place, and `Show`, which only reads it;
  - the loop that renders the listing.
- `Options` (`option.dfy`) is the `Option` datatype.

In a few places the code does something that a reader of it, or of the
`/help` text, might not expect. The model follows the code:

- **Every copy of the date is deleted.** The task text comes from deleting every occurrence of the matched date, not only the first match.
- **The task check comes first.** The empty-task check runs before the calendar check, so a bare `31.02.2026` is answered with "task missing".
- **`/show` takes its whole argument.** It takes everything after the command word, stripped, and that text must be exactly one date token. Two words are rejected as an invalid date format, not as "too many arguments".
- **`/show` gives one reply to two failures.** A text that is not a token and a token that is not a real date both get the same "invalid date format" reply. They are one outcome, `BadDate`.

## Model

| member | source | states |
|---|---|---|
| TextOps.TrimStart | PerfectworkBot.py:67 | every character dropped from the front satisfies `drop`, and the result does not start with one that does |
| TextOps.TrimStartSuffix | PerfectworkBot.py:67 | the start-trim is a suffix of the text |
| TextOps.TrimEnd | PerfectworkBot.py:67 | every character dropped from the back satisfies `drop`, and the result does not end with one that does |
| TextOps.TrimEndPrefix | PerfectworkBot.py:67 | the end-trim is a prefix of the text |
| TextOps.Trim | PerfectworkBot.py:67 | `str.strip()`: the result neither starts nor ends with whitespace |
| TextOps.Strip | PerfectworkBot.py:84-87 | the result is no longer than the input and neither starts nor ends with a dropped character |
| TextOps.StripInside | PerfectworkBot.py:84-87 | the stripped text is the piece of the input at `StripOffset`, with only dropped characters before and after it |
| TextOps.TrimThenStripInside | PerfectworkBot.py:84-87 | `strip()` followed by the `[\s\-]` clean-up cuts the text only at its two ends, and only of whitespace and hyphens |
| TextOps.StripEmpty | PerfectworkBot.py:69-71 | stripping gives the empty text exactly when every character is dropped |
| TextOps.StripIdempotent | PerfectworkBot.py:84-87 | stripping twice is the same as stripping once |
| TextOps.StripUnchanged | PerfectworkBot.py:84-87 | a text with kept characters at both ends is left as it is |
| TextOps.TrimStartDroppedPrefix | PerfectworkBot.py:121 | a prefix made only of dropped characters does not change the start-trim |
| TextOps.StripDroppedAfter | PerfectworkBot.py:84 | a dropped character after a text with kept ends is stripped away |
| TextOps.StripDroppedBefore | PerfectworkBot.py:84 | a dropped character before a text with kept ends is stripped away |
| TextOps.StripDroppedAround | PerfectworkBot.py:84 | dropped characters on both sides are stripped away |
| TextOps.RemoveAll | PerfectworkBot.py:84 | `str.replace(pat, '')` scanning from the left: never longer than the input |
| TextOps.RemoveAllAbsent | PerfectworkBot.py:84 | where `pat` does not occur, deleting it changes nothing |
| TextOps.RemoveAllAfterPrefix | PerfectworkBot.py:84 | a prefix in which `pat` starts nowhere is kept verbatim, and the deletion goes on after it |
| TextOps.RemoveAllIsConcatOfSplit | PerfectworkBot.py:84 | deleting every occurrence equals splitting at `pat` and concatenating the pieces |
| TextOps.JoinSplit | PerfectworkBot.py:84 | joining the pieces with `pat` gives the original text back |
| TextOps.SplitHeadLeftmost | PerfectworkBot.py:84 | the first piece ends at the leftmost occurrence of `pat`: none starts inside it, and one starts right after it when there are more pieces. Applied piece by piece, this fixes the leftmost non-overlapping cut that `str.replace` makes when copies overlap |
| TextOps.SplitHeadIsPrefix | PerfectworkBot.py:84 | the first piece is a prefix of the text |
| TextOps.SplitPiecesFree | PerfectworkBot.py:84 | no piece contains `pat` |
| TextOps.NatToString | PerfectworkBot.py:141 | the decimal numeral `str(i)`: non-empty, all digits, no leading zero |
| TextOps.NatToStringValue | PerfectworkBot.py:141 | reading the numeral back gives the number |
| TextOps.Pad | PerfectworkBot.py:94 | zero-padding to width `w` gives exactly `w` digits |
| TextOps.PadValue | PerfectworkBot.py:94 | a padded numeral reads back as its number |
| TextOps.ValuePad | PerfectworkBot.py:94 | padding the value of a digit string to its own width gives the same string |
| TextOps.DecimalValueBound | PerfectworkBot.py:94 | `k` digits denote a number below `10^k` |
| Calendar.IsLeapYear | PerfectworkBot.py:94 | the Gregorian rule: divisible by 4, and a century year only when it is divisible by 400 |
| Calendar.IsValidDate | PerfectworkBot.py:94 | what `datetime.date(year, month, day)` accepts: year 1 to 9999, month 1 to 12, day 1 to the month's length |
| Calendar.DaysInMonth | PerfectworkBot.py:94 | 28 to 31 days; February has 29 days exactly in leap years; other months have at least 30 |
| Calendar.YearLength | PerfectworkBot.py:94 | the month lengths add up to 366 days in leap years and 365 otherwise |
| DateToken.IsToken | PerfectworkBot.py:74 | the text matches `\d{2}\.\d{2}\.\d{4}` in full: ten characters, digits except dots at indexes 2 and 5 |
| DateToken.FindTokenFrom | PerfectworkBot.py:74-75 | the first token at or after `from`, or none from there on |
| DateToken.FindToken | PerfectworkBot.py:74-79 | `re.search`: the leftmost token, with none before it; none exactly when no index starts a token |
| DateToken.Strptime | PerfectworkBot.py:94 | succeeds exactly when year is at least 1, month is 1 to 12 and day is 1 to the month's length; the date carries the token's own numbers |
| DateToken.FormatIso | PerfectworkBot.py:94 | `strftime('%Y-%m-%d')` gives the `YYYY-MM-DD` shape |
| DateToken.IsoRoundTrip | PerfectworkBot.py:94 | reading an ISO key back gives the date it was made from |
| DateToken.IsoKeyOfToken | PerfectworkBot.py:94 | the key of an accepted `DD.MM.YYYY` is `YYYY-MM-DD` written with the same digits |
| DateToken.IsoKeyInjective | PerfectworkBot.py:94 | two accepted tokens get the same key exactly when they are the same text |
| DateToken.NoSpaceInToken | PerfectworkBot.py:129 | a text containing whitespace is not a token |
| DateToken.RejectsThirtyFirstOfFebruary | PerfectworkBot.py:94 | `31.02.2026` is rejected |
| DateToken.RejectsOutOfRangeFields | PerfectworkBot.py:94 | `00.01.2026` and `01.13.2026` are rejected |
| DateToken.RejectsYearZero | PerfectworkBot.py:94 | `01.01.0000` is rejected |
| DateToken.RejectsLeapDayOf2100 | PerfectworkBot.py:94 | `29.02.2100` is rejected: 2100 is not a leap year |
| DateToken.AcceptsLeapDayOf2000 | PerfectworkBot.py:94 | `29.02.2000` is accepted as 29 February 2000 |
| Commands.CleanTask | PerfectworkBot.py:84-87 | the cleaned task text neither starts nor ends with whitespace or `-` |
| Commands.CleanTaskInside | PerfectworkBot.py:84-87 | the task text is the date-deleted text cut only at its two ends, and only of whitespace and `-` |
| Commands.PlanAddText | PerfectworkBot.py:74-94 | "date missing" exactly when no token occurs. "Task missing" exactly when a token is found and the cleaned text is empty, whatever the date. "Invalid date" exactly when a token is found, the cleaned text is not empty and the date is not real. Accepted exactly when a token is found, the cleaned text is not empty and the date is real; it then carries the leftmost token as date text, the cleaned text as task and the key `YYYY-MM-DD` from the token's digits |
| Commands.PlanAdd | PerfectworkBot.py:67-94 | "specify task and date" exactly when the trimmed argument is empty; otherwise the date checks on the trimmed text decide |
| Commands.DateAloneIsTaskMissing | PerfectworkBot.py:84-91 | an argument that is only a date, real or not, gives "task missing" |
| Commands.TokenText | PerfectworkBot.py:81 | `match.group(1)`: the leftmost match is a token |
| Commands.TaskThenDate | PerfectworkBot.py:67-94 | a clean date-free task text, then a space, then a real date, is accepted with that text, that date and its ISO key |
| Commands.DateThenTask | PerfectworkBot.py:67-94 | a real date, then a space, then a clean date-free task text, is accepted the same way |
| Commands.RepeatedDateRemovedEverywhere | PerfectworkBot.py:84 | a date written both before and after the task text is deleted at both places, leaving just the task text |
| Commands.TaskThenDateFound | PerfectworkBot.py:74-75 | in `task + " " + date`, the date found is the one after the task text |
| Commands.TaskThenDateRemoved | PerfectworkBot.py:84 | deleting the date from `task + " " + date` leaves `task + " "` |
| Commands.DateThenTaskScan | PerfectworkBot.py:74-84 | in `date + " " + task` the date is found at the front, and deleting it leaves `" " + task` |
| Commands.RepeatedDateScan | PerfectworkBot.py:74-84 | in `date + " " + task + " " + date` the first copy is found, and deleting removes both copies |
| Commands.ShowArgument | PerfectworkBot.py:121-126 | `split(maxsplit=1)[1].strip()` neither starts nor ends with whitespace |
| Commands.ShowArgumentOfCommand | PerfectworkBot.py:121-126 | after a command word without whitespace and one space, the argument is the rest with its surrounding whitespace removed |
| Commands.PlanShow | PerfectworkBot.py:121-133 | "specify a date" exactly when the argument is empty. A lookup happens exactly when the whole argument is one token naming a real date; its key is `YYYY-MM-DD` from the token's digits. Every other argument gets "invalid date format" |
| Commands.ShowRejectsExtraText | PerfectworkBot.py:126-131 | an argument with whitespace inside it, for example two words, is rejected |
| Commands.ShowOfValidToken | PerfectworkBot.py:121-133 | `/show` followed by a real date looks the date up under its ISO key |
| Commands.ShowOfImpossibleToken | PerfectworkBot.py:129-133 | `/show` followed by a well-formed but impossible date gets "invalid date format" |
| Commands.PlanShowOfArgument | PerfectworkBot.py:129-133 | an argument that is a real date is looked up under its ISO key |
| Store.Get | PerfectworkBot.py:137-138 | the stored list, or nothing when the user or the date is absent; a non-empty answer comes only from a stored list |
| Store.Appended | PerfectworkBot.py:100-105 | the user and the date are present afterwards, and their list ends with the new task |
| Store.AppendedLists | PerfectworkBot.py:100-105 | the target list is the old one, or the empty list, with the task appended at the end; every other user and date keeps its list; only that user and that date can appear as new keys |
| Store.AppendedWellFormed | PerfectworkBot.py:100-105 | appending a clean task under an ISO key keeps every key an ISO key of a real date and every list non-empty and clean |
| Store.RenderIsLines | PerfectworkBot.py:140-141 | the listing is its lines one after another; line `i` is `i. task_i`, numbered from 1 in stored order |
| Store.Line | PerfectworkBot.py:141 | `f"{i}. {task}\n"`: at least four characters longer than the task, ending in a newline |
| Store.LineNumber | PerfectworkBot.py:141 | each line starts with its number in decimal, then `. `, then the task and a newline |
| Store.ListingAfterAppend | PerfectworkBot.py:100-105 | after an add, the listing for that user and date is the old listing plus one line with the next number and the new task |
| Store.RenderListing | PerfectworkBot.py:139-141 | the `for` loop with `+=` builds exactly the concatenated numbered lines |
| Store.TaskStore.constructor | PerfectworkBot.py:28-40 | the store starts empty and well formed |
| Store.TaskStore.Append | PerfectworkBot.py:100-105 | the three in-place steps: create the user's map, create the date's list, append. The new map is `Appended` of the old |
| Store.TaskStore.AddTask | PerfectworkBot.py:63-111 | An accepted request appends the task under its key and replies with the task and the date as written. Every error leaves the store as it was. The store stays well formed |
| Store.TaskStore.Show | PerfectworkBot.py:117-147 | Changes nothing. Asks for a date, or rejects the format, as `PlanShow` decides. Reports "no tasks" when the user or the date is absent; otherwise replies with the numbered listing of the stored list. In a well-formed store, "no tasks" is the reply exactly when nothing is stored for that user and date |
| Store.NoTasksIffEmpty | PerfectworkBot.py:137-144 | in a well-formed store, "no tasks" is answered exactly when nothing is stored for that user and date |

## Left out

- The Telegram transport is not modelled: the `telebot` library, `reply_to`, the handler decorators and polling. Each handler returns an outcome value instead of a reply.
- Loading the token from the environment, and exiting when it is missing, are configuration I/O and are not modelled.
- JSON persistence (`load_tasks` and `save_tasks`) is file I/O. The store starts empty, and saving after an add is not modelled.
- The exact reply texts, their Markdown and emoji, and the listing's header line are left out. Outcomes carry the task text, the date as written and the listing body, so the header is determined by the date text.
- The `/help` handler replies with a fixed text and is not modelled.
- Slicing the `/add ` prefix off with `message.text[5:]` is not modelled. `Commands.PlanAdd` takes the text after the command as its input.
- The catch-all `except Exception` with its `print` is not modelled. None of the modelled steps raises anything other than the `ValueError` of `strptime`.
- `\d` and `str.strip()` also accept non-ASCII digits and whitespace in Python. The model accepts ASCII digits and ASCII whitespace only.
- DateToken.FormatIso: writes every year with four digits. For years below 1000, the output of `strftime('%Y')` depends on the platform.
- Store.TaskStore.AddTask: user ids are plain strings. Deriving them from the Telegram user is not modelled.
