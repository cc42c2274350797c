# deepseek-sql console: verified model

The natural-language-to-SQL console `deepseek-sql/demo.py` reads a question
from the terminal and sends it to a chat-completion API. It cleans up the
model's reply into one SQL statement and runs that statement against MySQL.
Finally it prints the result as an aligned text table. This project models
the four parts of that pipeline that are logic rather than plumbing, in Dafny,
and proves what they do:

- `Sanitizer` (`sanitize.dfy`): the clean-up of the reply in `generate_sql`.
  It strips the reply, drops a leading "```sql" and/or "```" fence and a
  trailing "```" fence, and drops every line that holds `--` or `YOUR_`. Then
  it rejoins the lines and strips again. It is modelled as the pure function
  `Sanitize`.
- `Executor` (`executor.dfy`): the two decisions `execute_query` makes. One is
  whether a statement is a read (`IsSelect`); the other is which rows a read
  keeps (the last five, `LastRows`).
- `Display` (`display.dfy`): `display_results`, as methods with the source's
  loops that return the printed lines. They are proved equal to the pure
  specification `Render`, and the layout properties are proved about
  `Render`.
- `Session` (`session.dfy`): the `while True` input loop of `main`. It is the
  method `RunConsole` over a sequence of input lines, proved equal to
  `Questions`, which is built from the three-way classification `Dispatch`.
- `Text` (`text.dfy`): the Python string operations these parts use:
  - `strip()`, with the whitespace set of `str.isspace`;
  - `lower()`/`upper()`, `startswith`/`endswith` and `in`;
  - `split('\n')` and `join`;
  - `ljust` and `"-" * n`.

Cells of a result are taken as the strings `str()` makes of them. A result
is either `Table(columns, rows)` (a read) or `Status(message)` (a write or
a database error, where `columns` is `None` in the source).

The fence removal is three ordered tests. Only the lower-case `sql` tag is
recognised: "```SQL" loses its backticks and keeps `SQL` as a first line
(`Sanitizer.SanitizeUpperCaseTag`). Sanitizing is not idempotent, because a
doubled fence loses only one layer (`Sanitizer.DoubleFenceLosesOneLayer`).

A "line" of the printed table is one argument of `print()`. A cell whose
`str()` holds a newline makes that argument span several terminal lines, so
"all lines of a table have the same length" is a statement about the
arguments of `print()`, not about what the terminal shows.

## Model

| member | source | states |
|---|---|---|
| Sanitizer.IsNoise | deepseek-sql/demo.py:97 | a dropped line holds a `-` or a `Y`; any line with two adjacent hyphens is dropped |
| Sanitizer.NoiseMarkers | deepseek-sql/demo.py:97 | a line holding `--` or `YOUR_` holds its first letter, and two adjacent hyphens anywhere are an occurrence of `--` |
| Sanitizer.CleanLines | deepseek-sql/demo.py:96-97 | no kept line holds `--` or `YOUR_` |
| Sanitizer.CleanLinesKeepsOrder | deepseek-sql/demo.py:96-97 | the kept lines are a subsequence of the input lines, in their original relative order |
| Sanitizer.CleanLinesKeepsEveryCleanLine | deepseek-sql/demo.py:96-97 | each line that is not noise survives as many times as it occurs; each noise line survives zero times |
| Sanitizer.CleanLinesOfCleanText | deepseek-sql/demo.py:96-97 | when no line is noise, the filter returns the lines unchanged |
| Sanitizer.SanitizePlainReply | deepseek-sql/demo.py:87-98 | a reply with no fence at either end and no noise line sanitizes to its stripped self |
| Sanitizer.Unfence | deepseek-sql/demo.py:89-94 | a text with no fence at either end is unchanged; otherwise what remains is a contiguous part of it, at most twelve characters shorter |
| Sanitizer.DropPrefix | deepseek-sql/demo.py:89-92 | a guarded `s[len(p):]` returns a suffix of `s` at most `len(p)` shorter |
| Sanitizer.DropSuffix | deepseek-sql/demo.py:93-94 | a guarded `s[:-3]` returns a prefix of `s` at most three shorter |
| Sanitizer.Sanitize | deepseek-sql/demo.py:87-98 | the sanitized SQL has no leading or trailing whitespace and contains neither `--` nor `YOUR_` anywhere, so no line of it does |
| Sanitizer.StripJoinClean | deepseek-sql/demo.py:97-98 | joining lines that are not noise with "\n" and stripping creates no `--` or `YOUR_`, since neither marker holds a newline |
| Sanitizer.FencedReplyIsStripped | deepseek-sql/demo.py:87 | a fenced reply starts and ends with a backtick, so the first strip leaves it whole |
| Sanitizer.LeadingFence | deepseek-sql/demo.py:89-92 | the two leading-fence tests remove "```", plus the tag's first three letters exactly when the tag starts with lower-case `sql` |
| Sanitizer.SqlTagDropped | deepseek-sql/demo.py:89-92 | after "```sql" is removed, the second test does not fire again unless a backtick follows |
| Sanitizer.OtherTagKept | deepseek-sql/demo.py:89-92 | any other tag, including upper-case `SQL`, stays in the text and only the backticks go |
| Sanitizer.UnfenceFenced | deepseek-sql/demo.py:89-94 | on a fenced reply the three fence tests leave the tag's rest, a newline, the body and a newline |
| Sanitizer.FencedLines | deepseek-sql/demo.py:96 | those lines are the tag's rest, the body's lines and an empty last line, and none of them is noise |
| Sanitizer.SanitizeFenced | deepseek-sql/demo.py:87-98 | a fenced reply of clean lines sanitizes to the tag's rest and the lines, joined and stripped |
| Sanitizer.SanitizeSqlFenced | deepseek-sql/demo.py:87-98 | "```sql\n" + q + "\n```" sanitizes to exactly q for any clean, stripped one-line q |
| Sanitizer.SanitizeOneLine | deepseek-sql/demo.py:87-98 | a clean, stripped one-line q fenced under a tag the fence tests remove entirely sanitizes to exactly q |
| Sanitizer.SanitizeSelectOne | deepseek-sql/demo.py:87-98 | "```sql\nSELECT 1;\n```" sanitizes to exactly "SELECT 1;" |
| Sanitizer.SanitizeOtherTag | deepseek-sql/demo.py:89-98 | "```" + tag + "\n" + q + "\n```" with a tag not starting with `sql` sanitizes to tag + "\n" + q |
| Sanitizer.SanitizeUpperCaseTag | deepseek-sql/demo.py:89-98 | "```SQL\n" + q + "\n```" sanitizes to "SQL\n" + q: the upper-case tag is not recognised |
| Sanitizer.DoubleFenceLosesOneLayer | deepseek-sql/demo.py:87-98 | "``````sql\n" + q + "\n``````" sanitizes to "```sql\n" + q + "\n```", which sanitizes again to q, so sanitizing is not idempotent |
| Text.Strip | deepseek-sql/demo.py:87 | `strip()` is no longer than its input and neither begins nor ends with whitespace |
| Text.TrimBothEnds | deepseek-sql/demo.py:87 | trimming the left and then the right end leaves no whitespace at either end |
| Text.StripSpan | deepseek-sql/demo.py:87 | `strip()` returns the middle slice between a whitespace-only prefix and suffix, and that slice begins and ends with non-whitespace |
| Text.StripUnique | deepseek-sql/demo.py:98 | any split into whitespace, a middle not starting or ending in whitespace, and whitespace gives that middle as the strip |
| Text.StripIdempotent | deepseek-sql/demo.py:98 | stripping twice is the same as stripping once |
| Text.StripPadded | deepseek-sql/demo.py:227 | whitespace added around a text does not change its strip |
| Text.Lower | deepseek-sql/demo.py:141-143 | `lower()` keeps the length, changes only upper-case letters, each to its lower-case letter, and leaves no upper-case letter |
| Text.Upper | deepseek-sql/demo.py:111 | `upper()` keeps the length, changes only lower-case letters, each to its upper-case letter, and leaves no lower-case letter |
| Text.OccursShift | deepseek-sql/demo.py:97 | an occurrence at position 0 is a prefix match, and occurrences in the tail are those of the text shifted by one |
| Text.Contains | deepseek-sql/demo.py:97 | `pat in s` holds exactly when `pat` occurs in `s` at some position |
| Text.JoinSplit | deepseek-sql/demo.py:96-98 | joining the pieces of `split('\n')` with "\n" gives back the text |
| Text.SplitJoin | deepseek-sql/demo.py:96-98 | splitting a join of separator-free parts gives back the parts |
| Text.Split | deepseek-sql/demo.py:96 | `split` returns at least one piece and no piece holds the separator |
| Text.JoinLength | deepseek-sql/demo.py:163-164 | a join is as long as its parts plus one separator between each pair of neighbours |
| Text.Repeat | deepseek-sql/demo.py:161 | `"-" * n` has length n and every character is the repeated one |
| Text.LJust | deepseek-sql/demo.py:160-173 | `ljust(w)` keeps the text as its prefix and pads it with spaces to length w, or leaves it alone when it is already at least w long |
| Executor.IsSelect | deepseek-sql/demo.py:111 | a statement is a read iff its stripped text has at least six characters that upper-case one by one to the letters of "SELECT" |
| Executor.LastRows | deepseek-sql/demo.py:116-117 | a read keeps min(n, 5) rows, and they are the input's last rows in order; at most five rows come back unchanged |
| Executor.IsSelectIff | deepseek-sql/demo.py:111 | the same test as `IsSelect`, stated on the six-character prefix: its upper-cased form is "SELECT"; what line 111 means for particular statements is in `SelectInAnyCase` and `NotSelectWhenOtherFirst` |
| Executor.SelectInAnyCase | deepseek-sql/demo.py:111 | leading whitespace and any letter case of "select" still make a read, whatever follows |
| Executor.NotSelectWhenOtherFirst | deepseek-sql/demo.py:111 | a stripped statement whose first character does not upper-case to `S` is a write |
| Display.LastMatch | deepseek-sql/demo.py:140-144 | the index found is a column whose lower-cased name matches, with no match after it; None means no column matches |
| Display.LastMatchIsUnique | deepseek-sql/demo.py:140-144 | the last matching position is the one found, so a repeated name resolves to its last occurrence |
| Display.FindTitleUrl | deepseek-sql/demo.py:137-144 | the enumeration loop with `if`/`elif` finds the last `title` and the last `url` column |
| Display.ChooseColumns | deepseek-sql/demo.py:147-187 | every shown column has one header and a valid position |
| Display.ShowsAllColumns | deepseek-sql/demo.py:147-175 | when no column lower-cases to `title` or `url`, every column is shown, in order, under its own name |
| Display.ShowsTitleAndUrl | deepseek-sql/demo.py:177-187 | when both exist, the headers are exactly `title` then `url`, read from their last occurrences |
| Display.ShowsTitleOnly | deepseek-sql/demo.py:181-183 | with a title column and no url column, only `title` is shown |
| Display.ShowsUrlOnly | deepseek-sql/demo.py:185-187 | with a url column and no title column, only `url` is shown |
| Display.TitleAndUrlExample | deepseek-sql/test_display_filtering.py:13-15 | id, title, description, url, category shows `title` from position 1 and `url` from position 3 |
| Display.TitleOnlyExample | deepseek-sql/test_display_filtering.py:28-30 | id, title, description, category shows only `title` from position 1 |
| Display.UrlOnlyExample | deepseek-sql/test_display_filtering.py:43-45 | id, description, url, category shows only `url` from position 2 |
| Display.AllColumnsExample | deepseek-sql/test_display_filtering.py:58-60 | id, description, category shows all three columns |
| Display.ColumnWidth | deepseek-sql/demo.py:191-195 | a column's width is at least its header's length and at least every one of its cells' lengths |
| Display.ColumnWidthAttained | deepseek-sql/demo.py:150-154 | the width equals the header's length or one cell's length, so it is exactly the maximum |
| Display.ColumnWidths | deepseek-sql/demo.py:189-195 | the nested width loops with their running `max` compute every column's width |
| Display.RenderHeader | deepseek-sql/demo.py:198-205 | the header loop builds the header line and the separator line |
| Display.RenderRow | deepseek-sql/demo.py:211-215 | the inner row loop builds a row's line from the cells at the shown positions |
| Display.RenderTable | deepseek-sql/demo.py:189-215 | widths, header, separator and one line per row, equal to the table specification |
| Display.DisplayResults | deepseek-sql/demo.py:131-215 | the printed lines equal `Render`: a status message alone, or the table over the chosen columns |
| Display.TableLines | deepseek-sql/demo.py:198-215 | a table has 2 + (number of rows) lines, header and separator first, and every line has length sum(widths) + 3(k-1) |
| Display.Render | deepseek-sql/demo.py:131-215 | a status message prints as exactly one unchanged line; a table prints 2 + rows lines of equal length |
| Display.TableLinesAre | deepseek-sql/demo.py:198-215 | lines that agree with the header, the separator and each row's line are the table |
| Display.JoinedWidth | deepseek-sql/demo.py:204-205 | parts exactly as wide as their columns, joined by a three-character separator, give a line of sum(widths) + 3(k-1) characters |
| Display.HeaderWidth | deepseek-sql/demo.py:198-205 | the header and the separator are both sum(widths) + 3(k-1) long |
| Display.RowLineWidth | deepseek-sql/demo.py:211-215 | every row line is sum(widths) + 3(k-1) long, since every cell is padded to exactly its width |
| Display.RowLinesWidth | deepseek-sql/demo.py:211-215 | the same holds for every row of the result |
| Session.Dispatch | deepseek-sql/demo.py:227-233 | a line is Exit iff its stripped, lower-cased form is "exit"; otherwise Skip iff it is blank after stripping; otherwise it is passed on stripped and non-empty |
| Session.ExitAnyCase | deepseek-sql/demo.py:227-230 | "exit" in any letter case with any surrounding whitespace ends the session |
| Session.BlankSkipped | deepseek-sql/demo.py:232-233 | a whitespace-only line is skipped |
| Session.QuestionIsStripped | deepseek-sql/demo.py:227 | a passed-on question has no surrounding whitespace left |
| Session.Questions | deepseek-sql/demo.py:225-233 | at most one question per input line, each non-empty and already stripped |
| Session.RunConsole | deepseek-sql/demo.py:225-233 | the loop with `break` and `continue` passes on exactly `Questions(lines)` |
| Session.NothingAfterExit | deepseek-sql/demo.py:229-230 | nothing typed after an exit line is passed on |
| Session.QuestionsAppend | deepseek-sql/demo.py:225-233 | lines before any exit pass on their questions in order, followed by those of the rest |

## Left out

- Database plumbing is not modelled: connecting, executing, `fetchall`, `commit`, closing and the driver's error capture (deepseek-sql/demo.py:30-41, 105-110, 118-128). The status message of a write or an error, including its `rowcount`, enters `Display` as an opaque `Status` string.
- The HTTP request to the chat-completion API and its fixed prompt (deepseek-sql/demo.py:44-86, 99-102) are not modelled. The reply text is the parameter of `Sanitize`, and the error path's `sys.exit` is not modelled.
- Environment and dotenv loading (deepseek-sql/demo.py:8-27) are process configuration.
- Python's `str()` of database values is opaque, so cells are given strings.
- The console's prompts and banner lines, and the lines `main` prints between stages (deepseek-sql/demo.py:218-219, 236-246), are left out. `RunConsole` returns the questions instead of running them.
- Session.RunConsole: ends when its finite input is used up. The source raises an uncaught `EOFError` from `input()` at end of input, and that is not modelled.
- Text.Lower: maps only ASCII letters, as does Text.Upper. This is exact for comparing against "title", "url" and "exit". For the "SELECT" test, Python's `upper()` also maps a few non-ASCII characters to ASCII, such as U+017F (long s) to `S`. So `IsSelect` differs from the source on such input.
- Display.DisplayResults: requires every row to have one cell per column (`WellFormed`), as rows from the database do. The all-columns branch reads widths by the row's own positions, and this is then the same as reading them by the column's position. Both branches share `RenderTable`.
- Unicode: characters are Unicode scalar values, as Python's `len` counts code points. No normalisation is modelled.
- The other scripts of the repository are not part of this model: the image-recognition and OCR demos, test-image generation, and the connectivity checks. They are SDK or HTTP wrappers, floating point and drawing.
