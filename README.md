# ByteEmily command rules in Dafny

ByteEmily is a Discord bot with two commands. This project models the
decisions and text those commands compute, as pure Dafny functions with
lemmas about them:

- **`!LootBal <playerName>`** (`lootbal` and `handle_loot_bal_command`).
  - The author must hold a role named `member` or `trial`, in any case
    (`member_or_trial`).
  - The message must split on whitespace into exactly two words.
  - The second word, `capitalize()`d, is the player whose transactions are
    summed.
  - The sum is shown by `format_with_hyphens`: Python's `"{:,}"` rendering
    with every `,` turned into `-`, then every `.` into `,`. A zero or
    missing sum is shown as `-0-`.
  - Each outcome has its fixed reply text.
  - An author writing in a direct message has no roles. The permission
    check then raises, and `lootbal` answers with its own
    `An error occurred: ` text (`LootBal.CommandReply`).
- **`!content_in <time>`**.
  - The time is read as `hours:minutes` with `map(int, time_str.split(':'))`.
  - The countdown ends that many seconds after the current UTC time.
  - A text that does not unpack into two integers is answered with
    `Error occurred: ` and the exception text (`ContentIn.ErrorReply`).

The modules:

| file | module | what it holds |
|---|---|---|
| `wrappers.dfy` | `Wrappers` | `Option` and `Result` |
| `python_str.dfy` | `PythonStr` | the `str` operations the commands use |
| `python_int.dfy` | `PythonInt` | `str(n)` and `int(s)` in base 10 |
| `balance_format.dfy` | `BalanceFormat` | `format_with_hyphens` and the `-0-` override |
| `roles.dfy` | `Roles` | `member_or_trial` |
| `loot_bal.dfy` | `LootBal` | the `!LootBal` checks, the player name and the replies |
| `content_in.dfy` | `ContentIn` | the duration parser, its error texts and the end instant |

The Python `str` operations are modelled as follows:

- `split()` separates on runs of CPython's whitespace characters and drops
  empty pieces.
- `split(':')` keeps empty pieces.
- `int()` trims whitespace and accepts an optional sign, then digits,
  optionally grouped by single underscores. It trims the ASCII whitespace
  (tab, line feed, vertical tab, form feed, carriage return, space) and
  every non-ASCII whitespace character. It does not trim the separators
  U+001C to U+001F, which `split()` does treat as whitespace
  (`PythonInt.IntSpace`).

`SUM(Amount)` reaches the formatter as SQL NULL or as an exact decimal
(`BalanceFormat.Total`), modelled as a sign, the coefficient and the number
of fraction digits. An integer sum is the case with no fraction digits.
`Decimal` formatting with `,` uses the general (`G`) presentation. So a
number whose first digit lies more than six places after the decimal point
is written in scientific form; otherwise it is written positionally.

Where the bot's own words and its code disagree, the model follows the code:

- The `!content_in` help text (ByteEmily.py:243) promises an `{hh:mm:ss}`
  format. The code (ByteEmily.py:181-182) accepts only `h:m`, and three
  numbers are refused (`ContentIn.HoursMinutesSecondsRefused`).
- A bare number is refused too (`ContentIn.BareNumberRefused`).
- The comment at ByteEmily.py:26 calls `countdown_count` a counter for
  countdown commands. Nothing reads or updates it, so there is no limit on
  the number of countdowns.
- The channel test at ByteEmily.py:178-179 has only `pass` in its body, so
  any channel may use `!content_in`.

## Model

| member | source | states |
|---|---|---|
| `PythonStr.SplitOn` | ByteEmily.py:182 | `split(':')` gives one more piece than there are colons; no piece holds a colon; joining the pieces with `:` gives back the text |
| `PythonStr.SplitOnJoin` | ByteEmily.py:182 | splitting on `:` undoes joining colon-free pieces with `:` |
| `PythonStr.SplitWhitespace` | ByteEmily.py:127 | `split()` yields only non-empty words free of whitespace |
| `PythonStr.SplitWhitespaceInterleave` | ByteEmily.py:127 | `split()` recovers the words however the whitespace around and between them is laid out |
| `PythonStr.Capitalize` | ByteEmily.py:133 | `capitalize()` keeps the length and the letters up to case; the first character is not lower-case; no later one is upper-case |
| `PythonStr.CapitalizeIgnoresCase` | ByteEmily.py:133 | two names capitalise alike exactly when they agree up to case |
| `PythonStr.CapitalizeIdempotent` | ByteEmily.py:133 | capitalising twice equals capitalising once |
| `PythonStr.ReplaceJoin` | ByteEmily.py:93 | replacing a separator character rewrites exactly the separators of a join |
| `PythonInt.DecimalDigits` | ByteEmily.py:93 | `str(n)` for n >= 0 is non-empty digits denoting n, without a superfluous leading zero |
| `PythonInt.DecimalDigitsOfValue` | ByteEmily.py:93 | digits without a superfluous leading zero are exactly what `str` writes for their value |
| `PythonInt.TrimPadded` | ByteEmily.py:182 | the whitespace `int()` trims is exactly what surrounds the literal |
| `PythonInt.ParseInt` | ByteEmily.py:182 | `int()` accepts only literal characters (digits, `_`, a leading sign) once trimmed, and a negative value needs the `-` |
| `PythonInt.ParseIntAccepts` | ByteEmily.py:182 | `int()` succeeds exactly when the trimmed text is an optional sign followed by digits grouped by single underscores |
| `PythonInt.JoinedRun` | ByteEmily.py:182 | non-empty digit groups joined by `_` form a digit run whose value is that of the groups' digits read together |
| `PythonInt.ParseIntGrouped` | ByteEmily.py:182 | an optional sign and non-empty digit groups joined by `_`, with trimmed whitespace around them, read as the groups' value, negated after `-` |
| `PythonInt.ParseIntRun` | ByteEmily.py:182 | trimming an optional sign and a digit run leaves exactly them, and `int()` reads the run's value, negated after `-` |
| `PythonInt.RefusedLiteral` | ByteEmily.py:182 | a text with no whitespace at either end that is not a signed digit run is refused |
| `PythonInt.ExampleLoneSign` | ByteEmily.py:182 | `int("+")` raises |
| `PythonInt.ExampleLeadingUnderscore` | ByteEmily.py:182 | `int("_5")` raises |
| `PythonInt.ExampleTrailingUnderscore` | ByteEmily.py:182 | `int("5_")` raises |
| `PythonInt.ExampleDoubleUnderscore` | ByteEmily.py:182 | `int("1__0")` raises |
| `PythonInt.ParseIntPadded` | ByteEmily.py:182 | an optional sign, any number of leading zeros and the digits of n, with trimmed whitespace around them, read as n or -n |
| `PythonInt.ParseIntStr` | ByteEmily.py:182 | `int()` reads back `str(n)` for every integer n, with any whitespace `int()` trims around it |
| `PythonInt.ParseIntBlank` | ByteEmily.py:182 | `int()` of text made only of whitespace it trims raises |
| `PythonInt.ExampleUnderscore` | ByteEmily.py:182 | `1_000` reads as 1000 |
| `PythonInt.ExampleFileSeparatorRefused` | ByteEmily.py:182 | U+001C before a digit is not trimmed, so the text is refused |
| `PythonInt.ExampleNoBreakSpace` | ByteEmily.py:182 | a no-break space before a digit is trimmed |
| `BalanceFormat.Chunks` | ByteEmily.py:93 | the `,` option cuts the digits into groups from the right: 1-3 digits first, exactly 3 after; the groups concatenate back to the digits |
| `BalanceFormat.FracPart` | ByteEmily.py:93 | a decimal shows exactly `scale` fraction digits; with the integer digits they spell the coefficient |
| `BalanceFormat.CommaFormat` | ByteEmily.py:93 | the `,` rendering is never empty, and it starts with `-` exactly for a negative sum and with a digit otherwise |
| `BalanceFormat.FormatWithHyphens` | ByteEmily.py:90-93 | the empty text exactly for `None`; no `.` survives the rewrite |
| `BalanceFormat.PositionalForm` | ByteEmily.py:93 | in the positional range the output is: the sign, the integer digits in `-`-separated groups of three, then `,` and the fraction digits when there are any |
| `BalanceFormat.NonNegativeIntFormat` | ByteEmily.py:93 | for an integer n >= 0 the output has no `,`; without its `-` it is `str(n)`; its `-`-separated pieces are well-formed thousands groups |
| `BalanceFormat.NegativeIntFormat` | ByteEmily.py:93 | a negative integer is written as `-` followed by the writing of its magnitude |
| `BalanceFormat.ReadFormatted` | ByteEmily.py:93 | in the positional range the rendering can be read back to the same sign, coefficient and scale |
| `BalanceFormat.FormatInjective` | ByteEmily.py:93 | different positional sums are never rendered alike |
| `BalanceFormat.ScientificLength` | ByteEmily.py:93 | outside the positional range the rendering has at least four characters |
| `BalanceFormat.ReportedAmount` | ByteEmily.py:145-148 | the reported amount is never empty; it is `-0-` exactly when the sum is zero or missing, and otherwise it is the hyphenated rendering of the sum |
| `BalanceFormat.NonZeroNotMarker` | ByteEmily.py:93 | no non-zero sum is rendered as `-0-` |
| `BalanceFormat.ExampleMissingAndZero` | ByteEmily.py:147-148 | a missing sum and the sum 0 are reported as `-0-` |
| `BalanceFormat.ExampleTwentyThousand` | ByteEmily.py:93 | 20000 is rendered `20-000` |
| `BalanceFormat.ExampleNegative` | ByteEmily.py:93 | -1234 is rendered `-1-234` |
| `BalanceFormat.ExampleFraction` | ByteEmily.py:93 | the decimal 1234.56 is rendered `1-234,56` |
| `Roles.AnyGrants` | ByteEmily.py:85-86 | `any(...)` over the lower-cased names is true exactly when one of them is `member` or `trial` |
| `Roles.MemberOrTrial` | ByteEmily.py:81-86 | authorised exactly when some role name, lower-cased, is `member` or `trial` |
| `Roles.NoRolesRefused` | ByteEmily.py:84-86 | an author without roles is refused |
| `Roles.MemberOrTrialIgnoresCase` | ByteEmily.py:84 | role lists that agree name by name up to case are judged alike |
| `Roles.MemberOrTrialAppend` | ByteEmily.py:85-86 | a combined role list authorises exactly when either part does |
| `Roles.Examples` | ByteEmily.py:81-86 | `MeMbEr` and `TRIAL` authorise; `guest` and `members` do not |
| `LootBal.ParseLootBal` | ByteEmily.py:121-133 | refused exactly when unauthorised; a usage error exactly when an authorised message does not split into two words; otherwise the looked-up name is the second word in capitalised form |
| `LootBal.LookupNameStable` | ByteEmily.py:133 | the looked-up name is unchanged by normalising it again |
| `LootBal.LookupIgnoresCase` | ByteEmily.py:133 | two messages look up the same player exactly when their second words agree up to case |
| `LootBal.LookupInWhitespace` | ByteEmily.py:127-133 | a command word and a name, with any whitespace around them, look up the capitalised name |
| `LootBal.LootbalCommand` | ByteEmily.py:163-170 | through `lootbal`, an author is refused exactly when unauthorised; an authorised author gets a lookup of the capitalised argument exactly when it is one word, and a usage error otherwise |
| `LootBal.TwoWordNameRefused` | ByteEmily.py:163-170 | a quoted argument of two words is a usage error |
| `LootBal.LootBalReply` | ByteEmily.py:121-155 | the fixed reply texts for no permission, wrong usage, no row and a failed query; the balance line for a row |
| `LootBal.RefusedWithoutQuery` | ByteEmily.py:123-131 | a refused message gets a reply independent of the database: the permission text or the usage text |
| `LootBal.ReplyDependsOnPlayer` | ByteEmily.py:141-151 | an accepted message's reply depends on the database only through the looked-up player |
| `LootBal.ReplyForRow` | ByteEmily.py:144-149 | a row gives the balance line for the looked-up player; that line reports `-0-` exactly when the sum is zero or missing, and the hyphenated rendering of the sum otherwise |
| `LootBal.ExampleLookup` | ByteEmily.py:127-133 | `!LootBal  bOB ` from a `Trial` author looks up `Bob` |
| `LootBal.ExampleRefused` | ByteEmily.py:123-125 | a `guest` is refused |
| `LootBal.ExampleMissingName` | ByteEmily.py:129-131 | the quoted empty argument, `!LootBal ""`, is a usage error |
| `LootBal.CommandReply` | ByteEmily.py:84-173 | a direct-message author, who has no roles, gets `lootbal`'s error text for the missing `roles` attribute; a server member gets the handler's reply: permission text, usage text, or the outcome of the query for the capitalised one-word argument |
| `LootBal.DirectUserNeverQueries` | ByteEmily.py:123-173 | a direct-message author's reply does not depend on the database and differs from every reply of the handler: the refusal, the usage hint, no results, a query error and every balance line |
| `ContentIn.Unpack` | ByteEmily.py:182 | unpacking succeeds exactly for two pieces that both parse; a rejected literal is one of the first three pieces; too few means one piece; too many means at least three |
| `ContentIn.ParseHoursMinutes` | ByteEmily.py:182-183 | accepted exactly when the text splits on `:` into two integer texts; each error is tied to the shape of the text |
| `ContentIn.ErrorText` | ByteEmily.py:220 | each error's text has its own first letter. A rejected literal follows the `invalid literal` prefix and an opening quote: whole with a closing quote when the quoted literal fits in 200 characters, otherwise cut to its first 199 characters. The count follows the `not enough values` prefix and is closed by `)`. Too many values gives a fixed text |
| `ContentIn.CutLiteralsCollide` | ByteEmily.py:219-220 | two long literals that agree on their first 199 characters get the same reply |
| `ContentIn.ExampleCutLiterals` | ByteEmily.py:219-220 | a 199-character literal and the same literal with one more character are different errors with the same reply |
| `ContentIn.ErrorTextIdentifies` | ByteEmily.py:220 | for literals that `repr` shows whole (at most 198 printable ASCII characters, no backslash or single quote), equal error texts come from equal errors |
| `ContentIn.ErrorReplyIdentifies` | ByteEmily.py:219-220 | for literals that `repr` shows whole (at most 198 printable ASCII characters, no backslash or single quote), two errors get the same reply exactly when they are the same error |
| `ContentIn.AcceptedHasOneColon` | ByteEmily.py:182 | an accepted time holds exactly one `:` |
| `ContentIn.ReadHoursMinutes` | ByteEmily.py:182-183 | two integers written out, with any whitespace `int()` trims around each, joined by `:` give `hours*3600 + minutes*60` seconds |
| `ContentIn.ReadWrittenHoursMinutes` | ByteEmily.py:182-183 | `str(h) + ":" + str(m)` gives `h*3600 + m*60` seconds |
| `ContentIn.HoursMinutesSecondsRefused` | ByteEmily.py:182 | three integers joined by `:` raise "too many values" |
| `ContentIn.BareNumberRefused` | ByteEmily.py:182 | a single integer raises "not enough values (got 1)" |
| `ContentIn.ExampleOverlongMinutes` | ByteEmily.py:182-183 | `1:75` gives 8100 seconds; minutes are not range-checked |
| `ContentIn.ExampleBare` | ByteEmily.py:182 | `90` is one value short |
| `ContentIn.ExampleSeconds` | ByteEmily.py:182 | `1:2:3` is one value too many |
| `ContentIn.SecondPieceRejected` | ByteEmily.py:182 | when the minutes piece alone is refused by `int()`, the error quotes it |
| `ContentIn.ExampleEmptyMinutes` | ByteEmily.py:182 | `1:` fails on the empty literal |
| `ContentIn.ExampleLeadingZero` | ByteEmily.py:182-183 | `01:30` gives 5400 seconds |
| `ContentIn.EndTime` | ByteEmily.py:186-187 | the end instant exists exactly when now plus the duration stays within the range of `datetime`; the `timedelta` limit never decides; the end lies exactly the duration after now |
| `ContentIn.ContentIn` | ByteEmily.py:182-187 | an unreadable time gives its unpacking error; otherwise the end exists exactly when it stays in range, and it lies the duration after now |
| `ContentIn.ContentInEnd` | ByteEmily.py:182-187 | `str(h):str(m)` ends `h` hours and `m` minutes after now whenever that is in range |

## Left out

- The MySQL connection code (`establish_connection`, `execute_non_query`, `close_connection`) and the query itself: foreign I/O. The query becomes the parameter `query` of `LootBal.LootBalReply`, mapping a player to a row, no row, or an exception text.
- Sending messages and reactions: the model computes the reply text, not its delivery. `lootbal`'s `except` branch also catches a failed send of any handler reply and a failure while closing the cursor or the connection; those paths are not modelled. Its path for an author without roles is modelled (`LootBal.CommandReply`).
- How discord.py binds `playerName` and `time_str`: both are parameters. discord.py binds only the first word of an unquoted argument and drops the rest, so `!LootBal Bob Smith` looks up `Bob`. A missing argument raises `MissingRequiredArgument` before the command body runs, and this code sends no reply. A name of several words, or an empty one, reaches the usage check only when quoted.
- The `!content_in` countdown loop, the reaction wait and the final edit: wall-clock polling and Discord events.
- The Discord timestamp and the `strftime` text of the end time: the model stops at the end instant, counted in microseconds from 0001-01-01. The current time is a parameter.
- `ContentIn.ContentIn`: the `OverflowError` text for an end out of range is not modelled; both overflows are the single tag `Overflow`.
- `ContentIn.ErrorText`: it quotes the rejected literal in single quotes, without the escaping that Python's `repr` applies to quotes, backslashes and unprintable characters. The 200-character cut of `%.200R` is applied to this unescaped quoting.
- `ContentIn.ErrorTextIdentifies`: stated only for literals of at most 198 printable ASCII characters with no backslash or single quote, whose `repr` is the literal in single quotes. Longer literals are cut, and different ones can share a text (`ContentIn.CutLiteralsCollide`). A literal with characters `repr` escapes can share a text with another when its escaped form passes the cut (`"\n"*100` and `"\n"*99 + "\t"`); the model, which does not escape, does not show this.
- `ContentIn.ErrorReplyIdentifies`: stated only for the same literals, for the same reasons; `ContentIn.ExampleCutLiterals` shows two different errors with one reply.
- The `❌` deletion handler, `info_emily`, `on_ready`, `on_shutdown`, `main`, the placeholder `your_command` and the settings file: start-up and UI plumbing with no rules to state.
- `PythonStr.Lower`, `PythonStr.Capitalize`: only ASCII letters change case. For role names this gives the same verdict as Python's full Unicode `lower()`, because no other character lower-cases into `member` or `trial`. For player names the model does not follow non-ASCII case mapping.
- `PythonInt.ParseInt`: digits other than ASCII `0`-`9` and the 4300-digit limit of `int()` are not modelled.
- `BalanceFormat.ReadFormatted`: the round trip is stated for the positional range only. The scientific form, which needs a fraction more than five zeros deep, is only shown never to be `-0-` (`BalanceFormat.ScientificLength`).
- Floating-point sums: the driver returns `Decimal` for `SUM` over an exact column, so sums are exact decimals here.
