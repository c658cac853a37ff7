# IPTV reseller console: the pure rules of `iptv_app.py`

`iptv_app.py` is a Streamlit console for an IPTV subscription reseller. It
keeps customers (`clientes`: `Usuario`, `Servicio`, `Vencimiento`,
`WhatsApp`, `Observaciones`) and a ledger (`finanzas`) in a database. Most of
the script is UI and database plumbing. This project models the four rules in
it that compute something, and proves what they do:

- **Database-URL scheme shim** (`get_engine`). A `DATABASE_URL` that starts
  with `postgres://` has that prefix rewritten to `postgresql://`. Any other
  value passes through unchanged, and so does an unset one. The module is
  `DbUrl` in `db_url.dfy`.
- **Notes clean-up** (`load_data`). Every `Observaciones` cell is turned into
  text. The texts `None`, `nan`, `nan ` and `<NA>` then become the empty
  note. The module is `Notes` in `notes.dfy`.
- **Customer search**. An empty query shows every row. Any other query shows,
  in table order, the rows whose `Usuario` contains the query with case
  ignored. A row whose `Usuario` is missing is never shown for such a query.
  The module is `Search` in `search.dfy`.
- **Expiry colouring** (`color_vencimiento`). A `Vencimiento` token such as
  `05-jun` is trimmed and lower-cased. The current year is appended and the
  result is read with `%d-%b-%Y`. The whole days from now until midnight of
  that date are then counted: 2 or fewer give the red style, 5 or fewer give
  the yellow style, and more give no style. A token that does not read as a
  date also gives no style. The module is `Expiry` in `expiry.dfy`.

Supporting modules:

- `Strings` (`strings.dfy`): Python's `in`, `startswith`, `replace(…, 1)`,
  `strip()` and `lower()`.
- `Frame` (`frame.dfy`): a pandas cell, which is `None`, NaN, `pd.NA` or a
  string, together with its `str()`, and one customer row.
- `Calendar` (`calendar.dfy`): the proleptic Gregorian calendar and
  `date.toordinal()`.
- `Wrappers` (`wrappers.dfy`): an `Option` type.

The clock and the environment are parameters. The moment `datetime.now()`
returns is an `Instant`: a date plus the microseconds since its midnight. The
value of `DATABASE_URL` is an `Option<string>`.

`timedelta.days` rounds down. So once the current day has begun, the day
count is the difference of the two dates minus one. The model does this in
exact integer arithmetic at microsecond resolution (`Expiry.DaysUntil`,
`Expiry.DaysUntilSameYear`).

## Model

| member | source | states |
|---|---|---|
| DbUrl.EngineUrl | iptv_app.py:31-33 | A set URL starting with `postgres://` becomes `postgresql://` followed by the same remainder. Every other value, including an unset one, is returned unchanged. |
| DbUrl.NewSchemeUntouched | iptv_app.py:32-33 | A URL already in the `postgresql://` scheme is not rewritten. |
| DbUrl.EngineUrlIdempotent | iptv_app.py:31-33 | Applying the shim twice gives the same result as applying it once. |
| Strings.ReplaceFirstSpec | iptv_app.py:33 | `replace(pat, rep, 1)` replaces the leftmost occurrence of `pat` and keeps the text before and after it. |
| Strings.ReplaceFirstAbsent | iptv_app.py:33 | With no occurrence of `pat`, `replace` returns the string unchanged. |
| Strings.ContainsIff | iptv_app.py:93 | The substring test holds exactly when the pattern occurs at some index of the text. |
| Frame.Str | iptv_app.py:71 | `str()` of a string cell is the string itself. A missing value prints as one of `None`, `nan` and `<NA>`. |
| Notes.CleanNote | iptv_app.py:71 | A cleaned note is empty exactly when the cell's text is a sentinel or empty. Otherwise it is the cell's text. |
| Notes.NormalizeNotes | iptv_app.py:71 | The rows keep their count and order, and every column other than the notes is unchanged. Each note is the cell's text, or empty exactly when that text is `None`, `nan`, `nan ` or `<NA>`. |
| Notes.MissingBecomesEmpty | iptv_app.py:71 | A `None`, NaN or `pd.NA` note becomes the empty note. |
| Notes.NormalizeNotesIdempotent | iptv_app.py:71 | Cleaning the notes twice gives the same result as cleaning them once. |
| Search.Filter | iptv_app.py:93 | The selection is no longer than the table, and every row in it matches the query with case ignored. |
| Search.MatchPositions | iptv_app.py:93 | The matching row positions are increasing and in range. They include every matching row. |
| Search.FilterIsSelection | iptv_app.py:93 | The selection is exactly the rows at the matching positions, in table order. |
| Search.SearchRows | iptv_app.py:91-93 | An empty query shows the whole table in order. Any other query shows the rows that match. |
| Search.MissingUserNeverFound | iptv_app.py:93 | A non-empty query never shows a row whose `Usuario` is missing (`na=False`). |
| Search.EmptyQueryKeepsMissingUsers | iptv_app.py:91-93 | The empty query shows rows with a missing `Usuario`. A search for the empty pattern would drop them. |
| Search.MatchingRowShown | iptv_app.py:91-93 | Every row whose lower-cased `Usuario` holds the lower-cased query is shown. |
| Search.ShownRowMatches | iptv_app.py:93 | Every row a non-empty query shows has a `Usuario` that holds the query, ignoring case. |
| Search.SearchExample | iptv_app.py:93 | `ali` finds `alice` and `Alina` but not `bob`, in table order. |
| Strings.Strip | iptv_app.py:97 | `strip()` never lengthens the text and leaves no white space at either end. Blank text becomes the empty string. |
| Strings.StripIsSlice | iptv_app.py:97 | `strip()` returns a slice of the text, and everything it cuts off on either side is white space. |
| Strings.StripPadding | iptv_app.py:97 | For a text that is not blank, `strip()` removes exactly the white space around it. |
| Strings.Lower | iptv_app.py:97 | `lower()` keeps the length, leaves no capital letter, and keeps every character that is not a capital. |
| Strings.LowerCapital | iptv_app.py:97 | Each capital `A`..`Z` becomes the small letter at the same place in the alphabet. |
| Strings.LowerIdempotent | iptv_app.py:97 | Lower-casing twice is the same as lower-casing once. |
| Strings.StripLower | iptv_app.py:97 | Trimming and lower-casing can be done in either order. |
| Calendar.DaysInMonth | iptv_app.py:98 | Months have 28 to 31 days. February has 29 exactly in leap years. |
| Calendar.DaysInYear | iptv_app.py:99 | The day count of a year is 366 in leap years and 365 otherwise. |
| Calendar.OrdinalNextDayWithinYear | iptv_app.py:99 | Before 31 December, the next date has the next day number, across month ends too. |
| Calendar.NextDayYearEnd | iptv_app.py:99 | The date after 31 December is 1 January of the next year. |
| Calendar.OrdinalNewYear | iptv_app.py:99 | 1 January has the day number after that of the 31 December before it. |
| Calendar.DayOfYearIncreases | iptv_app.py:99-100 | Within one year, a later date has a larger position in the year. |
| Expiry.MonthNumber | iptv_app.py:98 | `%b` maps each of `jan`..`dec` to its month and rejects every other text. |
| Expiry.ParseDay | iptv_app.py:98 | `%d` reads one or two digits whose value is a day from 1 to 31. |
| Expiry.ParseDayForms | iptv_app.py:98 | `%d` reads a text as day `d` exactly when the text is one of that day's spellings. |
| Expiry.ParseToken | iptv_app.py:98 | A token that reads gives a date that exists in the current year, and that year has four digits. |
| Expiry.ParseTokenSound | iptv_app.py:98 | A token that reads is a day spelling, a dash and a month abbreviation. |
| Expiry.ParseTokenComplete | iptv_app.py:98 | Every spelling of a date that exists in the current year reads as that date. |
| Expiry.TokenLength | iptv_app.py:98 | Only tokens of five or six characters can read as a date. |
| Expiry.RejectedTokens | iptv_app.py:97-106 | `30-feb`, `29-feb` outside a leap year, a token with a year already in it and the empty string never read. Nothing reads in a year below 1000. |
| Expiry.FloorDays | iptv_app.py:99 | `.days` of a whole number of days minus part of a day is one less than that number. |
| Expiry.DaysUntilSameYear | iptv_app.py:99 | The day count is the difference in position within the year, minus one once the current day has begun. |
| Expiry.ExpiryStyle | iptv_app.py:95-106 | The result is always the red style, the yellow style or no style. It never fails. |
| Expiry.ExpiryTiers | iptv_app.py:97-106 | An unreadable token gets no style. Otherwise red holds exactly when the day count is at most 2, yellow exactly when it is 3 to 5, and no style exactly when it is above 5. |
| Expiry.NotAfterTodayIsRed | iptv_app.py:98-101 | A token for today, or for a day already past in the current year, is red. |
| Expiry.TodayIsRed | iptv_app.py:97-101 | Today's own token, in any day spelling, is red. |
| Expiry.NormalizeSpelling | iptv_app.py:97 | A canonical spelling (a day spelling, a dash and a month abbreviation) is unchanged by trimming and lower-casing. |
| Expiry.StyleOfSpelling | iptv_app.py:97-104 | A cell whose trimmed, lower-cased text spells a date gets the style of the day count to that date. |
| Expiry.TwoDaysAwayIsRed | iptv_app.py:97-101 | Later than midnight on 15 October 2026 (and before the day ends), the padded and capitalised ` 18-Oct ` is red. |
| Expiry.ThreeDaysAwayIsYellow | iptv_app.py:97-103 | Later than midnight on 15 October 2026 (and before the day ends), `19-OCT` is yellow. |
| Expiry.FiveDaysAwayIsYellow | iptv_app.py:97-103 | Later than midnight on 15 October 2026 (and before the day ends), `21-oct` with a trailing line break is yellow. |
| Expiry.SixDaysAwayIsPlain | iptv_app.py:98-104 | Later than midnight on 15 October 2026 (and before the day ends), `22-oct` gets no style. |

## Left out

- The login form, `st.session_state`, `st.rerun` and `st.stop` (iptv_app.py:5-26). They are session state of the UI framework.
- Tabs, titles, the search box widget, `st.data_editor`, `Styler.applymap` and the column configuration (iptv_app.py:82-116). They are presentation. `applymap` only applies `Expiry.ExpiryStyle` to each `Vencimiento` cell.
- `sqlalchemy.create_engine`, the `CREATE TABLE` statements and `pd.read_sql` (iptv_app.py:34-67). They are database I/O through library code that is not part of this model. The ledger's `Monto` column is floating point.
- Dropping the `id` column for display (iptv_app.py:79-80). It is a projection of the table that computes nothing.
- `os.getenv` and `datetime.now()`. They are parameters: `Option<string>` for `DATABASE_URL` and `Instant` for the clock.
- Expiry.ExpiryStyle: `color_vencimiento` calls `datetime.now()` twice, once for the year and once for the day count. The model reads one instant for both, so a call made across midnight of New Year's Eve is not modelled.
- Search.SearchRows: `str.contains` reads the query as a regular expression by default. The model reads it as a literal text, so the result agrees with the source only for queries with no regular-expression metacharacters.
- Strings.Lower: case is ignored for ASCII letters only. Unicode case folding is not modelled.
- Expiry.ParseDay: `\d` in the `strptime` pattern also accepts non-ASCII decimal digits. The model accepts only `0`-`9`.
- Expiry.MonthNumber: `%b` follows the process locale. The model uses the C/English abbreviations `jan` to `dec`.
- Expiry.ExpiryStyle: `iptv_app.py` imports only `streamlit` and `os` (lines 1-2) and stops mid-call at line 116. The model assumes `from datetime import datetime`, `import pandas as pd` and `import sqlalchemy`. Without the first, line 98 would fail and the bare `except` at lines 105-106 would give `''` for every cell.
- `iptv_app.py` stops at line 116, inside the `st.data_editor` call. It holds no renewal, sign-up, expense or ledger code, so none is modelled.
