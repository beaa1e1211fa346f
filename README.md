# expense-analyzer, modelled in Dafny

This project models the non-I/O core of the expense-analyzer command-line tool. The tool reads a bank-export CSV of transactions (`date`, `description`, `amount`), labels each one with a spending category, and totals the transactions by calendar month. The model has four parts:

- **Field parsers** (`Utils`, src/utils.py):
  - `parse_date` accepts only a real `YYYY-MM-DD` calendar day. Everything else gives `None`.
  - `parse_amount` accepts a signed decimal literal. Everything else gives `None`.
  - `normalize_text` is the text normaliser the categoriser calls.
- **Loader** (`Analyzer`, src/analyzer.py): `load_transactions`, from the CSV header and the row dictionaries onward.
  - No header row: an empty result.
  - A header lacking required columns: an error.
  - Otherwise, one pass over the rows. A blank or unparsable row is skipped with a warning numbered from row 2. Every other row becomes a record.
- **Categoriser** (`Categories`, src/categories.py):
  - A positive amount is Income.
  - Otherwise the label is the first category in table order with a keyword in the normalised description, else Other.
- **Monthly aggregator** (`Stats`, src/stats.py): `get_monthly_summary` groups transactions by year and month. For each month it computes income, expenses, savings, savings rate, and the expense magnitude per category.

`Text` holds the Python string built-ins these use: `strip()`, `lower()`, substring `in`, and decimal digits. `Pipeline` composes the stages.

The stateful code is written as methods with loops and invariants. Each method is proved equal to a specification function:

| method | specification function |
|---|---|
| `Analyzer.LoadTransactions` | `Analyzer.Load` |
| `Stats.GetMonthlySummary` | `Stats.MonthlySummary` |
| `Stats.SummarizeMonth` | `Stats.Summarize` |

The lemmas state what the source promises about those specification functions.

Modelling choices:
- Amounts are mathematical reals.
- Dates are `(year, month, day)` triples.
- The `"%Y-%m"` month key is the pair `MonthKey(year, month)`. Two dates share a key exactly when they share year and month, so the grouping is the same.
- A loaded row is a `map<string, string>` of what `csv.DictReader` yields. A field the row lacks is an absent key, just as `row.get(k) or ""` reads it.
- The console warnings are returned as data: `Warning` values, each a row number and a reason.

Gaps between the stages of the code, and how the model bridges them:
- `load_transactions` attaches no category and returns no count of skipped rows. Its records hold only `date`, `description` and `amount` (src/analyzer.py:39). `get_monthly_summary` nevertheless reads `t['category']` (src/stats.py:34). `Pipeline` therefore puts the categoriser between the two stages.
- src/categories.py calls `utils.normalize_text`, but src/utils.py does not define it. `Categorize` takes the normaliser as a parameter. `Utils.NormalizeText` is the likely intended normaliser: ASCII lower-case, keeping letters, digits and whitespace.

Behaviour of the code that the lemmas make explicit:
- The header check lower-cases column names, but the row lookup uses the lower-case keys verbatim. A header `Date,Description,Amount` therefore passes the check, and then every row is skipped for missing fields (`Analyzer.CapitalisedHeaderSkipsEveryRow`).
- Transport's keyword `gas` is tried before Utilities' keyword `gas bill`. So `gas bill` can never decide a category (`Categories.GasBillIsShadowed`).
- The docstring of `get_monthly_summary` gives the savings rate as a percentage from 0 to 100 (src/stats.py:14). The upper bound holds, but the lower one fails whenever a month's expenses exceed its income: the rate is then negative (`Stats.RateNegativeIffOverspent`). Income 100 with an expense of -300 gives a rate of -200 (`Stats.OverspentExample`).

## Model

| member | source | states |
|---|---|---|
| Text.StripIsTrimmedSlice | src/analyzer.py:30-32 | `strip()` keeps one contiguous slice of the field. Everything cut off on either side is whitespace, in Python's `isspace` sense. The kept slice neither starts nor ends with whitespace. |
| Text.StripEmptyIff | src/analyzer.py:30-33 | A field strips to the empty string exactly when it is all whitespace, so such a field counts as missing. |
| Text.StripIdempotent | src/analyzer.py:30-32 | Stripping an already stripped field changes nothing. |
| Text.LowerIdempotent | src/analyzer.py:23 | `lower()` leaves no ASCII capital letter, so lower-casing an already lower-cased name changes nothing. |
| Text.OccursIff | src/categories.py:27 | The left-to-right keyword search succeeds exactly when the keyword occurs at some position of the text. |
| Text.PaddedDigitsValue | src/utils.py:8 | Writing a number in a fixed number of zero-padded digits and reading it back gives the number. |
| Text.DigitsValuePadded | src/utils.py:8 | Reading a digit string as a number and writing it back at the same width gives the string. |
| Utils.DaysInMonth | src/utils.py:8 | Every month has 28 to 31 days. It has 29 exactly for February of a leap year. |
| Utils.ParseDateSound | src/utils.py:5-10 | An accepted date names a day that exists, in years 1 to 9999. The input is exactly that day's zero-padded `YYYY-MM-DD` text. |
| Utils.ParseFormatRoundTrip | src/utils.py:5-10 | Every representable day's `YYYY-MM-DD` text parses back to that day. |
| Utils.Feb29AcceptedIffLeap | src/utils.py:5-10 | February 29 of a year is accepted exactly when the year is a Gregorian leap year. |
| Utils.ParseDateByDigits | src/utils.py:5-10 | A text of ten characters, shaped as four digits, a hyphen, two digits, a hyphen and two digits, gives the day those digits spell when that day exists, and `None` otherwise. |
| Utils.ParseDateRejectsMalformedExamples | src/utils.py:7-10 | The empty string and the slash-separated `2023/01/15` give `None`. |
| Utils.ParseDateRejectsOutOfRangeExamples | src/utils.py:7-10 | Month 13 (`2023-13-01`) and day 32 (`2023-01-32`) give `None`. |
| Utils.ParseDateRejectsMissingDayExamples | src/utils.py:7-10 | `2023-02-30` and year 0 (`0000-01-01`) give `None`: neither day exists. |
| Utils.ParseDateAcceptsExample | src/utils.py:5-8 | `2024-03-15` parses to 15 March 2024. |
| Utils.LeapDay2024Accepted | src/utils.py:5-8 | `2024-02-29` is accepted as February 29, 2024. |
| Utils.LeapDay2000Accepted | src/utils.py:5-8 | `2000-02-29` is accepted: 2000 is divisible by 400. |
| Utils.LeapDay2023Rejected | src/utils.py:7-10 | `2023-02-29` is rejected: 2023 is not a leap year. |
| Utils.LeapDay1900Rejected | src/utils.py:7-10 | `1900-02-29` is rejected: 1900 is divisible by 100 but not by 400. |
| Utils.ParseRenderRoundTrip | src/utils.py:13-16 | Every well-formed decimal literal lexes back to itself, and parses to the number it denotes. |
| Utils.LexDecimalSound | src/utils.py:13-18 | Every accepted amount text is the rendering of a well-formed literal, and its value is that literal's value. |
| Utils.ParseAmountRejectsNonNumeric | src/utils.py:13-18 | An accepted amount text consists only of digits, signs and points. It holds at least one digit, a sign only as its first character, and at most one point. |
| Utils.ParseAmountIncomeExample | src/utils.py:13-16 | `2500.00` parses to 2500. |
| Utils.ParseAmountExpenseExample | src/utils.py:13-16 | `-60.00` parses to -60. |
| Utils.ParseAmountRejectsEmptyExamples | src/utils.py:15-18 | The empty text, a lone sign and a lone point give `None`. |
| Utils.ParseAmountRejectsLettersExample | src/utils.py:15-18 | `abc` gives `None`. |
| Utils.ParseAmountRejectsTwoPointsExample | src/utils.py:15-18 | `1.2.3` gives `None`. |
| Utils.NormalizeText | src/categories.py:24 | The normalised description is no longer than the input, and keeps only lower-case letters, digits and whitespace. |
| Utils.NormalizeIdempotent | src/categories.py:24 | Normalising twice is the same as normalising once. |
| Utils.NormalizeKeepsPlainText | src/categories.py:24 | A text already made only of lower-case letters, digits and whitespace is left unchanged. |
| Utils.NormalizeIsLowerWhenAllKept | src/categories.py:24 | A text whose lower-cased form is only lower-case letters, digits and whitespace normalises to that lower-cased form. |
| Categories.AnyKeywordIn | src/categories.py:27 | `any(kw in text for kw in keywords)` holds exactly when some keyword of the list occurs in the text. |
| Categories.FirstMatch | src/categories.py:26-28 | Returns the first category in table order whose keywords match: that one matches and no earlier one does. Returns `None` exactly when no category matches. |
| Categories.Categorize | src/categories.py:14-30 | The label is always one of the eight labels. A positive amount gives Income, and only a positive amount does. Otherwise the label is Other exactly when no category matches the normalised description. Any other label is the first matching category's name. |
| Categories.CategorizeSeesOnlyNormalized | src/categories.py:24-28 | Two descriptions with the same normalised form get the same label. |
| Categories.GasIsNeverUtilities | src/categories.py:6-28 | A normalised description containing `gas` is never Utilities. For a non-positive amount it is Food or Transport, and Transport when no Food keyword occurs. |
| Categories.GasBillIsShadowed | src/categories.py:6-28 | A description containing `gas bill` is never Utilities, because such a description also contains `gas`. |
| Categories.GasBillExample | src/categories.py:14-30 | "Monthly gas bill payment" with -60 is Transport. |
| Categories.UnmatchedExample | src/categories.py:14-30 | "XYZ Mystery Corp" with -10 matches no keyword and is Other. |
| Categories.NormalizedGasBillExample | src/categories.py:14-30 | With `NormalizeText` as the normaliser, "Monthly gas bill payment" with -60 is Transport. |
| Categories.NormalizedUnmatchedExample | src/categories.py:14-30 | With `NormalizeText` as the normaliser, "XYZ Mystery Corp" with -10 is Other. |
| Analyzer.MissingFrom | src/analyzer.py:23-26 | The missing names are exactly the required columns absent from the lower-cased header, each once and in sorted order. The list is empty exactly when every required column is present. |
| Analyzer.RowOutcomeCases | src/analyzer.py:29-41 | A row is skipped for missing fields exactly when a stripped required field is empty; an absent key counts as empty. It is skipped for a parse error exactly when all three fields are present but the date or the amount does not parse. Otherwise it yields the parsed date, the stripped description and the parsed amount. |
| Analyzer.LoadRow | src/analyzer.py:29-41 | The loop body computes exactly the row's outcome. |
| Analyzer.LoadRows | src/analyzer.py:28-41 | The row loop returns the records of the successful rows and a warning for each skipped row, in row order. |
| Analyzer.LoadTransactions | src/analyzer.py:8-42 | The loader computes exactly `Load`: the header checks first, then the row loop. |
| Analyzer.NoHeaderOutcome | src/analyzer.py:19-21 | With no header (`fieldnames` is `None` or empty) the result is an empty list, with one warning and no error. |
| Analyzer.MissingColumnsOutcome | src/analyzer.py:23-26 | A header lacking required columns gives an error, and no records. The error names exactly the missing columns, sorted. |
| Analyzer.CompleteHeaderOutcome | src/analyzer.py:23-42 | A header with all required columns, in any case and with extra columns, gives the records and warnings of the rows. |
| Analyzer.KeptPositions | src/analyzer.py:28-41 | The records select, in order, exactly the outcomes of the successful rows. |
| Analyzer.KeptPlusSkippedIsAllRows | src/analyzer.py:28-41 | Every data row yields either a record or a warning, never both. |
| Analyzer.WarningsNameSkippedRows | src/analyzer.py:28-41 | Each warning names a data row, numbered from 2 because the header is row 1, that was skipped for the stated reason. Warnings come in row order, and every skipped row has one. |
| Analyzer.SuccessfulRowRecord | src/analyzer.py:30-39 | A record holds its row's stripped, non-empty description, and a real day written exactly as the row's stripped date. Its amount is the value of the row's stripped amount. |
| Analyzer.RecordsComeFromTheirRows | src/analyzer.py:28-41 | Each output record is the record of the data row it came from. |
| Analyzer.HeaderCaseInsensitive | src/analyzer.py:23-26 | Two headers whose column names lower-case alike, position by position, give the same result for any rows. |
| Analyzer.LoweredHeaderLoadsAlike | src/analyzer.py:23-26 | A header gives the same result as its lower-cased copy. |
| Analyzer.MissingDescriptionExample | src/analyzer.py:23-26 | The header `date,amount` is rejected, naming only `description`. |
| Analyzer.NoDateKeyIsMissingFields | src/analyzer.py:30-35 | A row without a `date` key is skipped for missing fields. |
| Analyzer.NoDateKeyRows | src/analyzer.py:28-35 | Rows that all lack a `date` key give no records and one missing-fields warning each. |
| Analyzer.CapitalisedHeaderSkipsEveryRow | src/analyzer.py:23-35 | The header `Date,Description,Amount` passes the check. Every row keyed by it is then skipped for missing fields. |
| Stats.Income | src/stats.py:28-37 | A month's income, the sum of its positive amounts, is never negative. |
| Stats.Expenses | src/stats.py:29-52 | A month's expenses, the sum of its other amounts, is never positive. |
| Stats.CategorySpend | src/stats.py:56 | The magnitude spent on a category is never negative. |
| Stats.SummarizeMonth | src/stats.py:28-75 | The inner loop computes exactly the month's summary, including its categories map. |
| Stats.GroupByMonth | src/stats.py:21-24 | The groups are exactly the months of the entries, and each holds that month's entries in input order. The months are listed once each. Each listed month has an entry that comes before every entry of each later-listed month. |
| Stats.MonthOrderLists | src/stats.py:21-24 | The key order `GroupByMonth` produces lists every month of the entries, each once. |
| Stats.MonthOrderIsFirstAppearance | src/stats.py:21-24 | In that key order, each month has an entry that comes before every entry of each later-listed month, which is first-appearance order. |
| Stats.SummarizeGroups | src/stats.py:27-75 | The loop over the groups gives one summary per group, each computed from that group's entries. |
| Stats.GetMonthlySummary | src/stats.py:5-77 | The result holds exactly one summary per month of the input, each computed from that month's entries. |
| Stats.MonthsIff | src/stats.py:21-24 | A month gets a group exactly when some transaction is dated in it. |
| Stats.SummaryKeysAreEntryMonths | src/stats.py:21-68 | The summary has a key for a month exactly when some transaction is dated in that month. |
| Stats.EachEntryInOneMonth | src/stats.py:22-24 | Every transaction falls into exactly one month. Month `k` holds each occurrence of a transaction dated in `k`, and nothing else. |
| Stats.InMonthMembers | src/stats.py:22-24 | A month's list holds exactly the transactions dated in it. |
| Stats.IncomePlusExpensesIsTotal | src/stats.py:36-52 | Every amount counts as income or as expense, never both. Together the two are the sum of all amounts. |
| Stats.NoIncomeIff | src/stats.py:36-65 | A month has zero income exactly when none of its amounts is positive. |
| Stats.RateAtMostHundred | src/stats.py:63-66 | With positive income and savings no higher than income, the rate is `savings / income * 100`. It is at most 100, and exactly 100 when savings equal income. |
| Stats.SummaryFacts | src/stats.py:28-75 | Income is at least 0 and expenses at most 0. Savings are income plus expenses, which is the month's total. Without income the rate is 0. With income the rate is `savings / income * 100`, at most 100, and exactly 100 when there are no expenses. |
| Stats.RateNegativeIffOverspent | src/stats.py:14-66 | With positive income, the rate is negative exactly when the expenses exceed the income. So the documented 0-100 range fails for such a month. |
| Stats.OverspentExample | src/stats.py:58-66 | Income 100 and an expense of -300 give a rate of -200. |
| Stats.CategoryKeysAreExpenseLabels | src/stats.py:30-56 | The categories map has a key for a label exactly when some non-positive transaction of the month carries it. Positive transactions add no key. |
| Stats.CategoryTotalsSumToExpenses | src/stats.py:30-56 | Every category total is at least 0. Together the totals are the month's expenses with the sign flipped. |
| Stats.TotalSavingsIsTotalAmount | src/stats.py:22-61 | Summed over all months, savings equal the sum of all input amounts. |
| Stats.WorkedExample | src/stats.py:58-66 | Income 1000 and an expense of -300 give savings 700, a rate of 70, and 300 spent on that category. |
| Stats.NoIncomeExample | src/stats.py:56-65 | A month without income has rate 0. A zero amount adds its category with total 0. |
| Stats.SummarizeSingle | src/stats.py:28-75 | A month of one positive entry has that income, no expenses, savings equal to it, a rate of 100 and no categories. A month of one other entry has that expense, savings equal to it, a rate of 0 and one category holding its magnitude. |
| Stats.TwoMonthsExample | src/stats.py:21-68 | Transactions in two months give two keys, each holding its own month's summary. |
| Pipeline.RunAnalysis | src/stats.py:5-77 | Load, then label, then summarise, computes exactly `Analyze`. The loader's error passes through. |
| Pipeline.LabellingKeepsAmounts | src/stats.py:33 | Labelling keeps every record, in order, with its date, description and amount unchanged. So the total amount is unchanged too. |
| Pipeline.LabelsOfEntries | src/categories.py:21-30 | Every labelled record carries one of the eight labels. It is Income exactly when its amount is positive. |
| Pipeline.CategoryKeysAreExpenseLabelsOnly | src/stats.py:36-56 | No month's categories map ever has an Income key. Every key is a label the categoriser can return. |
| Pipeline.SavingsAddUpToLoadedAmounts | src/stats.py:22-61 | Over all months, savings add up to the sum of every loaded amount. |

## Left out

- File I/O: opening the file, UTF-8 decoding, and the `csv` tokeniser. The model starts from the header list and the row dictionaries that `csv.DictReader` yields.
- The console output: the text of the warnings and the error message, and the `', '.join` formatting. Warnings are returned as data, and the error carries the sorted list of missing names.
- The `main` functions and `argparse`.
- Utils.ParseAmount: does not model the rest of Python's `float()` grammar: exponents, `inf` and `nan`, underscores, surrounding whitespace and non-ASCII digits. Only a plain signed decimal literal is modelled.
- Stats.Income, Stats.Expenses, Stats.SummaryFacts: do not model IEEE-754 rounding or overflow. Amounts, sums and the savings rate are exact reals, so equalities such as savings being the total hold exactly in the model, but only up to rounding in the program. A literal above about 1.8e308 gives `inf` from `float()`, and a sum can overflow to `inf`. The rate at src/stats.py:66 can then be `inf/inf*100`, which is `nan`. The model has no such values.
- Utils.ParseDate: does not model `strptime`'s leniency. It accepts only the zero-padded form, not single-digit months or days, and no non-ASCII digits.
- Text.Lower: does not model lower-casing outside ASCII. Only two non-ASCII characters lower to text with an ASCII letter in it. U+212A (Kelvin sign) lowers to `k`, which none of `date`, `description` or `amount` contains. U+0130 lowers to `i` followed by the combining mark U+0307, and that mark stays in the name. So no header name with a non-ASCII character lowers to a required name, and the required-column check comes out the same.
- Utils.NormalizeText: is an assumption, because src/utils.py defines no `normalize_text`. `Categorize` is stated for any normaliser passed in.
- The `"%Y-%m"` string form of the month key, including how `strftime` pads years below 1000. Months are keyed by the `(year, month)` pair.
- The ordering of the summary's keys. The result is a map. `GroupByMonth` does return the order of first appearance (`Stats.MonthOrderIsFirstAppearance`).
- Exceptions inside the row loop other than the date and amount parse failures. The loop's `except Exception` would catch any of them and skip the row, but the model raises none.
- The `KeyError` that `get_monthly_summary` raises at src/stats.py:34 when given the loader's records, which carry no `category`. Nothing catches it. The model composes the stages with the categoriser in between instead.
