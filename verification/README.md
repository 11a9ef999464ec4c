# Expense ETL transform, modelled in Dafny

This project models the transform core of the expense pipeline in `etl.py`.
That script reads every bank-export CSV in `data/raw`, in sorted path order. For each file it:

- normalizes the header names and insists on `date`, `description` and `amount`;
- coerces the dates (`%m/%d/%Y`) and the amounts, and drops the rows where either fails;
- derives a merchant label and a spending category from the description through an ordered keyword table;
- stamps each row with the file's base name and appends the non-empty frames to the warehouse table, keeping a running row count.

The modules follow that structure:

- `AsciiText`: the Python string primitives the code relies on (`strip`, `upper`, `lower`, `title`, `split`, `in`).
- `Digits`: decimal digit strings.
- `Keywords`: `CATEGORY_MAP` and the first-match scan.
- `Merchant`: `normalize_merchant` and `categorize`.
- `Schema`: the header check.
- `Dates`: `to_datetime` with the format.
- `Amounts`: `to_numeric` on one cell.
- `Paths`: `basename` and Python's string order.
- `Transform`: `read_and_transform`.
- `Pipeline`: `main`.

The keyword table is a parameter (`KeywordTable`, an ordered sequence of keyword/category pairs). `Keywords.CategoryMap` is the repository's table, in the order a Python dict iterates its literal. When a description holds several keywords, only the first one in table order counts. A description that merely contains some later keyword therefore does not always normalize to that keyword. The model follows the code (etl.py:38-40) and proves the first-match behaviour (`Merchant.NormalizeKeyword`, `Merchant.TablePriorityExample`).

The file system, the CSV reader and the database are replaced by values:

- A file is a `SourceFile`: a path plus a `Csv` holding the raw header and rows of optional cells. A missing cell is pandas' NaN.
- A run's result is an `Outcome`: no files; completed with the list of frames appended and the total; or aborted with the frames appended so far, the failing path and its missing columns.

## Model

| member | source | states |
|---|---|---|
| Keywords.CategoryEntries | etl.py:23-31 | the table has seven entries; every key is a run of upper-case letters, and no two keys are alike, as dict keys never are |
| Keywords.FirstMatch | etl.py:38-40 | the scan returns an entry whose keyword occurs in the text and no earlier entry's keyword occurs; None means no keyword of the table occurs |
| Keywords.FirstMatchFinds | etl.py:38-40 | whenever entry i is the first entry contained in the text, the scan returns exactly i |
| Keywords.FirstMatchOfPiece | etl.py:38-49 | a piece of the text that still holds the first-matching keyword has that same first match |
| Keywords.NoMatchOfPiece | etl.py:38-50 | a piece of a text that holds no keyword holds no keyword either |
| Merchant.NormalizeMerchant | etl.py:33-41 | the merchant is null exactly for a non-string cell or a description that is blank after stripping; otherwise it is a non-empty label without whitespace |
| Merchant.Categorize | etl.py:43-50 | the category is null exactly for a null or empty merchant; otherwise it is the category of the first entry whose keyword occurs in the upper-cased merchant, or "Other" when no keyword occurs |
| Merchant.NormalizeKeyword | etl.py:37-40 | when entry i is the first keyword found in the stripped, upper-cased description, the merchant is that keyword in title case |
| Merchant.NormalizeFallback | etl.py:37-41 | when no keyword occurs in a non-blank description, the merchant is the first whitespace-delimited word of the title-cased, stripped, upper-cased text |
| Merchant.KeywordLabel | etl.py:40-49 | a keyword's title-cased label upper-cases back to the keyword, has no whitespace, and is matched by its own table entry first |
| Merchant.CategoryNullIffMerchantNull | etl.py:35-45 | after normalization, the category is null exactly when the merchant is null |
| Merchant.KeywordMerchantCategory | etl.py:37-49 | a description whose first keyword is entry i is classified into entry i's category |
| Merchant.FallbackMerchantCategory | etl.py:41-50 | a non-blank description without keywords is always classified "Other", because its first word holds no keyword |
| Merchant.CategoryOfDescription | etl.py:33-50 | every description has one of three outcomes: null when blank or missing; the first matching keyword's category; or "Other" when nothing matches |
| Merchant.NormalizeIdempotent | etl.py:33-41 | normalization is idempotent: normalizing the merchant label of any description gives that label back, and a null label stays null |
| Merchant.FirstWordLabelStable | etl.py:41 | a first-word label of a keyword-free text normalizes to itself |
| Merchant.KeywordLabelStable | etl.py:40 | a keyword label normalizes to itself |
| Merchant.CategoryMapEntries | etl.py:23-31 | the table entries the examples rely on: NETFLIX is first (Entertainment) and UBER is fourth (Transport) |
| Merchant.UberEatsExample | etl.py:23-50 | "UBER EATS 123" gives merchant "Uber" and category "Transport" |
| Merchant.TablePriorityExample | etl.py:23-40 | "spotify via netflix" gives "Netflix": the earlier table entry wins over the keyword that comes first in the text |
| Merchant.FirstWordExample | etl.py:33-50 | " joe's coffee " gives merchant "Joe'S" (Python's title case capitalizes after the apostrophe) and category "Other" |
| Merchant.BlankExample | etl.py:35-45 | a whitespace-only or missing description gives no merchant and no category |
| AsciiText.Strip | etl.py:37 | the result is empty exactly when the text is all whitespace; otherwise it neither starts nor ends with whitespace |
| AsciiText.StripUnique | etl.py:37 | stripping removes exactly the surrounding whitespace of any text padded with whitespace |
| AsciiText.Lower | etl.py:55 | same length, same letters up to case, no upper-case letter left, whitespace where the input had it |
| AsciiText.Upper | etl.py:37 | same length, same letters up to case, no lower-case letter left, whitespace where the input had it |
| AsciiText.Title | etl.py:40-41 | only letter case changes; a letter is upper-case exactly when no letter precedes it directly |
| AsciiText.UpperOfTitle | etl.py:40-46 | upper-casing a title-cased text gives the upper-cased text |
| AsciiText.TitleOfPrefix | etl.py:41 | title case commutes with taking a prefix |
| AsciiText.Split | etl.py:41 | the words are non-empty and whitespace-free; there are none exactly for an all-whitespace text; the first word of a text starting with a non-space is its longest space-free prefix |
| AsciiText.SplitKeepsEveryNonSpace | etl.py:41 | the words concatenated are the text with its whitespace deleted |
| AsciiText.FirstWordUnique | etl.py:41 | a text has only one first word |
| AsciiText.ContainsTransitive | etl.py:39 | a substring of a substring is a substring |
| Schema.NormalizeHeader | etl.py:55 | a normalized name has no upper-case letter and no surrounding whitespace |
| Schema.NormalizeHeaders | etl.py:55 | one normalized name per header entry, in header order |
| Schema.HeaderPaddingAndCase | etl.py:55 | whitespace around a name is dropped and its letters are lower-cased |
| Schema.CheckColumns | etl.py:55-60 | on success, the normalized column names; on failure, an error naming the file and a non-empty set of required columns |
| Schema.CheckColumnsSpec | etl.py:57-60 | the check passes exactly when every required name is some column's normalized name; on failure the error lists exactly the required names that no column has |
| Schema.ExtraColumnsHarmless | etl.py:57-59 | extra columns never make the check fail and can only shrink the missing set |
| Schema.ColumnOrderIrrelevant | etl.py:55-59 | reordering the header does not change the verdict or the error |
| Schema.ColumnIndex | etl.py:63-64 | the first position holding the name, or none exactly when no column has it |
| Schema.PaddedHeaderExample | etl.py:55 | " Date " normalizes to "date" |
| Schema.MissingAmountExample | etl.py:57-60 | a header of date, description and memo fails, naming exactly {"amount"} |
| Dates.ParseDate | etl.py:63 | a parsed date is a real calendar day inside the nanosecond Timestamp range |
| Dates.MonthFieldSpec | etl.py:63 | the %m field reads month m from exactly its spellings: one digit, or two digits with an optional leading zero |
| Dates.DayFieldSpec | etl.py:63 | the %d field reads day d from exactly its spellings, a space-padded single digit included |
| Dates.YearFieldSpec | etl.py:63 | the %Y field reads year y exactly from its four-digit spelling |
| Dates.ParseDateSpec | etl.py:63 | a cell parses to a date exactly when it spells that date in month/day/year form and the date is real and in range; anything else is a missing date |
| Dates.FormatThenParse | etl.py:63 | every date in range, written MM/DD/YYYY, parses back to itself |
| Dates.ParseThenFormat | etl.py:63 | a parsed cell and the canonical spelling of its date both spell that date |
| Dates.ParseOfFields | etl.py:63 | three fields reading as a date's numbers give that date exactly when it is real and in range |
| Dates.CanonicalExample | etl.py:63 | "01/15/2024" parses to 15 January 2024 |
| Dates.ShortFieldsExample | etl.py:63 | "1/5/2024" and "1/ 5/2024" both parse to 5 January 2024 |
| Dates.NotALeapYearExample | etl.py:63 | 29 February is missing in 2023 but accepted in 2024 |
| Dates.OutOfRangeExample | etl.py:63 | a real day before the Timestamp range (in 1500) is coerced to a missing date |
| Dates.WrongShapeExample | etl.py:63 | ISO dates, a thirteenth month and two-digit years are coerced to a missing date |
| Amounts.ParseAmount | etl.py:64 | blank cells and cells holding an information-separator control character are coerced to a missing amount |
| Amounts.LiteralAccepted | etl.py:64 | every unsigned decimal literal (digits with at most one point and at least one digit) is accepted |
| Amounts.AcceptedIsLiteral | etl.py:64 | only unsigned decimal literals are accepted |
| Amounts.UnsignedAccepts | etl.py:64 | the unsigned reader accepts a text exactly when it is an unsigned decimal literal |
| Amounts.SignedAccepts | etl.py:64 | the signed reader accepts a text exactly when it is an unsigned literal, optionally preceded by one + or - sign |
| Amounts.AmountAccepts | etl.py:64 | a cell is read as a number exactly when it holds no information-separator control and, once stripped, is an optionally signed decimal literal; every other cell becomes a missing amount |
| Amounts.PointedDigits | etl.py:64 | digits, a point and digits, either side possibly empty but not both, read as all the digits taken together with one decimal place per fraction digit |
| Amounts.SignedReading | etl.py:64 | a leading "+" keeps and a leading "-" negates the value of the unsigned literal after it, scale unchanged |
| Amounts.SignedWholeValue | etl.py:64 | an optionally signed run of digits reads as that whole number with its sign |
| Amounts.SignedPointedValue | etl.py:64 | an optionally signed literal with a point, such as ".5", "5." or "-0.25", reads as its digits over ten to the number of fraction digits, with its sign |
| Amounts.ZeroPaddedValue | etl.py:64 | leading zeros do not change an amount: "007" reads as 7 |
| Amounts.FormatThenParse | etl.py:64 | every decimal, written out plainly, reads back as itself, scale included |
| Amounts.PaddingIgnored | etl.py:64 | whitespace around a literal does not change the amount it denotes |
| Amounts.PaddedFormatThenParse | etl.py:64 | a written decimal with whitespace around it still reads back as itself |
| Amounts.PaddedAmountExample | etl.py:64 | " -5.0 " reads as minus five with one decimal place |
| Amounts.RejectedAmountExample | etl.py:64 | "", "abc" and "1,234" are coerced to a missing amount |
| Transform.CoerceDateSpec | etl.py:63 | a cell yields date d exactly when it is present, spells d as month/day/year, d is a real calendar day, and d lies in the Timestamp range |
| Transform.CoerceAmountSpec | etl.py:64 | a cell yields a number exactly when it is present, holds no separator control, and is a signed or unsigned decimal literal once stripped |
| Transform.Project | etl.py:63-73 | one row of date, description and amount cells per CSV row, taken from the first column of each name, with short rows padded by missing cells |
| Transform.KeptRows | etl.py:67 | `dropna` keeps the positions of exactly the rows with both a date and an amount, in increasing order |
| Transform.KeptFromSpec | etl.py:66-67 | the kept positions are increasing, each names a row with both a date and an amount, and every such row is listed |
| Transform.KeptFromCounts | etl.py:66-68 | the kept positions are exactly the surviving rows, and kept plus dropped rows account for every row |
| Transform.Enrich | etl.py:72-76 | a kept row's record has the row's date, amount and description; its merchant is null exactly for a null or blank description and is otherwise a non-empty label without whitespace; its category is null exactly when the merchant is, and is otherwise "Other" or a category of the table; its source is the given file name |
| Transform.FileRecords | etl.py:66-77 | records plus dropped rows equal the input rows, and the dropped count is the number of rows lacking a date or an amount |
| Transform.ReadAndTransform | etl.py:52-77 | it fails exactly when some required column is absent, with an error naming the file and exactly the absent columns; on success, records plus dropped rows equal the file's rows |
| Transform.KeepsIffSurvives | etl.py:63-67 | for a file that passes the column check, a coerced row is kept exactly when its raw date cell and amount cell both parse |
| Transform.SurvivorPositions | etl.py:66-67 | the surviving rows' positions, in file order, with every surviving row listed |
| Transform.KeptAreSurvivors | etl.py:63-67 | for a file that passes the column check, the positions `dropna` keeps name exactly the raw rows whose date and amount cells both parse |
| Transform.RecordsFollowRows | etl.py:63-77 | for a file that passes the column check, record k comes from the k-th surviving row: its parsed date and amount, its description, the merchant and category derived from that description, and the file's base name |
| Transform.DroppedCountsBadRows | etl.py:66-68 | for a file that passes the column check, the dropped count is exactly the number of rows whose date or amount fails to parse |
| Transform.RecordsWellFormed | etl.py:63-76 | for a file that passes the column check, every record has a real date in the Timestamp range and a slash-free source name, and has a category exactly when it has a merchant |
| Paths.Basename | etl.py:76 | the base name is no longer than the path |
| Paths.BasenameIsLastPart | etl.py:76 | the base name is the slash-free suffix of the path that is preceded by a slash or by nothing |
| Paths.BasenameOfSplit | etl.py:76 | a directory ending in a slash plus a slash-free name has that name as its base name |
| Paths.BasenameExample | etl.py:76 | "data/raw/jan.csv" has base name "jan.csv" |
| Paths.NotAboveTotal | etl.py:101 | Python's string order relates every two paths |
| Paths.NotAboveAntisymmetric | etl.py:101 | two paths each ordered before the other are equal |
| Paths.NotAboveTransitive | etl.py:101 | the string order is transitive |
| Pipeline.InsertByPathSorted | etl.py:101 | inserting a file into a sorted listing keeps it sorted |
| Pipeline.SortByPath | etl.py:101 | sorting keeps the number of files |
| Pipeline.SortByPathSorted | etl.py:101 | the sorted listing is in Python's string order of paths |
| Pipeline.InsertByPathPermutes | etl.py:101 | inserting adds exactly the one file |
| Pipeline.SortByPathPermutes | etl.py:101 | sorting keeps every file, as often as it occurs |
| Pipeline.Batch | etl.py:110-113 | a file contributes at most one frame, and never an empty one |
| Pipeline.Results | etl.py:107-109 | one transform result per file, in listing order |
| Pipeline.Main | etl.py:100-115 | the run reports no files exactly when the listing is empty |
| Pipeline.RunLoop | etl.py:106-115 | the loop that accumulates the appended frames and the running total computes the run's outcome |
| Pipeline.RunPipeline | etl.py:100-115 | sorting, the empty-listing exit and the loop together compute the outcome of main |
| Pipeline.Process | etl.py:107-114 | the loop over a non-empty listing either completes or aborts, and hands the loader at most one frame per file |
| Pipeline.ProcessStep | etl.py:107-114 | one turn of the loop: a failing file stops the run with its error; a passing file's frame goes before the rest of the run |
| Pipeline.ProcessCompletes | etl.py:107-114 | the run completes exactly when every file passes the column check; it then appends every record of every file in file order and never hands the loader an empty frame |
| Pipeline.TotalIsRowsLoaded | etl.py:106-115 | the reported total is the number of rows in the frames handed to the loader |
| Pipeline.ProcessAborts | etl.py:107-109 | an aborted run names the first file in path order that fails the column check, and every earlier file passed |

## Left out

- Database configuration and connection (etl.py:1-18) are external state. The model has no database.
- `load_to_postgres` (etl.py:79-98) is modelled only as appending a frame to the run's list of loads. The column types, the chunked multi-row insert and failures of the database are out of scope.
- The `Numeric(12, 2)` column type (etl.py:85) rounds amounts to two decimals and rejects values of absolute value 10^10 or more. That happens inside the database and is not modelled: amounts stay exact.
- `glob` and `read_csv` (etl.py:54, 101) are I/O. The listing and each file's header and rows are parameters.
- The read itself is not modelled, nor its parsing of quotes, delimiters and encodings.
- pandas' default NA spellings ("NA", "null" and similar) read as missing cells are not modelled. A caller passes a missing cell as `None`.
- A description column that pandas types as numbers is not modelled: every present cell is text.
- Duplicate normalized header names are not modelled: the model reads the first column of each name, where pandas would hand over a frame.
- Rows longer than the header are not modelled.
- The progress and summary messages (etl.py:69-70, 103, 108, 111, 115) are output only. The dropped count they print is kept in `FileOutput.dropped`, and the total in `Outcome.total`.
- The Timestamp range is that of pandas 1.x and 2.x, whose `to_datetime` produces nanosecond-resolution timestamps. A pandas that infers a coarser unit would keep dates outside this window, such as the year-1500 date of `Dates.OutOfRangeExample`. `InTimestampRange` compares whole days: the first and last midnights a nanosecond Timestamp can hold are 1677-09-22 and 2262-04-11. That is exact for a format without a time of day.
- Amounts.ParseAmount: accepts only plain decimal literals (optional sign, digits, at most one point). `to_numeric` also reads exponent forms such as "1e3" and the spellings "inf" and "infinity"; these are not modelled and yield a missing amount. Binary floating-point rounding is not modelled either, so an amount is kept exactly as written.
- Dates.ParseDate: accepts ASCII digits only. The strptime patterns behind `%d` and `%Y` match any Unicode decimal digit in the second day digit and in the year, so the source parses "01/15/２０２４", where the model gives a missing date. pandas 2.x also reads the cells "now" and "today" as the current clock time before it applies the format, so such a row survives `dropna` in the source; the model has no clock, gives these cells a missing date and counts the row as dropped.
- Whitespace and letter case are ASCII only: Python's Unicode `isspace`, `upper`, `lower` and `title` are not modelled.
- Windows path separators in `os.path.basename` are not modelled: paths are POSIX.
- Exceptions other than the missing-columns `ValueError` are not modelled, whether from the reader, from the date parser on a non-text column, or from the database. The missing-columns error aborts the run, with the frames loaded so far kept.
