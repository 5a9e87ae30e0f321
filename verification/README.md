# Customer ETL: cleaning rules and idempotent load, in Dafny

This project models the transform-and-load core of a daily Airflow job
(`postgresql_ETL.py`) that moves customer rows from a CSV file into the
PostgreSQL table `customer_data`.

* **Normalizer** (`normalize.dfy`, module `Normalize`): the per-field rules
  of `transform_data`. They cover the country alias table with Python's
  `strip()`/`lower()`, the phone pattern `\d{3}.*\d{4}` searched with
  `re.search`, the extension removal `re.sub(r'[xX].*$', '', phone)`, and the
  coercion of TotalSpent to its absolute value.
* **Cleaner** (`cleaner.dfy`, module `Cleaner`): `transform_data` as a pure
  function `Transform` on a sequence of `Row`s. It runs the steps in source
  order: drop incomplete rows, drop duplicate (CustomerID, Email) keys,
  map the country, coerce the amount, keep positive amounts, keep valid
  phones, strip extensions. A second description, `Selected`, says which
  input rows survive and what each becomes. The theorem
  `TransformSelectsSurvivors` proves that the two agree on every input.
  `TransformData` is the step as it runs, including the case where it
  raises.
* **Loader** (`loader.dfy`, module `Loader`): the loop of `load_data`. The
  method `Load` runs one `INSERT ... ON CONFLICT (CustomerID) DO NOTHING`
  per row over a `map<int, Row>` and commits once at the end. If any
  statement raises, nothing is committed. `InsertAll` is the function the
  loop is proved against.
* **Pipeline** (`pipeline.dfy`, module `Pipeline`): `DailyRun`, transform
  followed by load, and worked examples.
* `wrappers.dfy`: the `Option` type. A cell that pandas reads as NaN is `None`.

Behaviour of the code that is easy to misread:

* Only missing cells are dropped at line 30. A present but blank name,
  e-mail or phone is kept.
* De-duplication runs before the amount and phone filters. If the first row
  with a given (CustomerID, Email) is dropped later, no later duplicate
  takes its place, so the key can vanish entirely. Two rows with that key
  do not always leave exactly one survivor.
* `transform_data` raises when no row reaches the phone filter at line 45.
  Examples: an empty file, only incomplete rows, or no first row of a key
  with a positive amount. On an empty frame, `apply` returns an empty
  mask of object type, and pandas reads that mask as a list of column
  labels. The frame left has no columns, and `data['Phone']` at line 48
  raises KeyError. The load task then never runs. When rows reach line 45
  but every phone fails the check, the step succeeds with no rows.
* The comment at line 47 says the extension is kept. The code removes it.
* `$` in the extension pattern matches only at the end of the value or
  before one final line break, and `.` does not cross a line break. So on a
  value with line breaks, only an `x`/`X` in the last line is removed. On
  such values the clean-up is not idempotent: `"ax\nx"` becomes `"ax\n"`,
  and cleaning that again gives `"a\n"`.
* The transaction is all or nothing. The only `conn.commit()` comes after
  the loop, so an INSERT that raises leaves the stored table as it was.

## Model

| member | source | states |
|---|---|---|
| `Normalize.TrimStart` | postgresql_ETL.py:37 | removes exactly the leading characters for which Python's `str.isspace()` holds; the result is a suffix of the input and starts with a non-space |
| `Normalize.TrimEnd` | postgresql_ETL.py:37 | removes exactly the trailing white space; the result is a prefix of the input and ends with a non-space |
| `Normalize.StripUnique` | postgresql_ETL.py:37 | `Strip` (Python's `strip()`) cuts the value exactly at its first and its last character that is not white space, and an all-space value becomes empty |
| `Normalize.NormalizeCountry` | postgresql_ETL.py:33-37 | a missing country stays missing; otherwise the result is the original value or one of the alias table's canonical names |
| `Normalize.LookupKeyMatchesPaddedSpelling` | postgresql_ETL.py:37 | the stripped, lower-cased value equals a key exactly when the value spells that key up to white-space padding and letter case |
| `Normalize.NormalizeCountryMeaning` | postgresql_ETL.py:33-37 | for every alias, a value that spells it up to padding and case is mapped to the alias's canonical name, and only such values have that alias as their lookup key |
| `Normalize.NormalizeCountryPaddedAlias` | postgresql_ETL.py:37 | any white-space padding around any capitalisation of an alias gives the alias's canonical name |
| `Normalize.NormalizeCountryFallback` | postgresql_ETL.py:37 | a value that spells no alias is returned unchanged, untrimmed and in its original case |
| `Normalize.CanonicalNameIsFixed` | postgresql_ETL.py:33-37 | every canonical name ("United States", "United Kingdom", "Canada") maps to itself |
| `Normalize.NormalizeCountryIdempotent` | postgresql_ETL.py:33-37 | mapping an already mapped country changes nothing |
| `Normalize.TailMatchesMeaning` | postgresql_ETL.py:43 | `TailMatches`, the backtracking match of `.*\d{4}`, succeeds exactly when four digits follow a gap without a line break |
| `Normalize.IsValidPhoneMeaning` | postgresql_ETL.py:42-43 | `IsValidPhone` (`is_valid_phone`) holds exactly when some position has three digits, followed later on the same line by four digits |
| `Normalize.MatchEnd` | postgresql_ETL.py:48 | `$` ends a match at the end of the value or just before one final line break |
| `Normalize.LineStart` | postgresql_ETL.py:48 | the start of the line that ends at the match end: no line break after it, a line break just before it |
| `Normalize.FirstMark` | postgresql_ETL.py:48 | the first `x`/`X` at or after the line start, or the match end when there is none |
| `Normalize.StripExtension` | postgresql_ETL.py:48 | never lengthens the phone; on a one-line phone the result is the prefix before the first `x`/`X` (the whole phone if there is none), holds no `x`/`X`, and is followed in the input by an `x`/`X` whenever it is shorter |
| `Normalize.StripExtensionIdempotent` | postgresql_ETL.py:48 | on a one-line phone, removing the extension twice equals removing it once |
| `Normalize.StripExtensionTwiceAcrossLines` | postgresql_ETL.py:48 | across lines the clean-up is not idempotent: `"ax\nx"` gives `"ax\n"`, which gives `"a\n"` |
| `Normalize.CoerceAmount` | postgresql_ETL.py:39 | a number becomes its absolute value (non-negative, equal to the number or its negation); missing or `Unparseable` text becomes NaN, and nothing stays unparseable |
| `Normalize.CoercedPositive` | postgresql_ETL.py:39-40 | a cell passes coercion and the `> 0` filter exactly when it is a non-zero number, so 0 and -0 are dropped |
| `Cleaner.Filter` | postgresql_ETL.py:40 | boolean-mask selection: a row is in the result exactly when it is in the input and satisfies the mask; never more rows than the input |
| `Cleaner.FilterSnoc` | postgresql_ETL.py:40 | selection keeps input order and multiplicity: one more input row adds that row at the end exactly when it satisfies the mask |
| `Cleaner.DropIncomplete` | postgresql_ETL.py:30 | `dropna`: a row is kept exactly when it is in the input and has first name, last name, e-mail and phone |
| `Cleaner.DropDuplicates` | postgresql_ETL.py:31 | `drop_duplicates`: only input rows, no two with the same (CustomerID, Email), and every input key still present |
| `Cleaner.DuplicatedAmongComplete` | postgresql_ETL.py:30-31 | after `dropna`, a row is marked duplicated exactly when an earlier complete row has its (CustomerID, Email) |
| `Cleaner.DedupSnoc` | postgresql_ETL.py:30-31 | the de-duplicated complete rows of a prefix grow by the next row exactly when it is complete and the first of its key |
| `Cleaner.StripPhone` | postgresql_ETL.py:48 | a present phone stays present, is never longer, and is the phone with its extension removed; a missing phone stays missing |
| `Cleaner.AfterDedupSnoc` | postgresql_ETL.py:33-48 | the steps after de-duplication treat each row on its own: a row appears, finished, exactly when its amount is positive and its phone valid |
| `Cleaner.AfterDedupClean` | postgresql_ETL.py:33-48 | after the country, amount, phone steps, rows that were complete stay complete and every amount is a number greater than zero |
| `Cleaner.Transform` | postgresql_ETL.py:26-51 | `transform_data`: never more rows than the input, and every cleaned row has first name, last name, e-mail and phone (country may be missing) and a TotalSpent that is a number greater than zero |
| `Cleaner.TransformData` | postgresql_ETL.py:26-51 | `transform_data` as it runs: when it succeeds, its result is the cleaned batch; when it raises (KeyError at line 48), the cleaned batch would have been empty |
| `Cleaner.TransformRaisesExactly` | postgresql_ETL.py:30-48 | the step raises exactly when no input row is complete, the first complete row of its key and carries a positive amount |
| `Cleaner.PricedPrefix` | postgresql_ETL.py:30-45 | on every prefix of the input, no row reaches the phone filter exactly when no row of the prefix passes the steps before it |
| `Cleaner.Finish` | postgresql_ETL.py:37-48 | a surviving row keeps its key and names |
| `Cleaner.Survivors` | postgresql_ETL.py:30-45 | the positions of the surviving rows, strictly increasing, and every surviving position is listed |
| `Cleaner.PickedSurvivors` | postgresql_ETL.py:30-45 | the rows picked at the surviving positions are exactly the finished surviving rows |
| `Cleaner.Selected` | postgresql_ETL.py:30-48 | the second description: never more rows than the input, every row is the finished form of a row that `Survives` (complete, first of its key, positive amount, valid raw phone), and every such row is there |
| `Cleaner.TransformPrefix` | postgresql_ETL.py:30-48 | on every prefix of the input, the pipeline equals the finished survivors of that prefix |
| `Cleaner.TransformSelectsSurvivors` | postgresql_ETL.py:26-51 | the cleaned batch is exactly the finished surviving rows in input order: complete, first of their key, positive amount, valid raw phone |
| `Cleaner.CleanedRowOrigin` | postgresql_ETL.py:30-48 | every cleaned row is the finished form of a surviving input row; nothing is invented |
| `Cleaner.CleanedOrderPreserved` | postgresql_ETL.py:30-48 | the cleaned batch is a subsequence of the input: earlier output rows come from earlier input rows |
| `Cleaner.SurvivorKeysDistinct` | postgresql_ETL.py:31 | two surviving rows never share a (CustomerID, Email) |
| `Cleaner.OnlyFirstOfKeySurvives` | postgresql_ETL.py:31 | when the first complete row of a key exists, no other row with that key survives |
| `Cleaner.CleanedKeysUnique` | postgresql_ETL.py:31 | no two cleaned rows share a (CustomerID, Email) |
| `Cleaner.CleanedKeepsFirstOccurrence` | postgresql_ETL.py:31-45 | a key is in the output exactly when its first complete input row passes the amount and phone filters, and then only as that row's finished form |
| `Cleaner.CleanedRowOfFirstKey` | postgresql_ETL.py:31-45 | a cleaned row with the key of a first complete row is that row, finished, and that row survives |
| `Cleaner.SurvivorIsCleaned` | postgresql_ETL.py:30-48 | every surviving row is in the cleaned batch in its finished form |
| `Loader.InsertIgnore` | postgresql_ETL.py:62-67 | insert-if-absent: the new key is added with the row; existing keys keep their rows |
| `Loader.InsertAll` | postgresql_ETL.py:61-72 | the loop's specification: after loading, the keys are the old keys plus the batch's CustomerIDs, and a row already in the table is never replaced |
| `Loader.IdsMembers` | postgresql_ETL.py:69 | `Ids` holds exactly the CustomerIDs of the batch's rows |
| `Loader.NewRows` | postgresql_ETL.py:67 | the batch rows whose CustomerID the table does not hold |
| `Loader.Load` | postgresql_ETL.py:61-74 | commits exactly when no INSERT fails, and then stores the batch inserted in order; otherwise reports the first failing row and commits nothing |
| `Loader.InsertAllFirstWins` | postgresql_ETL.py:61-72 | a new CustomerID receives the first batch row that carries it |
| `Loader.FirstRowWithId` | postgresql_ETL.py:61-69 | every CustomerID the batch carries has a first row carrying it |
| `Loader.InsertAllNewRow` | postgresql_ETL.py:61-72 | a CustomerID that the load adds holds the first batch row carrying it |
| `Loader.InsertAllPresent` | postgresql_ETL.py:67 | a batch whose CustomerIDs are all present changes nothing |
| `Loader.InsertAllIdempotent` | postgresql_ETL.py:61-72 | loading the same batch twice leaves the table as loading it once |
| `Loader.InsertAllSkipsLoaded` | postgresql_ETL.py:61-72 | loading a batch equals loading only its rows with CustomerIDs new to the table |
| `Loader.SkipLoadedRow` | postgresql_ETL.py:67 | a row whose CustomerID was in the table before the batch is a no-op wherever it stands |
| `Pipeline.DailyRerunIdempotent` | postgresql_ETL.py:26-74 | running the daily job twice on the same raw file leaves the table as one run does |
| `Pipeline.DailyRun` | postgresql_ETL.py:26-74 | one run of transform then load, with no INSERT failing. The table equals the old table with the cleaned batch inserted. This also holds when the transform raises and, by the task order at line 142, the load never runs |
| `Pipeline.DailyRunContents` | postgresql_ETL.py:26-74 | after a run, a CustomerID the table held before keeps its old row. Any other stored CustomerID holds the finished form of the first surviving raw row with that CustomerID |
| `Pipeline.FirstSurvivorWithId` | postgresql_ETL.py:30-69 | a cleaned row that is the first with its CustomerID comes from a surviving raw row, and no earlier surviving raw row has that CustomerID |
| `Pipeline.DailyRunStoresSurvivors` | postgresql_ETL.py:26-74 | after a run, the CustomerID of every surviving raw row is in the table |
| `Pipeline.EmptyFileRaises` | postgresql_ETL.py:45-48 | a file with no rows makes the transform raise, and the run leaves the table unchanged |
| `Pipeline.CountryExamples` | postgresql_ETL.py:33-37 | " US ", " us ", "us" and "US" all become "United States" |
| `Pipeline.UsSpelling` | postgresql_ETL.py:37 | any white-space padding before and any after (each possibly empty) around any capitalisation of "us" becomes "United States" |
| `Pipeline.CountryFallbackExample` | postgresql_ETL.py:37 | "France" stays "France" |
| `Pipeline.PhoneWithExtensionExample` | postgresql_ETL.py:42-48 | "555-123-4567x89" is valid and is cleaned to "555-123-4567" |
| `Pipeline.ShortPhoneExample` | postgresql_ETL.py:42-45 | "12-34" is rejected |
| `Pipeline.LeadingMarkExample` | postgresql_ETL.py:42-48 | "x5551234567" is valid and is cleaned to the empty string |
| `Pipeline.SameIdDifferentEmail` | postgresql_ETL.py:31-67 | two clean rows with one CustomerID and different e-mails both survive cleaning, and only the first is stored |
| `Pipeline.SameIdAmounts` | postgresql_ETL.py:39-40 | amounts -50.5 and 30 on such rows are cleaned to 50.5 and 30 |

## Left out

- The CSV round trip between the steps (lines 50 and 59): an empty cleaned phone, such as the one `LeadingMarkExample` produces, or a missing Country is written as an empty cell and read back as NaN, and that NaN is what the INSERT receives. The model passes the cleaned rows to the load unchanged, so it states what is cleaned, not this re-read value.
- CSV reading and writing (`extract_csv_data`, lines 20-23; the temporary files at lines 27, 50 and 59) and every `print`: the model takes the parsed rows as a sequence and returns the cleaned sequence.
- pandas' reading of cells: empty cells and the default NA strings ("NA", "null", ...) arrive as `None`; a TotalSpent cell arrives either as a number or as text that does not parse (`AmountCell`); parsing numeric text is not modelled.
- pandas type inference: CustomerID is always an integer (the `int(...)` truncation at line 69 and a missing CustomerID are not modelled). Phone and Country are always text. A phone column holding only whole numbers would be read as integers, or as floats when a cell is missing. `str(...)` then loses leading zeros, and on floats it also adds ".0". A Country column that is empty in every row is read as floats, and the `.str` accessor at line 37 then raises. The re-read of the cleaned file at line 59 may infer types again.
- Floating point: amounts are exact reals. The model does not cover float64 rounding in `to_numeric`, the texts "inf"/"nan", `float(...)` at line 71, or rounding to `NUMERIC(10,2)`.
- Unicode: `\d` is taken as the ASCII digits, while Python also accepts other decimal digits. Lower-casing covers the ASCII capitals and the KELVIN SIGN. These are the only characters that lower-case to a letter of an alias, so the alias decision is exact; other characters keep their case.
- `Cleaner.StripPhone` maps a missing phone to a missing phone, while `astype(str)` would give "nan". No missing phone reaches that step, because line 30 drops such rows.
- The database connection, cursor and close (lines 55-57, 75-76) and the `CREATE TABLE` statement (lines 97-106). Any reason an INSERT raises (a value too long for its column, a numeric overflow, a lost connection) is a parameter `fails` of `Load`.
- The DAG (lines 11-17, 80-144): the file check, the retries, and the success and failure e-mails. Of the task order, `DailyRun` models only that the load runs after a successful transform.
