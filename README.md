# SVWS-Anonym: the decisions of the anonymizer, verified

SVWS-Anonym overwrites personal data in a MariaDB schema of the SVWS school
administration server with fake values. This project models its decision
logic (`svws_anonym.py`) in Dafny and proves properties of it. The database,
Faker and the terminal are not modelled. What is modelled:

- **The rule table** (`Rules`): the 25 column-name patterns of
  `_get_anonymization_rules`, in dictionary order. Each is paired with a tag
  naming the generator it calls.
- **Column matching** (`Columns`): the nested loop of `_anonymize_table`.
  A column is selected when some pattern occurs in its lower-cased name, and
  the `break` binds it to the first such pattern. The loop is a method proved
  equal to a recursive selection function, and the properties are proved
  about that function.
- **Row updates** (`Updates`): for each primary-key value, one parameterised
  `UPDATE` statement with one `` `col` = %s `` entry per selected column. Its
  parameters are the generated values followed by the key. A free-text rule
  always writes `Anonymisiert`; the other generators' output is an input.
  The three early returns (no columns, no primary key, no rows) and the row
  counter are modelled too.
- **Schema choice** (`Schemas`): the system-schema filter of `list_schemas`,
  the resolution of one answer in `select_schema`, and its retry loop over
  the answers typed.
- **Prompts** (`Prompts`): how `main` derives host, port, user and password
  from the answers, including Python's `int()` on the port, and the
  yes-words of the final confirmation.
- **Text** (`Text`): the parts of Python's `str` that the source relies on:
  `strip`, `lower`, `isdigit`, `in` on strings, `join`, and decimal notation.

Some readings of the code the model makes explicit:

- A pattern that contains an earlier pattern is never chosen. That holds for
  `familienname`, `rufname`, `geburtsname` and `strassenname` (containing
  `name`), `telefonnummer` (containing `telefon`), and `wohnort` and
  `geburtsort` (containing `ort`). A `Rufname` column therefore receives a
  fake last name.
- In `select_schema`, a digit answer is only ever an index: `0`, or a number
  past the list, is refused even when a schema bears that name.
- The port is whatever `int()` returns. No range check follows, so `-1` and
  `99999` are kept. `int()` also accepts a sign and single underscores
  between digits (`33_06` is 3306).

`example.py` imports a `NameAnonymizer` class that the source does not define;
it is not part of this model.

## Model

| member | source | states |
|---|---|---|
| Rules.FirstMatch | svws_anonym.py:223-229 | the rule a lower-cased column name is bound to: a rule whose pattern occurs in the name, with no earlier pattern occurring; none exactly when no pattern occurs |
| Rules.FirstMatchIsEarliest | svws_anonym.py:226-229 | a pattern that occurs in the name, with no earlier pattern occurring, is the one the loop stops at |
| Rules.Shadowed | svws_anonym.py:226-229 | a rule whose pattern contains an earlier rule's pattern is never chosen, for any column name |
| Rules.ReachableIff | svws_anonym.py:225-229 | a lower-case rule is chosen for some column, whose name is lower-cased before matching, if and only if no earlier pattern occurs in its own pattern |
| Rules.PatternsLowerCase | svws_anonym.py:170-205 | every pattern of the table is lower case, so the reachability criterion applies to each |
| Rules.FixedRulesAnonymized | svws_anonym.py:202-204 | the last three rules (`bemerkung`, `kommentar`, `notiz`) write the fixed value `Anonymisiert`, and no other rule has a fixed value |
| Rules.ShadowedPatterns | svws_anonym.py:170-205 | in the actual table, `familienname`, `rufname`, `telefonnummer`, `strassenname`, `wohnort`, `geburtsort` and `geburtsname` are never chosen |
| Columns.SelectColumns | svws_anonym.py:223-229 | the nested loop with `break` computes exactly the selection function |
| Columns.SelectionSound | svws_anonym.py:224-228 | every selected entry is a column of the table, keeps the original spelling of its name, and is bound to the earliest rule its lower-cased name matches |
| Columns.SelectionComplete | svws_anonym.py:224-228 | every column whose lower-cased name contains some pattern is selected |
| Columns.SelectedIff | svws_anonym.py:223-229 | a column of the table is selected if and only if some pattern occurs in its lower-cased name |
| Columns.SelectionAppend | svws_anonym.py:223-229 | columns are selected one by one in `DESCRIBE` order: the selection of two column lists is the concatenation of their selections |
| Columns.SelectionAtMostOnce | svws_anonym.py:223-229 | with distinct column names, no column is selected twice |
| Columns.RufnameGetsLastName | svws_anonym.py:172-176 | a column whose name contains `rufname`, but neither `nachname` nor `vorname`, is bound to `name` and gets a fake last name |
| Columns.OrtColumnsSelected | svws_anonym.py:192-193 | any column whose lower-cased name contains `ort`, such as `Wohnort`, `Geburtsort` or `Sortierung`, is selected and bound to `ort` or an earlier rule, never to `wohnort` or `geburtsort` |
| Columns.IdNotSelected | svws_anonym.py:224-229 | `ID` matches no pattern and is left alone |
| Updates.RowValues | svws_anonym.py:261-263 | one value per selected column: the rule's fixed text for a fixed rule, else what that column's generator drew |
| Updates.BuildRowUpdate | svws_anonym.py:258-268 | one row's loop issues a statement exactly when some column is selected; its `SET` list has one entry per selected column in selection order, and its parameters are, in the same order, each column's fixed text or the value its generator drew, followed by the key |
| Updates.AnonymizeTable | svws_anonym.py:231-269 | the table is left alone exactly when no column is selected, there is no primary key, or there are no rows, in that order of checks; otherwise one statement per row, in row order, over the first key column, and `count` equals the number of rows |
| Updates.RowStatementShape | svws_anonym.py:261-266 | a row's parameter list has one more entry than there are selected columns, ends with the key, and carries each column's value at that column's position |
| Updates.SetClausePercent | svws_anonym.py:262 | a `SET` entry adds exactly one `%` to the column name |
| Updates.UpdateSqlPercent | svws_anonym.py:267 | the statement adds exactly one `%` to those of the table, the `SET` list and the key column |
| Updates.PlaceholdersMatchParams | svws_anonym.py:262-268 | when no table or column name holds a `%`, the statement has exactly as many placeholders as parameters |
| Schemas.UserSchemas | svws_anonym.py:74-75 | the result is never longer than the listing and holds no system schema |
| Schemas.UserSchemasKeeps | svws_anonym.py:74-75 | exactly the four system schemas are removed: every other name is kept, as often as it occurs |
| Schemas.UserSchemasAppend | svws_anonym.py:75 | the filter keeps order: filtering a concatenation is concatenating the filtered parts |
| Schemas.UserSchemasOfTestListing | test_svws_anonym.py:126-141 | the test's listing of four databases yields `schule_test` and `schule_demo`, in that order |
| Schemas.ResolveChoice | svws_anonym.py:99-108 | an accepted answer always names one of the offered schemas |
| Schemas.ChoiceByNumber | svws_anonym.py:102-105 | the number `n`, for `1 <= n <= |schemas|`, selects the `n`-th schema |
| Schemas.ChoiceByDigits | svws_anonym.py:102-105 | any digit answer in `1..|schemas|`, including leading zeros and surrounding whitespace, selects the schema at that position |
| Schemas.ChoiceDigitsOutOfRange | svws_anonym.py:102-107 | a digit answer outside `1..|schemas|` is refused, even when it is itself a schema name |
| Schemas.ZeroIsRefused | svws_anonym.py:102-105 | the answer `0` is refused whatever the schemas are named |
| Schemas.ChoiceByName | svws_anonym.py:107-108 | an answer that is not a digit string is accepted if and only if it is exactly an offered name, and then names itself |
| Schemas.SelectSchema | svws_anonym.py:87-113 | it gives up exactly when no user schema exists; otherwise it chooses the schema of the first answer that resolves, and every earlier answer was refused |
| Prompts.ParseInt | svws_anonym.py:289 | `int()` refuses the empty string |
| Prompts.ParseIntSigned | svws_anonym.py:289 | `int()` reads every digit string, leading zeros included, as its value, and with `-` or `+` in front as its value with that sign |
| Prompts.ParseIntRejects | svws_anonym.py:289 | `int()` refuses any string holding a character that is not a digit, an underscore or a leading sign |
| Prompts.ParseIntUnderscore | svws_anonym.py:289 | one underscore between two digit runs is accepted and ignored |
| Prompts.ParseDefaultPort | svws_anonym.py:287-289 | `int("3306")` is 3306 |
| Prompts.ReadHost | svws_anonym.py:286 | the host is the stripped answer, or `localhost` when that is empty; it never begins or ends with whitespace |
| Prompts.ReadPort | svws_anonym.py:287-292 | the port is the number `int()` reads from the stripped answer whenever it reads one, and otherwise 3306 |
| Prompts.PortDefault | svws_anonym.py:287 | an empty answer gives port 3306 |
| Prompts.PortOfDigits | svws_anonym.py:287-289 | a digit answer gives the number it spells, without a range check |
| Prompts.PortRoundTrip | svws_anonym.py:287-289 | every natural number typed in decimal is the port used |
| Prompts.PortRefused | svws_anonym.py:290-292 | a non-empty answer that `int()` refuses falls back to 3306 |
| Prompts.PortNegative | svws_anonym.py:288-292 | a negative number is kept as the port |
| Prompts.ReadSettings | svws_anonym.py:286-299 | the settings exist if and only if the stripped user name is non-empty; then they hold the host, the port, the stripped user name and the password as typed |
| Prompts.ProceedsOnlyOnYes | svws_anonym.py:316-317 | an answer that lets the run proceed is whitespace, then a word whose lower case is `ja`, `j`, `yes` or `y`, then whitespace (the converse of `ProceedsOnYesWord`) |
| Prompts.ProceedsOnYesWord | svws_anonym.py:316-317 | `ja`, `j`, `yes` and `y`, in any case and with any surrounding whitespace, let the run proceed |

## Left out

- Database access is not modelled: connecting, `USE`, `SHOW DATABASES`, `SHOW TABLES`, `DESCRIBE`, `SHOW KEYS`, `SELECT`, executing the `UPDATE`s, `commit` and closing. Column names, key columns and row keys are inputs, and statements are outputs.
- `get_tables` and the per-table loop of `anonymize_schema` are left out. They only iterate over a database listing and print; each table is handled by `Updates.AnonymizeTable`.
- The value generators are not modelled: Faker, `Faker.seed` and `random.randint`. A rule carries a tag naming its generator, and the generated values are supplied as a function of row and column.
- The terminal is not modelled: `print`, `input`, `getpass`, `sys.exit` and `KeyboardInterrupt`. The answers are inputs, and `Schemas.SelectSchema` takes the successive answers as a finite list.
- The broad `except Exception` handlers around database calls are left out, and no database failure is modelled. They differ: `list_schemas` and `get_tables` print a message and return an empty list, `connect` ends the program with `sys.exit(1)`, and `anonymize_schema` returns without anonymizing when `USE` fails.
- Updates.AnonymizeTable: assumes no database call fails. In `_anonymize_table` one handler wraps the whole row loop, so a failure at row k is swallowed after rows 0 to k-1 were updated. `anonymize_schema` then commits those rows, which leaves the table partly anonymized. The model always issues one statement per row.
- `lower()`, `isdigit()` and `strip()` are modelled on ASCII only. Unicode case mapping, Unicode digits and Unicode whitespace are not covered.
- Prompts.PortOfDigits, Prompts.PortRoundTrip, Prompts.ReadPort, Prompts.ParseInt, Schemas.ResolveChoice, Schemas.ChoiceByDigits: the limit on the number of digits that recent Python versions place on `int()` of a decimal string (4300 by default, configurable) is not modelled. Under that limit, a port answer of more than 4300 digits falls back to 3306, and such an answer at the schema prompt ends the program with an uncaught `ValueError`. In the model the number is read in full.
- Prompts.ParseInt: its own contract says only that the empty string is refused. What it accepts and yields is stated by `Prompts.ParseIntSigned`, `Prompts.ParseIntUnderscore` and `Prompts.ParseIntRejects`. Several underscore-separated groups are covered by its definition but by no separate lemma.
- Columns.OrtColumnsSelected: states that such a column is bound to `ort` or an earlier rule, not which one; that depends on the rest of the name.
- `example.py` and `example_usage.py` only demonstrate use and print, so they are not modelled.
