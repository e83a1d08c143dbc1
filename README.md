# database_sanitize Drush commands, modelled in Dafny

The Drupal module database_sanitize ships two Drush commands in
`src/Commands/DatabaseSanitizeCommands.php`:

- `db:sanitize-analyze` (`sanitizeAnalyze`) resolves the sanitize YML file to read. It takes the
  `file` option, or asks for a path when the option is empty. It throws "File … does not exist" when
  there is no such file. Otherwise it asks the `database_sanitize` service for the database tables
  that no sanitize YML file covers. It then logs that all tables are specified, or logs how many are
  missing, followed by their newline-separated list when the `list` option is set.
- `db:sanitize-generate` (`sanitizeGenerate`) throws "You must specify a machine-name" when the
  `machine-name` option is PHP-empty (NULL, false, `""` or `"0"`). Otherwise it passes the `file`
  option to the same service as it is. When the service reports no tables, it logs that all tables
  are specified and returns nothing. Otherwise it builds and returns
  `['sanitize' => [machine_name => [table => ['description' => …, 'query' => 'TRUNCATE TABLE table']]]]`
  in a `foreach` loop over the tables.

The model has two modules:

- `Php` (`php.dfy`) holds the parts of PHP it needs. It has option values and `empty()`, conversion
  of a value to a string, and ordered arrays with string keys. Those arrays keep their insertion
  order and give `$a[$k] = $v` its PHP meaning: an existing key keeps its place and a new key goes at
  the end. It also has `implode` and its partner `explode`, for a one-character glue.
- `SanitizeCommands` (`commands.dfy`) holds the two commands. `SanitizeAnalyze` is a pure function
  from the options and the collaborators to an `Outcome`. The command only branches and has no loop.
  `SanitizeGenerate` is a method whose `for` loop builds the document one table at a time. A loop
  invariant ties it to the specification function `SanitizeDocument`.

The collaborators are parameters:

- the answer to the interactive prompt (an `OptionValue`);
- `file_exists` (a `string -> bool`);
- the service's `getUnspecifiedTables` (an `OptionValue -> seq<string>`).

So "the service is never reached" is stated as "the outcome is the same whatever the service
returns". An `Outcome` either throws an `Error` or returns a log (entries tagged `Info` or `Warning`)
and an optional returned array.

Two behaviours of the code worth noting:

- The machine name `"0"` is rejected as well as the empty one, because the code uses PHP's `empty()`.
- An empty `file` option leads to a prompt, not to an error. An answer that converts to the empty
  string (none, or `""`) then fails at the `file_exists` check with `FileDoesNotExist("")`, since
  no file has the empty path (`AnalyzeEmptyAnswerThrows`).

The generated entries come from the list the service returns, not from a set. A repeated table is
written twice, and its key keeps the position where it first appeared.

## Model

| member | source | states |
|---|---|---|
| `Php.Empty` | src/Commands/DatabaseSanitizeCommands.php:41 | PHP's `empty()` as used by the guards at :41, :59 and :87: NULL, false, `""` and `"0"` are empty. This is a definition; `Php.AsString` states its tie to the string form |
| `Php.AsString` | src/Commands/DatabaseSanitizeCommands.php:45-47 | converting an option value to a string keeps PHP-emptiness both ways: the value is empty exactly when its string is `""` or `"0"`; a string value converts to itself |
| `Php.Assign` | src/Commands/DatabaseSanitizeCommands.php:104-107 | after `$a[$k] = $v` the key set is the old one plus `k`, reading `k` gives `v`, and every other key keeps its value |
| `Php.AssignWellFormed` | src/Commands/DatabaseSanitizeCommands.php:103-108 | an assignment keeps an array well formed: each key listed exactly once in the iteration order |
| `Php.Implode` | src/Commands/DatabaseSanitizeCommands.php:60 | the `implode("\n", …)` of the table list. This is a definition; `Php.ExplodeImplode` states that the joined text gives back every piece |
| `Php.Explode` | src/Commands/DatabaseSanitizeCommands.php:60 | splitting always gives at least one piece, and a text without the glue gives just itself |
| `Php.ExplodePieceThenGlue` | src/Commands/DatabaseSanitizeCommands.php:60 | a glue-free piece followed by the glue splits off as the first piece |
| `Php.ExplodeImplode` | src/Commands/DatabaseSanitizeCommands.php:60 | splitting the joined text on the glue gives back the pieces, for one or more glue-free pieces |
| `SanitizeCommands.ResolvedFile` | src/Commands/DatabaseSanitizeCommands.php:41-45 | the file read is either the `file` option or the prompt's answer, and it is empty only when both are |
| `SanitizeCommands.SanitizeAnalyze` | src/Commands/DatabaseSanitizeCommands.php:40-62 | throws `FileDoesNotExist(path)` exactly when the resolved file does not exist; otherwise returns nothing, logs `Info(AllTablesSpecified)` exactly when the service reports no table, and otherwise logs the count equal to the number of tables reported, followed by the newline-joined list exactly when `list` is non-empty; the log holds two entries in that last case and exactly one otherwise |
| `SanitizeCommands.AnalyzeMissingFileSkipsService` | src/Commands/DatabaseSanitizeCommands.php:45-50 | when the file does not exist the command throws, and the outcome does not depend on the service at all |
| `SanitizeCommands.AnalyzeGivenFileSkipsPrompt` | src/Commands/DatabaseSanitizeCommands.php:41-43 | a non-empty `file` option makes the outcome independent of the prompt's answer |
| `SanitizeCommands.AnalyzeAnswerActsAsFileOption` | src/Commands/DatabaseSanitizeCommands.php:41-42 | with an empty `file` option, a non-empty answer gives the same outcome as passing it as the `file` option, whatever is answered afterwards |
| `SanitizeCommands.AnalyzeEmptyAnswerThrows` | src/Commands/DatabaseSanitizeCommands.php:41-47 | with an empty `file` option and an answer that converts to `""`, the command throws `FileDoesNotExist("")` whenever no file has the empty path |
| `SanitizeCommands.AnalyzeListNamesEveryTable` | src/Commands/DatabaseSanitizeCommands.php:57-61 | the logged list, split at line breaks, is exactly the service's table list, and it has as many lines as the logged count |
| `SanitizeCommands.Description` | src/Commands/DatabaseSanitizeCommands.php:105 | the description is `Sanitization entry for `, then exactly the table name, then `. Generated by drush db-sanitize-generate.`, so the name can be read back from it |
| `SanitizeCommands.Query` | src/Commands/DatabaseSanitizeCommands.php:106 | the query is `TRUNCATE TABLE ` followed by exactly the table name, so the name can be read back from it |
| `SanitizeCommands.EntryFor` | src/Commands/DatabaseSanitizeCommands.php:104-107 | an entry is a well-formed array whose keys are exactly `description` then `query` |
| `SanitizeCommands.FirstOccurrences` | src/Commands/DatabaseSanitizeCommands.php:103-108 | the key order the loop produces has no repeats, names exactly the input tables, lists them by increasing position of first occurrence in the input, and is no longer than the input |
| `SanitizeCommands.TableEntries` | src/Commands/DatabaseSanitizeCommands.php:103-108 | the group the loop builds is a well-formed array whose key set is the set of input tables; `SanitizeCommands.GroupEntries` states its order and values |
| `SanitizeCommands.SanitizeDocument` | src/Commands/DatabaseSanitizeCommands.php:98-110 | the document has the key set `{sanitize}`; it is the closed form `SanitizeCommands.SanitizeGenerate` is proved against, and `DocumentShape`, `DocumentWellFormed` and `GroupEntries` state the rest |
| `SanitizeCommands.TableEntriesAppend` | src/Commands/DatabaseSanitizeCommands.php:103-108 | the entries for `tables + [t]` are those for `tables` after `$group[t] = entry(t)` |
| `SanitizeCommands.WrapAssign` | src/Commands/DatabaseSanitizeCommands.php:98-104 | writing through `['sanitize'][machine]` replaces the group and leaves the rest of the document as it was |
| `SanitizeCommands.DocumentAppend` | src/Commands/DatabaseSanitizeCommands.php:104 | one loop iteration's nested write turns the document for `tables` into the document for `tables + [t]` |
| `SanitizeCommands.SanitizeGenerate` | src/Commands/DatabaseSanitizeCommands.php:85-111 | an empty machine name throws `MachineNameMissing` whatever the service returns; an empty service result logs `Info(AllTablesSpecified)` and returns nothing; otherwise it returns `SanitizeDocument(machine, tables)` for the tables the service gives for the unchecked `file` option |
| `SanitizeCommands.DocumentShape` | src/Commands/DatabaseSanitizeCommands.php:98-102 | the document has the single top-level key `sanitize`, and under it the single key, the machine name |
| `SanitizeCommands.DocumentWellFormed` | src/Commands/DatabaseSanitizeCommands.php:98-110 | every array in the generated document lists each of its keys exactly once |
| `SanitizeCommands.GroupEntries` | src/Commands/DatabaseSanitizeCommands.php:103-108 | the keys under `sanitize[machine]` are exactly the set of input tables, in first-occurrence order. Each entry holds the description `Sanitization entry for <t>. Generated by drush db-sanitize-generate.` and the query `TRUNCATE TABLE <t>` of its own key `t` |
| `SanitizeCommands.DistinctTablesKeepOrder` | src/Commands/DatabaseSanitizeCommands.php:103-108 | tables without repeats appear as keys in exactly the input order |
| `SanitizeCommands.SameTablesSameEntries` | src/Commands/DatabaseSanitizeCommands.php:103-108 | two table lists naming the same tables, in any order and with any repeats, give the same entries and the same key set |
| `SanitizeCommands.GenerateTwoTables` | src/Commands/DatabaseSanitizeCommands.php:98-110 | for machine `core` and tables `users_log, cache_foo`, the document holds these two keys in that order with their entries |

## Left out

- The interactive prompt `io()->ask` is an input to the model, the `answer` parameter; the terminal dialogue is not modelled.
- `file_exists` is a parameter `string -> bool`; the file system itself is not modelled. In particular PHP's `file_exists("")` being false is not built in: `AnalyzeEmptyAnswerThrows` takes it as a hypothesis.
- The `database_sanitize` service (`getUnspecifiedTables`) is not part of this model. It loads the sanitize YML files, lists the database tables and takes their difference. Its result is taken as an arbitrary list of table names, and a non-array result is not modelled.
- Logging and `dt()`: log calls become `LogEntry` values with their level and a message tag. The count is kept as a number, the list as the joined text, and the exception message keeps only the substituted file path. The logger's `'ok'` type argument and the translation are not modelled.
- The YAML serialisation of the returned array, the Drush annotations, the aliases and the option plumbing are not modelled.
- Option values are NULL, a boolean flag or a string. Array-valued and numeric options are not modelled.
- PHP's conversion of integer-like string keys (such as `"12"`) to integer keys is not modelled. The model keeps every key as a string, which does not change the key order.
- `Php.Explode`, `Php.ExplodeImplode`: `explode` is modelled only for a one-character glue, which is all the `"\n"` of the list needs. The round trip needs table names that contain no line break.
