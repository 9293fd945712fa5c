# hyperopt_manager in Dafny

A model of the core of `hyperopt_manager`. The tool runs a freqtrade hyperopt command a given number of
times and stores the epochs of every run in a SQLite table called `hyperopt_results`.

The core consists of:

- reading the four command-line options (`--cmd`/`-x`, `--iterations`/`-y`, `--drop_db_file`/`-z`, `-h`);
- cutting the parameter groups (the "spaces") out of the command after `--spaces`;
- expanding the shorthand tokens `all` and `default`;
- writing the `CREATE TABLE` statement: ten fixed columns, then one text column per group;
- turning every epoch of a run into a record: the iteration, eight epoch fields, one value per group;
- writing one `INSERT` per record, with a single commit per run.

The model is split across five modules:

- `Runtime` (`runtime.dfy`): the Python exceptions the core lets escape (`KeyError`, `ValueError`,
  `TypeError`), a `Result` type that carries them, dictionary lookup, and `str()` of a record value.
- `Text` (`text.dfy`): `str.split` on one character, `', '.join`, `list.index`, `str.lower`. It also has
  the read-back functions the properties use:
  - `Fields` splits a column list at its commas and drops the blanks after them;
  - `ValuesOf`, in `DatabaseManager`, takes the quoted values of an insert.
- `Groups` (`groups.dfy`): the five groups and the expansion of `all`/`default`. The repository writes
  this expansion out twice, and both copies are this one function.
- `DatabaseManager` (`database_manager.dfy`) holds:
  - the statement texts;
  - a `Database` class standing for the SQLite file: committed table and rows, what waits for a
    commit, and the log of statements handed to a cursor;
  - `create_database` and `insert_table_data` as methods on it.

  Whether the engine raises `sqlite3.Error` at the connect, at the k-th execute or at the commit is an
  input (`EngineFaults`).
- `HyperoptManager` (`hyperopt_manager.dfy`): the option loop, the `--spaces` tail, the drop flag, record
  and batch building, `hypermanager_workload` and `hyperopt_manager_start`.

The environment enters the model as parameters:

- The results file read after each run is `fetch(i)`, the epochs of iteration `i`.
- `int()` of an option's text is `toInt`.
- What `getopt` returns is a sequence of `Opt` pairs.
- The engine faults are `faults(i)` for the insert of iteration `i` and `createFaults` for the table.

## Model

| member | source | states |
|---|---|---|
| Groups.Expand | hyperopt_manager/database_manager.py:49-52 | `all` anywhere gives the five groups in order, which wins over `default`; otherwise `default` gives the first four; otherwise the tokens are kept in their order |
| Groups.DefaultIsAllButTrailing | hyperopt_manager/database_manager.py:50-52 | the `default` list is the `all` list without its last group, `trailing` |
| Groups.ExpandRemovesShorthands | hyperopt_manager/database_manager.py:49-52 | no `all` or `default` token survives expansion |
| Groups.ExpandIdempotent | hyperopt_manager.py:77-80 | the expansion is a normal form: expanding its output again changes nothing. Both copies of the expansion get the same raw tokens and so compute the same list |
| Groups.ExpandKnown | hyperopt_manager/database_manager.py:49-55 | tokens that are groups or shorthands expand to groups only, and `default` never brings in `trailing` |
| Runtime.GetAll | hyperopt_manager/database_manager.py:54-55 | looking up a list of keys succeeds exactly when every key is present, giving the values in key order; otherwise it fails with the `KeyError` of the first missing key |
| Runtime.GetAllFirstMissing | hyperopt_manager/database_manager.py:54-55 | a lookup loop that stops at the first missing key raises the same `KeyError` as `GetAll` |
| Runtime.GetAllFound | hyperopt_manager/database_manager.py:54-55 | a lookup loop that found every key has built the list `GetAll` gives |
| Runtime.AllOk | hyperopt_manager.py:90-108 | a list built element by element succeeds exactly when every element does, giving the values in order; otherwise it fails with the error of the first element that failed |
| Runtime.AllOkFirstErr | hyperopt_manager.py:90-108 | when the first failing element is at `j`, the list fails with that element's error |
| Runtime.AllOkValues | hyperopt_manager.py:90-108 | when every element gave its value, the list is those values in order |
| Runtime.NatToDecimal | hyperopt_manager/database_manager.py:98 | `str(i)` of the iteration is a nonempty string of decimal digits with no leading zero |
| Runtime.DecimalRoundTrip | hyperopt_manager/database_manager.py:98 | reading the digits of `str(i)` back as a number gives `i` |
| Runtime.Str | hyperopt_manager/database_manager.py:98 | `str()` of the iteration is nonempty, holds no `"` and starts with no blank |
| Runtime.Strs | hyperopt_manager/database_manager.py:98 | `str(x) for x in entry` has one string per element, in order |
| Text.Join | hyperopt_manager/database_manager.py:57 | definition: `sep.join(parts)`, also used at database_manager.py:94 and :98 |
| Text.Split | hyperopt_manager.py:44 | `split(' ')` gives at least one piece, and no piece holds the separator |
| Text.JoinSplit | hyperopt_manager.py:44 | joining the pieces of a split with the separator gives the string back |
| Text.SplitJoin | hyperopt_manager.py:44 | splitting separator-free words joined by the separator gives the words back |
| Text.IndexOf | hyperopt_manager.py:45 | `list.index` gives the first position holding the value |
| Text.Lower | hyperopt_manager.py:50 | lower-casing keeps the length and maps every character on its own |
| HyperoptManager.SpacesTail | hyperopt_manager.py:44-46 | the command's groups are the words after the first `--spaces` word of `cmd.split(' ')`; without such a word the result is `ValueError` |
| HyperoptManager.SpacesTailRoundTrip | hyperopt_manager.py:44-46 | a command ending in ` --spaces ` and blank-separated groups, with no `--spaces` before, gives exactly those groups |
| HyperoptManager.CommandWords | hyperopt_manager.py:44 | the words of such a command are the prefix's words, then `--spaces`, then the groups |
| HyperoptManager.FirstSpacesAt | hyperopt_manager.py:45 | in those words the first `--spaces` is the one after the prefix, and the groups follow it |
| HyperoptManager.DropFlag | hyperopt_manager.py:50-53 | definition: `arg.lower() == 'true'` |
| HyperoptManager.DropFlagSpellings | hyperopt_manager.py:49-53 | the drop flag is set exactly for four-letter texts that spell `true` in any mix of letter case |
| HyperoptManager.Step | hyperopt_manager.py:39-53 | definition: one pass of the option loop, checking `-h`, the command, the iteration count and the drop flag in that order |
| HyperoptManager.ParseFrom | hyperopt_manager.py:38-53 | definition: the option loop as a fold of `Step` over the options, stopping at `-h` or at the first exception |
| HyperoptManager.ParseOptions | hyperopt_manager.py:38-53 | the option loop ends as the reference fold `ParseFrom` over the options does: `-h` exits, a missing `--spaces` or a non-number raises, otherwise the four variables are set |
| HyperoptManager.ParseTakenIff | hyperopt_manager.py:38-53 | the loop gets through all options exactly when none is `-h`, every command has a `--spaces` word and every iteration count converts |
| HyperoptManager.ParseLastWins | hyperopt_manager.py:38-53 | after the loop, the command, its groups, the iteration count and the drop flag come from the last option of their kind, or keep their earlier value when there is none |
| HyperoptManager.Metric | hyperopt_manager.py:97-101 | definition: `entry['results_metrics'][key]`, or the `KeyError` of whichever key is missing |
| HyperoptManager.FixedPart | hyperopt_manager.py:93-103 | definition: the nine-element `tmp` list display evaluated left to right, or the first `KeyError` |
| HyperoptManager.Params | hyperopt_manager.py:105-106 | definition: `params_details[g]` for each group in order, or the first `KeyError`; no groups never looks at `params_details` |
| HyperoptManager.RecordOf | hyperopt_manager.py:93-106 | definition: the record `tmp` of one epoch entry, or the first `KeyError` |
| HyperoptManager.RecordShape | hyperopt_manager.py:93-106 | a record is built exactly when the entry has `is_best`, `current_epoch`, `loss`, the five metrics and, if there are groups, every group under `params_details`. It is then the iteration, the eight fields in source order and one value per group in header order, 9 + \|groups\| values in all |
| HyperoptManager.RecordTagged | hyperopt_manager.py:93-94 | every record starts with its iteration number and has 9 + \|groups\| values |
| HyperoptManager.BuildRecord | hyperopt_manager.py:93-106 | the `tmp` loop builds the record `RecordOf` describes, or raises the first `KeyError` it meets |
| HyperoptManager.BatchOf | hyperopt_manager.py:90-108 | a run's records are built exactly when every epoch's record is, one per epoch in epoch order; otherwise the error is that of the first failing epoch |
| HyperoptManager.BuildBatch | hyperopt_manager.py:90-108 | the epoch loop builds the batch `BatchOf` describes |
| HyperoptManager.BatchFitsTable | hyperopt_manager.py:90-108 | for known groups, every record of a batch starts with its iteration and has as many values as the insert names columns and one fewer than the table has |
| HyperoptManager.IterationReadBack | hyperopt_manager.py:93-94 | the first quoted value of each insert is `str(i)`, it reads back as `i`, and the insert carries 9 + \|groups\| values |
| HyperoptManager.RangeLength | hyperopt_manager.py:82 | definition: the number of values of `range(0, n)` |
| HyperoptManager.Committed | hyperopt_manager.py:82-110 | definition: the rows a sequence of `insert_table_data` calls commits, the k-th under its own engine faults |
| HyperoptManager.CommittedSnoc | hyperopt_manager.py:82-110 | one more `insert_table_data` call adds that batch's statements to the committed rows, exactly when that batch commits |
| HyperoptManager.CommittedRowsStep | hyperopt_manager.py:82-110 | the rows before a call plus what that call commits are the rows `Committed` gives for the longer call list, which keeps the workload loop's rows invariant |
| HyperoptManager.CommittedAllIfNoFaults | hyperopt_manager.py:82-110 | when no call meets an engine error, the number of committed rows is the total number of records handed over |
| HyperoptManager.RunIteration | hyperopt_manager.py:83-110 | one run builds the batch of iteration `i`. When the batch cannot be built, the store is untouched and the error escapes. Otherwise the batch goes to `insert_table_data`, which adds only inserts to the statement log and leaves the table alone |
| HyperoptManager.Workload | hyperopt_manager.py:61-110 | see below |
| HyperoptManager.DdlIssued | hyperopt_manager.py:55-56 | definition: with the drop flag set, `create_database` reaches its `CREATE TABLE` |
| HyperoptManager.GroupRejected | hyperopt_manager.py:55-56 | definition: with the drop flag set, `create_database` raises the `KeyError` of an unknown group |
| HyperoptManager.DdlOf | hyperopt_manager.py:56 | definition: the `CREATE TABLE` statement for the parsed group tokens |
| HyperoptManager.HyperoptManagerStart | hyperopt_manager.py:13-58 | see below |
| DatabaseManager.ColumnDef | hyperopt_manager/database_manager.py:22-37 | every column definition declares the column named by its first word |
| DatabaseManager.AddCol | hyperopt_manager/database_manager.py:54-55 | definition: the `add_col` list, or the `KeyError` of the first unknown group |
| DatabaseManager.BuildAddCol | hyperopt_manager/database_manager.py:54-55 | the `add_col` loop succeeds exactly when every group is a key of `spaces_col`, giving each group's definition in group order; otherwise it raises the `KeyError` of the first unknown group |
| DatabaseManager.SpacesColDeclaresGroup | hyperopt_manager/database_manager.py:33-37 | `spaces_col` has exactly the five groups as keys, each mapped to `<group> TEXT NOT NULL` |
| DatabaseManager.ColumnList | hyperopt_manager/database_manager.py:57 | definition: `table_root` after `+= ', '.join(add_col)` |
| DatabaseManager.CreateStatement | hyperopt_manager/database_manager.py:59 | definition: `'CREATE TABLE hyperopt_results (' + table_root + ');'` |
| DatabaseManager.ColumnListFields | hyperopt_manager/database_manager.py:22-57 | read back at its commas, `table_root` is the ten fixed definitions in source order followed by the added definitions. With no groups it ends in one empty definition, the dangling `, ` |
| DatabaseManager.TableColumns | hyperopt_manager/database_manager.py:22-57 | for a nonempty list of known groups the table has 10 + \|groups\| columns: the fixed ten, then `<group> TEXT NOT NULL` per group in order |
| DatabaseManager.InsertColumnsFields | hyperopt_manager/database_manager.py:87-94 | read back at its commas, the insert's column list is the nine fixed names followed by the header's names. An empty header leaves a dangling comma |
| DatabaseManager.SchemaMatchesInsert | hyperopt_manager/database_manager.py:22-94 | for the same known groups, the table and the inserts agree column by column: the table's first column is `id`, and after it the k-th defined column declares the k-th inserted name |
| DatabaseManager.InsertColumns | hyperopt_manager/database_manager.py:87-94 | definition: the insert's `table_root` after `+= ', '.join(insert_data[0])` |
| DatabaseManager.InsertStatement | hyperopt_manager/database_manager.py:97-98 | definition: the `INSERT INTO hyperopt_results (...) VALUES ("...");` text of one entry |
| DatabaseManager.InsertStatements | hyperopt_manager/database_manager.py:96-98 | a batch gives one insert per entry, in entry order, all over the same column list |
| DatabaseManager.InsertValuesRoundTrip | hyperopt_manager/database_manager.py:97-98 | when no value text holds a `"`, the quoted values of an insert read back as `str()` of the entry's elements, in order, as many as the entry has |
| DatabaseManager.InsertColumnsUnquoted | hyperopt_manager/database_manager.py:87-94 | the column list of an insert over known groups holds no `"` |
| DatabaseManager.Database.Remove | hyperopt_manager/database_manager.py:39-42 | removing the file fails exactly when there is none. Afterwards there is no file, no table and no row |
| DatabaseManager.Database.Connect | hyperopt_manager/database_manager.py:45 | a connection that opens creates the file if it is missing and starts with nothing pending; a failed one changes nothing |
| DatabaseManager.Database.Execute | hyperopt_manager/database_manager.py:99 | every statement handed to the cursor is logged; one that goes through waits for the commit |
| DatabaseManager.Database.Commit | hyperopt_manager/database_manager.py:101 | a commit makes everything pending permanent at once, or nothing |
| DatabaseManager.Database.Close | hyperopt_manager/database_manager.py:107-109 | closing discards whatever was not committed |
| DatabaseManager.CreateDatabase | hyperopt_manager/database_manager.py:8-71 | see below |
| DatabaseManager.BatchCommits | hyperopt_manager/database_manager.py:90-101 | definition: a batch is committed when the connect, every `execute` and the `commit` go through |
| DatabaseManager.IssuedCount | hyperopt_manager/database_manager.py:96-99 | the loop hands over every insert unless the connect fails or an execute fails; it never hands over more than the batch has |
| DatabaseManager.ExecuteInserts | hyperopt_manager/database_manager.py:96-99 | the inserts go to the cursor in order up to and including the first one the engine refuses. All of them wait for the commit exactly when none is refused |
| DatabaseManager.InsertTableData | hyperopt_manager/database_manager.py:74-110 | see below |

The four larger procedures have longer contracts:

- **HyperoptManager.Workload**:
  - A missing token list or iteration count raises `TypeError` before any call.
  - Otherwise the k-th call hands over the batch of iteration k, headed by the expanded groups.
  - The run completes exactly when `range(0, iterations)` calls were made.
  - An abort names the error of the batch that could not be built.
  - The committed rows are the rows of the committing batches, in call order.
  - The table is unchanged, and only inserts are added to the statement log.
- **HyperoptManager.HyperoptManagerStart**:
  - `-h` exits and a failing option raises, both before the store is touched: rows, table and file stay as they were.
  - After a parse that gets through, the tool never exits by `sys.exit`.
  - With tokens and no rejected group, a missing iteration count raises `TypeError` with no call made.
  - Without the drop flag the table stays as it was. The rows grow by the committed batches, and only inserts are issued.
  - With the drop flag the store is reset first. The rows afterwards are exactly the committed batches.
    The table is the `CREATE TABLE` of the expanded groups when its execute and commit go through, and otherwise there is none.
    The statement log grows by that one `CREATE TABLE`, if it was issued, followed by inserts only.
  - With the drop flag, an unknown group raises its `KeyError` in `create_database`, before any run.
  - Without a token list the run raises `TypeError` with no call made.
  - The k-th call hands over the batch of iteration k, headed by the expansion of the groups of the last command.
  - With tokens, an iteration count and no rejected group, the run completes exactly when it made one call per iteration.
  - A run that stops early names the error of the batch that could not be built.
- **DatabaseManager.CreateDatabase**:
  - The old file is always removed; a failed removal is reported, not raised.
  - A failed connect leaves no file.
  - A missing token list or an unknown group raises before any `CREATE TABLE` runs, leaving no table.
  - Otherwise exactly one `CREATE TABLE hyperopt_results (...)` is executed. Its column list is the fixed ten plus one per group.
  - The table exists afterwards exactly when both the execute and the commit go through.
  - There are never any rows, and the connection is closed on every path.
- **DatabaseManager.InsertTableData**:
  - The batch is committed exactly when the connect, every insert and the commit go through.
  - It is committed whole: the committed rows grow by all of the batch's inserts, or by none.
  - The statement log grows by the inserts that were issued, in entry order.
  - The table is unchanged and the connection is closed on every path.

## Left out

- `subprocess.call(freqtrade_cmd, shell=True)` (hyperopt_manager.py:86) runs an external process. The model keeps only that a missing command raises `TypeError` at the first run.
- `get_args(['hyperopt-list'])` (hyperopt_manager.py:75) comes from the test configuration and is left out.
- `get_pickle_data` (hyperopt_manager/get_pickle_data.py) is not part of this model: its result for run `i` is the input `fetch(i)`.
- Workload: assumes `raw_data[1]` is the length of `raw_data[0]`. It does not model the `IndexError` of a count larger than the list.
- HyperoptManagerStart: does not state whether the database file exists afterwards, because the workload's contract does not track it. It also takes the options `getopt` returns as input. It does not model `getopt` itself, its `GetoptError` exit with status 2 (hyperopt_manager.py:33-36), or the usage text printed before `-h` exits.
- `int()` of the iteration text is the parameter `toInt`.
- All `print` calls and the colorama colouring are left out.
- The SQLite engine is not modelled: statements are not parsed, and rows are kept as the insert texts.
  Whether an engine call raises `sqlite3.Error` is an input.
- Quoting and injection of values whose text holds a `"` are left out. InsertValuesRoundTrip and IterationReadBack require value texts without `"`.
- `cursor.close()` is left out: it does not change what is committed.
- Database.Remove: a failed removal means "no file". Other operating-system errors from `os.remove` are not modelled.
- Str: `str()` of floats, booleans and parameter dictionaries is kept opaque, as the text the value carries. Only `str()` of the iteration number is written out.
- Text.Lower: covers ASCII letters only, where Python lower-cases all of Unicode.
- Epoch: a `results_metrics` or `params_details` entry that is present but not a dictionary is not modelled. The entry is either a dictionary or absent (`KeyError`).
- An empty group list is not rejected. `CREATE TABLE` then gets a column list ending in a dangling `, `; this is stated as a property (DatabaseManager.ColumnListFields), not as an error path.
