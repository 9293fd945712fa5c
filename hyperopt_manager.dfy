/**
 * The driver: reading the options (`hyperopt_manager_start`), taking the group tokens
 * from the tail of the hyperopt command, and the workload loop that turns the epochs of
 * each run into one batch of records and hands it to `insert_table_data`
 * (`hypermanager_workload`). The hyperopt process itself and the loading of its result
 * file are outside the model: the epochs of the i-th run are the input `fetch(i)`.
 */
module HyperoptManager {
  import opened Runtime
  import opened Text
  import opened Groups
  import opened DatabaseManager

  // ---------------------------------------------------------------------------
  // The options
  // ---------------------------------------------------------------------------

  /**
   * The group tokens of a hyperopt command: the words after the first `--spaces` of
   * `cmd.split(' ')`; `list.index` raises `ValueError` when there is none.
   */
  function SpacesTail(cmd: string): (r: Result<seq<string>>)
    ensures var words := Split(cmd, ' ');
            && (r.Ok? <==> "--spaces" in words)
            && (r.Err? ==> r.error == ValueError)
            && (r.Ok? ==> exists k :: 0 <= k < |words| && words[k] == "--spaces" && "--spaces" !in words[..k] &&
                                      r.value == words[k + 1..])
  {
    var words := Split(cmd, ' ');
    if "--spaces" in words then Ok(words[IndexOf(words, "--spaces") + 1..]) else Err(ValueError)
  }

  /**
   * A command that ends in `--spaces` followed by blank-separated groups, with no
   * `--spaces` before, gives those groups back.
   */
  lemma SpacesTailRoundTrip(prefix: string, groups: seq<string>)
    requires "--spaces" !in Split(prefix, ' ')
    requires groups != []
    requires forall k :: 0 <= k < |groups| ==> ' ' !in groups[k]
    ensures SpacesTail(prefix + " --spaces " + Join(groups, " ")) == Ok(groups)
  {
    var words := Split(prefix + " --spaces " + Join(groups, " "), ' ');
    CommandWords(prefix, groups);
    FirstSpacesAt(words, Split(prefix, ' '), groups);
  }

  /** The words of such a command: those of the prefix, `--spaces`, then the groups. */
  lemma CommandWords(prefix: string, groups: seq<string>)
    requires groups != []
    requires forall k :: 0 <= k < |groups| ==> ' ' !in groups[k]
    ensures Split(prefix + " --spaces " + Join(groups, " "), ' ') == Split(prefix, ' ') + ["--spaces"] + groups
  {
    var tail := Join(groups, " ");
    assert prefix + " --spaces " + tail == prefix + [' '] + ("--spaces" + [' '] + tail);
    assert Split("--spaces" + [' '] + tail, ' ') == ["--spaces"] + groups by {
      SplitConcat("--spaces", tail, ' ');
      SplitNoSep("--spaces", ' ');
      assert " " == [' '];
      SplitJoin(groups, ' ');
    }
    SplitConcat(prefix, "--spaces" + [' '] + tail, ' ');
  }

  lemma FirstSpacesAt(words: seq<string>, head: seq<string>, groups: seq<string>)
    requires words == head + ["--spaces"] + groups
    requires "--spaces" !in head
    ensures "--spaces" in words && IndexOf(words, "--spaces") == |head|
    ensures words[|head| + 1..] == groups
  {
    assert words[|head|] == "--spaces";
    var k := IndexOf(words, "--spaces");
    assert forall j :: 0 <= j < k ==> words[j] != "--spaces" by {
      forall j | 0 <= j < k ensures words[j] != "--spaces" { assert words[..k][j] == words[j]; }
    }
    assert forall j :: 0 <= j < |head| ==> words[j] != "--spaces" by {
      forall j | 0 <= j < |head| ensures words[j] != "--spaces" { assert words[j] == head[j]; }
    }
    assert k == |head|;
  }

  /** `arg.lower() == 'true'`. */
  function DropFlag(arg: string): bool
  {
    Lower(arg) == "true"
  }

  /** The store is reset exactly for the sixteen spellings of `true` in any letter case. */
  lemma DropFlagSpellings(arg: string)
    ensures DropFlag(arg) <==> |arg| == 4 && forall k :: 0 <= k < 4 ==> arg[k] == "true"[k] || arg[k] == "TRUE"[k]
  {
    var low := Lower(arg);
    if |arg| == 4 {
      forall k | 0 <= k < 4 ensures low[k] == "true"[k] <==> arg[k] == "true"[k] || arg[k] == "TRUE"[k] {
        assert low[k] == LowerChar(arg[k]);
      }
      if forall k :: 0 <= k < 4 ==> low[k] == "true"[k] {
        assert low == "true";
      }
    }
  }

  /** One `(option, value)` pair as `getopt` returns it. */
  datatype Opt = Opt(name: string, arg: string)

  /** The four variables the option loop assigns; `None` before any option sets them. */
  datatype Config = Config(
    cmd: Option<string>,
    tableParams: Option<seq<string>>,
    iterations: Option<int>,
    drop: Option<bool>)

  /** How the option loop ends: `-h` exits, a conversion raises, or every option was taken. */
  datatype Parsed = Help | Failed(error: Error) | Taken(config: Config)

  const NoOptions := Config(None, None, None, None)
  const CmdNames: seq<string> := ["--cmd", "-x"]
  const IterationNames: seq<string> := ["--iterations", "-y"]
  const DropNames: seq<string> := ["--drop_db_file", "-z"]

  /**
   * One pass of the option loop. `toInt` is Python's `int()` on the option's text
   * (`None` where it raises `ValueError`).
   */
  function Step(c: Config, o: Opt, toInt: string -> Option<int>): Parsed
  {
    if o.name == "-h" then Help
    else if o.name in CmdNames then
      match SpacesTail(o.arg)
      case Err(e) => Failed(e)
      case Ok(tail) => Taken(c.(cmd := Some(o.arg), tableParams := Some(tail)))
    else if o.name in IterationNames then
      match toInt(o.arg)
      case None => Failed(ValueError)
      case Some(n) => Taken(c.(iterations := Some(n)))
    else if o.name in DropNames then Taken(c.(drop := Some(DropFlag(o.arg))))
    else Taken(c)
  }

  /** The option loop from a given state over the remaining options. */
  function ParseFrom(c: Config, opts: seq<Opt>, toInt: string -> Option<int>): Parsed
    decreases |opts|
  {
    if opts == [] then Taken(c)
    else
      match Step(c, opts[0], toInt)
      case Taken(c') => ParseFrom(c', opts[1..], toInt)
      case stop => stop
  }

  /** The `for opt, arg in opts` loop of `hyperopt_manager_start`. */
  method ParseOptions(opts: seq<Opt>, toInt: string -> Option<int>) returns (r: Parsed)
    ensures r == ParseFrom(NoOptions, opts, toInt)
  {
    var c := NoOptions;
    var k := 0;
    while k < |opts|
      invariant 0 <= k <= |opts|
      invariant ParseFrom(c, opts[k..], toInt) == ParseFrom(NoOptions, opts, toInt)
    {
      assert opts[k..][1..] == opts[k + 1..];
      var step := Step(c, opts[k], toInt);
      if !step.Taken? {
        return step;
      }
      c := step.config;
      k := k + 1;
    }
    r := Taken(c);
  }

  /** An option the loop gets past: not `-h`, and its text converts. */
  predicate Accepted(o: Opt, toInt: string -> Option<int>)
  {
    && o.name != "-h"
    && (o.name in CmdNames ==> SpacesTail(o.arg).Ok?)
    && (o.name in IterationNames ==> toInt(o.arg).Some?)
  }

  /** The text of the last option whose name is one of `names`, a reference definition of "last one wins". */
  function LastArg(opts: seq<Opt>, names: seq<string>): Option<string>
    decreases |opts|
  {
    if opts == [] then None
    else
      match LastArg(opts[1..], names)
      case Some(a) => Some(a)
      case None => if opts[0].name in names then Some(opts[0].arg) else None
  }

  /** The loop gets through all options exactly when each of them is accepted. */
  lemma {:induction false} ParseTakenIff(c: Config, opts: seq<Opt>, toInt: string -> Option<int>)
    ensures ParseFrom(c, opts, toInt).Taken? <==> forall k :: 0 <= k < |opts| ==> Accepted(opts[k], toInt)
    decreases |opts|
  {
    if opts != [] {
      assert forall k :: 1 <= k < |opts| ==> opts[k] == opts[1..][k - 1];
      match Step(c, opts[0], toInt)
      case Taken(c') =>
        ParseTakenIff(c', opts[1..], toInt);
        assert Accepted(opts[0], toInt);
      case Help =>
        assert !Accepted(opts[0], toInt);
      case Failed(_) =>
        assert !Accepted(opts[0], toInt);
    }
  }

  /**
   * When the loop gets through, every variable holds what its last option gave it (or
   * what it held before).
   */
  lemma {:induction false} ParseLastWins(c: Config, opts: seq<Opt>, toInt: string -> Option<int>)
    requires ParseFrom(c, opts, toInt).Taken?
    ensures var r := ParseFrom(c, opts, toInt).config;
            && r.cmd == (if LastArg(opts, CmdNames).Some? then LastArg(opts, CmdNames) else c.cmd)
            && (if LastArg(opts, CmdNames).Some?
                then SpacesTail(LastArg(opts, CmdNames).value).Ok? &&
                     r.tableParams == Some(SpacesTail(LastArg(opts, CmdNames).value).value)
                else r.tableParams == c.tableParams)
            && r.iterations == (if LastArg(opts, IterationNames).Some?
                                then toInt(LastArg(opts, IterationNames).value) else c.iterations)
            && r.drop == (if LastArg(opts, DropNames).Some?
                          then Some(DropFlag(LastArg(opts, DropNames).value)) else c.drop)
    decreases |opts|
  {
    if opts != [] {
      var c' := Step(c, opts[0], toInt).config;
      ParseLastWins(c', opts[1..], toInt);
    }
  }

  // ---------------------------------------------------------------------------
  // Epochs, records and batches
  // ---------------------------------------------------------------------------

  /**
   * One entry of the results file: its top-level fields (`is_best`, `current_epoch`,
   * `loss`, …), the dictionary under `results_metrics` and the one under
   * `params_details` (`None` where the entry lacks that key).
   */
  datatype Epoch = Epoch(
    fields: map<string, Value>,
    resultsMetrics: Option<map<string, Value>>,
    paramsDetails: Option<map<string, Value>>)

  function Metric(e: Epoch, key: string): Result<Value>
  {
    if e.resultsMetrics.None? then Err(KeyError("results_metrics")) else Get(e.resultsMetrics.value, key)
  }

  /** `[params_details[g] for g in groups]`; an empty list never looks at `params_details`. */
  function Params(e: Epoch, groups: seq<string>): Result<seq<Value>>
  {
    if groups == [] then Ok([])
    else if e.paramsDetails.None? then Err(KeyError("params_details"))
    else GetAll(e.paramsDetails.value, groups)
  }

  /**
   * The nine leading values of a record, evaluated left to right as the list display
   * does: the iteration, `is_best`, `current_epoch`, the five metrics `trade_count`,
   * `avg_profit`, `total_profit`, `profit`, `duration`, then `loss`.
   */
  function FixedPart(i: nat, e: Epoch): Result<seq<Value>>
  {
    var isBest :- Get(e.fields, "is_best");
    var epoch :- Get(e.fields, "current_epoch");
    var trades :- Metric(e, "trade_count");
    var avgProfit :- Metric(e, "avg_profit");
    var totalProfit :- Metric(e, "total_profit");
    var profit :- Metric(e, "profit");
    var duration :- Metric(e, "duration");
    var loss :- Get(e.fields, "loss");
    Ok([NatValue(i), isBest, epoch, trades, avgProfit, totalProfit, profit, duration, loss])
  }

  /** The record `tmp` of one epoch of iteration `i`. */
  function RecordOf(i: nat, e: Epoch, groups: seq<string>): Result<seq<Value>>
  {
    var fixed :- FixedPart(i, e);
    var params :- Params(e, groups);
    Ok(fixed + params)
  }

  /** The fields a record needs from an epoch entry. */
  predicate HasFixedFields(e: Epoch)
  {
    && "is_best" in e.fields && "current_epoch" in e.fields && "loss" in e.fields
    && e.resultsMetrics.Some?
    && forall key :: key in ["trade_count", "avg_profit", "total_profit", "profit", "duration"] ==>
         key in e.resultsMetrics.value
  }

  /**
   * A record is built exactly when the entry has the fixed fields and, unless there are
   * no groups, a `params_details` holding every group; it is then the iteration, the
   * eight fields in order and one value per group in order, 9 + |groups| values in all.
   */
  lemma RecordShape(i: nat, e: Epoch, groups: seq<string>)
    ensures RecordOf(i, e, groups).Ok? <==>
              HasFixedFields(e) &&
              (groups == [] || (e.paramsDetails.Some? &&
                                forall k :: 0 <= k < |groups| ==> groups[k] in e.paramsDetails.value))
    ensures RecordOf(i, e, groups).Ok? ==>
              var rec := RecordOf(i, e, groups).value;
              var m := e.resultsMetrics.value;
              && |rec| == 9 + |groups|
              && rec[..9] == [NatValue(i), e.fields["is_best"], e.fields["current_epoch"],
                              m["trade_count"], m["avg_profit"], m["total_profit"], m["profit"],
                              m["duration"], e.fields["loss"]]
              && forall k :: 0 <= k < |groups| ==> rec[9 + k] == e.paramsDetails.value[groups[k]]
  {
    if HasFixedFields(e) {
      assert "trade_count" in e.resultsMetrics.value;
      assert "avg_profit" in e.resultsMetrics.value;
      assert "total_profit" in e.resultsMetrics.value;
      assert "profit" in e.resultsMetrics.value;
      assert "duration" in e.resultsMetrics.value;
      assert FixedPart(i, e).Ok?;
    }
  }

  /** A record starts with its iteration number and has 9 + |groups| values. */
  lemma RecordTagged(i: nat, e: Epoch, groups: seq<string>)
    requires RecordOf(i, e, groups).Ok?
    ensures |RecordOf(i, e, groups).value| == 9 + |groups| && RecordOf(i, e, groups).value[0] == NatValue(i)
  {
    RecordShape(i, e, groups);
    var rec := RecordOf(i, e, groups).value;
    assert rec[0] == rec[..9][0];
  }

  /** The `tmp` of one epoch: the fixed part, then the `for param in insert_strut[0]` loop. */
  method BuildRecord(i: nat, e: Epoch, groups: seq<string>) returns (r: Result<seq<Value>>)
    ensures r == RecordOf(i, e, groups)
  {
    var fixed := FixedPart(i, e);
    if fixed.Err? {
      return Err(fixed.error);
    }
    var tmp := fixed.value;
    var k := 0;
    while k < |groups|
      invariant 0 <= k <= |groups|
      invariant k > 0 ==> e.paramsDetails.Some?
      invariant |tmp| == |fixed.value| + k && tmp[..|fixed.value|] == fixed.value
      invariant forall j :: 0 <= j < k ==> groups[j] in e.paramsDetails.value &&
                                           tmp[|fixed.value| + j] == e.paramsDetails.value[groups[j]]
    {
      if e.paramsDetails.None? {
        return Err(KeyError("params_details"));
      }
      var details := e.paramsDetails.value;
      if groups[k] !in details {
        GetAllFirstMissing(details, groups, k);
        return Err(KeyError(groups[k]));
      }
      tmp := tmp + [details[groups[k]]];
      k := k + 1;
    }
    if groups != [] {
      GetAllFound(e.paramsDetails.value, groups, tmp[|fixed.value|..]);
    }
    assert tmp == fixed.value + tmp[|fixed.value|..];
    r := Ok(tmp);
  }

  /**
   * `insert_strut[1]` of iteration `i`: one record per epoch in epoch order, or the
   * error of the first epoch whose record cannot be built.
   */
  function BatchOf(i: nat, epochs: seq<Epoch>, groups: seq<string>): (r: Result<seq<seq<Value>>>)
    ensures r.Ok? <==> forall k :: 0 <= k < |epochs| ==> RecordOf(i, epochs[k], groups).Ok?
    ensures r.Ok? ==> |r.value| == |epochs| &&
                      forall k :: 0 <= k < |epochs| ==> r.value[k] == RecordOf(i, epochs[k], groups).value
    ensures r.Err? ==> exists j :: 0 <= j < |epochs| && RecordOf(i, epochs[j], groups) == Err(r.error) &&
                                   forall k :: 0 <= k < j ==> RecordOf(i, epochs[k], groups).Ok?
  {
    AllOk(Attempts(i, epochs, groups))
  }

  /** The record of each epoch, or the error building it raises. */
  function Attempts(i: nat, epochs: seq<Epoch>, groups: seq<string>): (rs: seq<Result<seq<Value>>>)
    ensures |rs| == |epochs| && forall k :: 0 <= k < |epochs| ==> rs[k] == RecordOf(i, epochs[k], groups)
  {
    seq(|epochs|, k requires 0 <= k < |epochs| => RecordOf(i, epochs[k], groups))
  }

  /** The loop over `range(0, raw_data[1])` building the batch of iteration `i`. */
  method BuildBatch(i: nat, epochs: seq<Epoch>, groups: seq<string>) returns (r: Result<seq<seq<Value>>>)
    ensures r == BatchOf(i, epochs, groups)
  {
    var records: seq<seq<Value>> := [];
    var k := 0;
    while k < |epochs|
      invariant 0 <= k <= |epochs|
      invariant |records| == k
      invariant forall j :: 0 <= j < k ==> RecordOf(i, epochs[j], groups).Ok? &&
                                           records[j] == RecordOf(i, epochs[j], groups).value
    {
      var rec := BuildRecord(i, epochs[k], groups);
      if rec.Err? {
        AllOkFirstErr(Attempts(i, epochs, groups), k);
        return Err(rec.error);
      }
      records := records + [rec.value];
      k := k + 1;
    }
    AllOkValues(Attempts(i, epochs, groups), records);
    r := Ok(records);
  }

  /**
   * Every record of a batch is tagged with its iteration and holds as many values as
   * the insert names columns and the table has columns after `id`.
   */
  lemma BatchFitsTable(i: nat, epochs: seq<Epoch>, tokens: seq<string>)
    requires Expand(tokens) != [] && AddCol(Expand(tokens)).Ok?
    requires BatchOf(i, epochs, Expand(tokens)).Ok?
    ensures var groups := Expand(tokens);
            var records := BatchOf(i, epochs, groups).value;
            |records| == |epochs| &&
            forall k :: 0 <= k < |records| ==>
              && records[k][0] == NatValue(i)
              && |records[k]| == |Fields(InsertColumns(groups), ',')|
              && |records[k]| + 1 == |Fields(ColumnList(AddCol(groups).value), ',')|
  {
    var groups := Expand(tokens);
    var records := BatchOf(i, epochs, groups).value;
    var inserted := |Fields(InsertColumns(groups), ',')|;
    var defined := |Fields(ColumnList(AddCol(groups).value), ',')|;
    assert inserted == 9 + |groups| && defined == 10 + |groups| by {
      SchemaMatchesInsert(groups);
    }
    forall k | 0 <= k < |records|
      ensures |records[k]| == 9 + |groups| && records[k][0] == NatValue(i)
    {
      RecordTagged(i, epochs[k], groups);
    }
  }

  /**
   * The iteration column of every row of a batch reads back as the iteration number,
   * provided no value text holds a `"`.
   */
  lemma IterationReadBack(i: nat, e: Epoch, groups: seq<string>)
    requires forall k :: 0 <= k < |groups| ==> groups[k] in SpacesCol
    requires RecordOf(i, e, groups).Ok?
    requires forall k :: 0 <= k < |RecordOf(i, e, groups).value| ==> '"' !in Str(RecordOf(i, e, groups).value[k])
    ensures var values := ValuesOf(InsertStatement(InsertColumns(groups), RecordOf(i, e, groups).value));
            |values| == 9 + |groups| && values[0] == NatToDecimal(i) && DecimalToNat(values[0]) == i
  {
    var rec := RecordOf(i, e, groups).value;
    RecordTagged(i, e, groups);
    InsertColumnsUnquoted(groups);
    InsertValuesRoundTrip(InsertColumns(groups), rec);
    var values := ValuesOf(InsertStatement(InsertColumns(groups), rec));
    assert values[0] == NatToDecimal(i);
    DecimalRoundTrip(i);
  }

  // ---------------------------------------------------------------------------
  // The workload loop and the entry point
  // ---------------------------------------------------------------------------

  /** `insert_strut`: the header (the groups) and the records of one run. */
  datatype Batch = Batch(header: seq<string>, records: seq<seq<Value>>)

  /** How the tool ends: normally, by `sys.exit` after `-h`, or by an escaping exception. */
  datatype RunOutcome = Completed | Exited | Aborted(error: Error)

  /** The number of values of `range(0, n)`. */
  function RangeLength(n: int): nat
  {
    if n < 0 then 0 else n
  }

  /** The rows committed by a sequence of `insert_table_data` calls, the k-th under `faults(k)`. */
  function Committed(calls: seq<Batch>, faults: nat -> EngineFaults): seq<string>
    decreases |calls|
  {
    if calls == [] then []
    else
      var last := calls[|calls| - 1];
      Committed(calls[..|calls| - 1], faults) +
      (if BatchCommits(|last.records|, faults(|calls| - 1)) then InsertStatements(last.header, last.records) else [])
  }

  /** One more `insert_table_data` call adds its batch's rows exactly when that batch commits. */
  lemma CommittedSnoc(calls: seq<Batch>, b: Batch, faults: nat -> EngineFaults)
    ensures Committed(calls + [b], faults) ==
              Committed(calls, faults) +
              (if BatchCommits(|b.records|, faults(|calls|)) then InsertStatements(b.header, b.records) else [])
  {
    assert (calls + [b])[..|calls|] == calls;
  }

  /** The store's rows before the next call, plus what that call commits, are the rows after it. */
  lemma CommittedRowsStep(base: seq<string>, calls: seq<Batch>, b: Batch, faults: nat -> EngineFaults)
    ensures (base + Committed(calls, faults)) +
            (if BatchCommits(|b.records|, faults(|calls|)) then InsertStatements(b.header, b.records) else []) ==
            base + Committed(calls + [b], faults)
  {
    CommittedSnoc(calls, b, faults);
  }

  /** When no call meets a fault, every record of every batch becomes a row. */
  lemma {:induction false} CommittedAllIfNoFaults(calls: seq<Batch>, faults: nat -> EngineFaults)
    requires forall k :: 0 <= k < |calls| ==> BatchCommits(|calls[k].records|, faults(k))
    ensures |Committed(calls, faults)| == TotalRecords(calls)
    decreases |calls|
  {
    if calls != [] {
      CommittedAllIfNoFaults(calls[..|calls| - 1], faults);
    }
  }

  function TotalRecords(calls: seq<Batch>): nat
    decreases |calls|
  {
    if calls == [] then 0 else TotalRecords(calls[..|calls| - 1]) + |calls[|calls| - 1].records|
  }

  /** `later` is `earlier` followed by insert statements only. */
  predicate OnlyInsertsAdded(earlier: seq<Statement>, later: seq<Statement>)
  {
    |earlier| <= |later| && later[..|earlier|] == earlier &&
    forall k :: |earlier| <= k < |later| ==> later[k].InsertRow?
  }

  lemma OnlyInsertsAppend(start: seq<Statement>, middle: seq<Statement>, sqls: seq<string>)
    requires OnlyInsertsAdded(start, middle)
    ensures OnlyInsertsAdded(start, middle + AsInserts(sqls))
  {
    var later := middle + AsInserts(sqls);
    assert later[..|middle|] == middle;
    assert later[..|start|] == middle[..|start|];
    forall k | |start| <= k < |later| ensures later[k].InsertRow? {
      if k >= |middle| { assert later[k] == AsInserts(sqls)[k - |middle|]; }
    }
  }

  /** `calls` are the batches of iterations 0, 1, ... in order, each one built without error. */
  predicate HandedOver(calls: seq<Batch>, fetch: nat -> seq<Epoch>, groups: seq<string>)
  {
    forall k :: 0 <= k < |calls| ==>
      BatchOf(k, fetch(k), groups).Ok? && calls[k] == Batch(groups, BatchOf(k, fetch(k), groups).value)
  }

  lemma HandedOverSnoc(calls: seq<Batch>, fetch: nat -> seq<Epoch>, groups: seq<string>, b: Batch)
    requires HandedOver(calls, fetch, groups)
    requires BatchOf(|calls|, fetch(|calls|), groups).Ok?
    requires b == Batch(groups, BatchOf(|calls|, fetch(|calls|), groups).value)
    ensures HandedOver(calls + [b], fetch, groups)
  {
    var after := calls + [b];
    forall k | 0 <= k < |after|
      ensures BatchOf(k, fetch(k), groups).Ok? && after[k] == Batch(groups, BatchOf(k, fetch(k), groups).value)
    {
      if k < |calls| { assert after[k] == calls[k]; } else { assert after[k] == b; }
    }
  }

  /** Statements appended in two rounds of inserts are appended inserts. */
  lemma OnlyInsertsTrans(a: seq<Statement>, b: seq<Statement>, c: seq<Statement>)
    requires OnlyInsertsAdded(a, b) && OnlyInsertsAdded(b, c)
    ensures OnlyInsertsAdded(a, c)
  {
    assert c[..|a|] == c[..|b|][..|a|];
  }

  /**
   * One run of the loop in `hypermanager_workload`, after the external command: the
   * batch of iteration `i` built from its epochs, then handed to `insert_table_data`.
   * A batch that cannot be built raises before anything reaches the store.
   */
  method RunIteration(db: Database, i: nat, epochs: seq<Epoch>, groups: seq<string>, faults: EngineFaults)
    returns (r: Result<Batch>)
    requires db.Valid() && !db.isOpen
    modifies db
    ensures db.Valid() && !db.isOpen
    ensures r.Ok? <==> BatchOf(i, epochs, groups).Ok?
    ensures r.Ok? ==> r.value == Batch(groups, BatchOf(i, epochs, groups).value)
    ensures r.Err? ==> r.error == BatchOf(i, epochs, groups).error &&
                       db.rows == old(db.rows) && db.executed == old(db.executed)
    ensures r.Ok? ==> db.rows == old(db.rows) +
                        (if BatchCommits(|r.value.records|, faults) then InsertStatements(groups, r.value.records) else [])
    ensures db.table == old(db.table)
    ensures OnlyInsertsAdded(old(db.executed), db.executed)
  {
    var batch := BuildBatch(i, epochs, groups);
    if batch.Err? {
      assert db.executed[..|db.executed|] == db.executed;
      return Err(batch.error);
    }
    var before := db.executed;
    var _ := InsertTableData(db, groups, batch.value, faults);
    assert before[..|before|] == before;
    OnlyInsertsAppend(before, before, InsertStatements(groups, batch.value)[..IssuedCount(|batch.value|, faults)]);
    r := Ok(Batch(groups, batch.value));
  }

  /**
   * `hypermanager_workload`: expands the tokens, then for each of the `iterations` runs
   * builds the batch of that run from its epochs and hands it to `insert_table_data`.
   * `calls` lists the batches handed over, in order.
   */
  method Workload(db: Database, cmd: Option<string>, iterations: Option<int>, tableData: Option<seq<string>>,
                  fetch: nat -> seq<Epoch>, faults: nat -> EngineFaults)
    returns (r: RunOutcome, calls: seq<Batch>)
    requires db.Valid() && !db.isOpen
    modifies db
    ensures db.Valid() && !db.isOpen
    ensures r != Exited
    ensures tableData.None? ==> r == Aborted(TypeError) && calls == []
    ensures tableData.Some? && iterations.None? ==> r == Aborted(TypeError) && calls == []
    ensures tableData.Some? && iterations.Some? ==>
              var groups := Expand(tableData.value);
              && |calls| <= RangeLength(iterations.value)
              && (forall k :: 0 <= k < |calls| ==>
                    BatchOf(k, fetch(k), groups).Ok? && calls[k] == Batch(groups, BatchOf(k, fetch(k), groups).value))
              && (r == Completed <==> |calls| == RangeLength(iterations.value))
              && (r.Aborted? ==> if cmd.None? then r.error == TypeError && calls == []
                                 else BatchOf(|calls|, fetch(|calls|), groups) == Err(r.error))
    ensures db.rows == old(db.rows) + Committed(calls, faults)
    ensures db.table == old(db.table)
    ensures OnlyInsertsAdded(old(db.executed), db.executed)
  {
    calls := [];
    if tableData.None? {
      return Aborted(TypeError), calls;
    }
    var groups := Expand(tableData.value);
    if iterations.None? {
      return Aborted(TypeError), calls;
    }
    var n := RangeLength(iterations.value);
    var i := 0;
    while i < n
      invariant 0 <= i <= n
      invariant |calls| == i
      invariant HandedOver(calls, fetch, groups)
      invariant db.Valid() && !db.isOpen
      invariant db.rows == old(db.rows) + Committed(calls, faults)
      invariant db.table == old(db.table)
      invariant OnlyInsertsAdded(old(db.executed), db.executed)
      invariant cmd.None? ==> i == 0
    {
      if cmd.None? {
        // `subprocess.call(None, shell=True)` raises before the first run.
        return Aborted(TypeError), calls;
      }
      ghost var executedBefore := db.executed;
      var run := RunIteration(db, i, fetch(i), groups, faults(i));
      if run.Err? {
        return Aborted(run.error), calls;
      }
      OnlyInsertsTrans(old(db.executed), executedBefore, db.executed);
      CommittedRowsStep(old(db.rows), calls, run.value, faults);
      HandedOverSnoc(calls, fetch, groups, run.value);
      calls := calls + [run.value];
      i := i + 1;
    }
    r := Completed;
  }

  /** With the drop flag set, `create_database` gets as far as its `CREATE TABLE` statement. */
  predicate DdlIssued(c: Config, createFaults: EngineFaults)
  {
    c.drop == Some(true) && !createFaults.connectFails && c.tableParams.Some? && AddCol(Expand(c.tableParams.value)).Ok?
  }

  /** With the drop flag set, `create_database` raises the `KeyError` of an unknown group. */
  predicate GroupRejected(c: Config, createFaults: EngineFaults)
  {
    c.drop == Some(true) && !createFaults.connectFails && c.tableParams.Some? && AddCol(Expand(c.tableParams.value)).Err?
  }

  /** The `CREATE TABLE` statement for the group tokens of `c`. */
  function DdlOf(c: Config): string
    requires c.tableParams.Some? && AddCol(Expand(c.tableParams.value)).Ok?
  {
    CreateStatement(AddCol(Expand(c.tableParams.value)).value)
  }

  /**
   * `hyperopt_manager_start`: reads the options, resets the store only when the drop
   * flag is set, then runs the workload with the command, the iteration count and the
   * group tokens the options gave. An exception escaping `create_database` ends the
   * tool before the workload starts.
   */
  method HyperoptManagerStart(db: Database, opts: seq<Opt>, toInt: string -> Option<int>,
                              createFaults: EngineFaults, fetch: nat -> seq<Epoch>, faults: nat -> EngineFaults)
    returns (r: RunOutcome, calls: seq<Batch>)
    requires db.Valid() && !db.isOpen
    modifies db
    ensures db.Valid() && !db.isOpen
    ensures ParseFrom(NoOptions, opts, toInt) == Help ==> r == Exited && calls == [] && db.executed == old(db.executed)
    ensures ParseFrom(NoOptions, opts, toInt).Failed? ==>
              r == Aborted(ParseFrom(NoOptions, opts, toInt).error) && calls == [] && db.executed == old(db.executed)
    ensures ParseFrom(NoOptions, opts, toInt).Taken? && ParseFrom(NoOptions, opts, toInt).config.tableParams.None? ==>
              r == Aborted(TypeError) && calls == []
    ensures r == Completed ==>
              && ParseFrom(NoOptions, opts, toInt).Taken?
              && ParseFrom(NoOptions, opts, toInt).config.iterations.Some?
              && |calls| == RangeLength(ParseFrom(NoOptions, opts, toInt).config.iterations.value)
    ensures calls != [] ==>
              ParseFrom(NoOptions, opts, toInt).Taken? && ParseFrom(NoOptions, opts, toInt).config.tableParams.Some?
    // `-h` and a failing option end the tool before the store is touched
    ensures !ParseFrom(NoOptions, opts, toInt).Taken? ==>
              db.rows == old(db.rows) && db.table == old(db.table) && db.fileExists == old(db.fileExists)
    ensures ParseFrom(NoOptions, opts, toInt).Taken? ==> r != Exited
    // `range(0, None)` raises before the first run
    ensures ParseFrom(NoOptions, opts, toInt).Taken? ==>
              var c := ParseFrom(NoOptions, opts, toInt).config;
              c.tableParams.Some? && c.iterations.None? && !GroupRejected(c, createFaults) ==>
                r == Aborted(TypeError) && calls == []
    ensures ParseFrom(NoOptions, opts, toInt).Taken? ==>
              var c := ParseFrom(NoOptions, opts, toInt).config;
              c.tableParams.Some? && c.iterations.Some? && !GroupRejected(c, createFaults) ==>
                (r == Completed <==> |calls| == RangeLength(c.iterations.value))
    // without the drop flag the store keeps its table and gains the committed batches
    ensures ParseFrom(NoOptions, opts, toInt).Taken? && ParseFrom(NoOptions, opts, toInt).config.drop != Some(true) ==>
              && db.table == old(db.table)
              && db.rows == old(db.rows) + Committed(calls, faults)
              && OnlyInsertsAdded(old(db.executed), db.executed)
    // with it the store is reset first: its table is the one `create_database` committed, if any
    ensures ParseFrom(NoOptions, opts, toInt).Taken? && ParseFrom(NoOptions, opts, toInt).config.drop == Some(true) ==>
              var c := ParseFrom(NoOptions, opts, toInt).config;
              && db.rows == Committed(calls, faults)
              && db.table == (if DdlIssued(c, createFaults) && createFaults.failingExecute != Some(0) && !createFaults.commitFails
                              then Some(DdlOf(c)) else None)
              && OnlyInsertsAdded(old(db.executed) + (if DdlIssued(c, createFaults) then [CreateTable(DdlOf(c))] else []),
                                  db.executed)
    // an unknown group stops the tool in `create_database`, before any run
    ensures ParseFrom(NoOptions, opts, toInt).Taken? && GroupRejected(ParseFrom(NoOptions, opts, toInt).config, createFaults) ==>
              var c := ParseFrom(NoOptions, opts, toInt).config;
              r == Aborted(AddCol(Expand(c.tableParams.value)).error) && calls == []
    // the k-th call hands over the batch of iteration k, headed by the expanded groups
    ensures ParseFrom(NoOptions, opts, toInt).Taken? && ParseFrom(NoOptions, opts, toInt).config.tableParams.Some? ==>
              var g := Expand(ParseFrom(NoOptions, opts, toInt).config.tableParams.value);
              forall k :: 0 <= k < |calls| ==>
                BatchOf(k, fetch(k), g).Ok? && calls[k] == Batch(g, BatchOf(k, fetch(k), g).value)
    // a run that stops early names the error of the batch that could not be built
    ensures ParseFrom(NoOptions, opts, toInt).Taken? && r.Aborted? ==>
              var c := ParseFrom(NoOptions, opts, toInt).config;
              c.tableParams.Some? && c.iterations.Some? && c.cmd.Some? && !GroupRejected(c, createFaults) ==>
                BatchOf(|calls|, fetch(|calls|), Expand(c.tableParams.value)) == Err(r.error)
  {
    calls := [];
    var parsed := ParseOptions(opts, toInt);
    match parsed
    case Help =>
      r := Exited;
    case Failed(e) =>
      r := Aborted(e);
    case Taken(c) =>
      if c.drop == Some(true) {
        var created, _ := CreateDatabase(db, c.tableParams, createFaults);
        if created.Raised? {
          return Aborted(created.error), calls;
        }
      }
      r, calls := Workload(db, c.cmd, c.iterations, c.tableParams, fetch, faults);
  }
}
