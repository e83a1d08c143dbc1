/**
 * The two Drush commands of the database_sanitize module:
 * `db:sanitize-analyze` reports the database tables that no sanitize YML file
 * covers, and `db:sanitize-generate` builds a starter sanitize document for them.
 *
 * The collaborators are parameters: the interactive answer to the file prompt,
 * the file system's `file_exists`, and the `database_sanitize` service's
 * `getUnspecifiedTables`, whose result is taken as it comes.
 */
module SanitizeCommands {
  import opened Php

  /** The exceptions the commands throw. */
  datatype Error =
    | FileDoesNotExist(file: string)   // "File @file does not exist"
    | MachineNameMissing              // "You must specify a machine-name"

  /** The messages the commands hand to the logger. */
  datatype Message =
    | AllTablesSpecified              // "All database tables are already specified in sanitize YML files"
    | TablesNotDefined(count: nat)    // "There are @count tables not defined on sanitize YML files"
    | TableList(text: string)         // the missing table names, one per line

  datatype LogEntry = Info(message: Message) | Warning(message: Message)

  /** How a command invocation ends: it throws, or it returns (possibly nothing) after logging. */
  datatype Outcome = Threw(error: Error) | Returned(log: seq<LogEntry>, value: Option<Node>)

  datatype AnalyzeOptions = AnalyzeOptions(file: OptionValue, list: OptionValue)

  datatype GenerateOptions = GenerateOptions(file: OptionValue, machineName: OptionValue)

  /** The line separator of the table list. */
  const Newline: char := '\n'

  // ---------------------------------------------------------------------------
  // db:sanitize-analyze

  /** The file the analysis reads: the `file` option, or the answer to the prompt when the option is empty. */
  function ResolvedFile(options: AnalyzeOptions, answer: OptionValue): (file: OptionValue)
    ensures file == options.file || file == answer
    ensures Empty(file) <==> Empty(options.file) && Empty(answer)
  {
    if Empty(options.file) then answer else options.file
  }

  /**
   * `sanitizeAnalyze`: a file that does not exist throws before the service is
   * asked; no unspecified tables is reported as success; otherwise their count
   * is reported, followed by their list when the `list` option is set.
   */
  function SanitizeAnalyze(
    options: AnalyzeOptions,
    answer: OptionValue,
    fileExists: string -> bool,
    unspecifiedTables: OptionValue -> seq<string>
  ): (r: Outcome)
    ensures var file := ResolvedFile(options, answer);
      && (r.Threw? <==> !fileExists(AsString(file)))
      && (r.Threw? ==> r.error == FileDoesNotExist(AsString(file)))
    ensures r.Returned? ==> r.value == None && |r.log| >= 1
    ensures r.Returned? ==>
      var missing := unspecifiedTables(ResolvedFile(options, answer));
      && (missing == [] <==> r.log[0] == Info(AllTablesSpecified))
      && (missing != [] ==> r.log[0] == Warning(TablesNotDefined(|missing|)))
      && |r.log| == (if missing != [] && !Empty(options.list) then 2 else 1)
      && (|r.log| == 2 ==> r.log[1] == Warning(TableList(Implode(Newline, missing))))
  {
    var file := ResolvedFile(options, answer);
    if !fileExists(AsString(file)) then
      Threw(FileDoesNotExist(AsString(file)))
    else
      var missing := unspecifiedTables(file);
      if missing == [] then
        Returned([Info(AllTablesSpecified)], None)
      else
        var count := [Warning(TablesNotDefined(|missing|))];
        var list := if Empty(options.list) then [] else [Warning(TableList(Implode(Newline, missing)))];
        Returned(count + list, None)
  }

  /** A file that does not exist stops the analysis before the service is consulted: the service makes no difference. */
  lemma AnalyzeMissingFileSkipsService(
    options: AnalyzeOptions,
    answer: OptionValue,
    fileExists: string -> bool,
    service1: OptionValue -> seq<string>,
    service2: OptionValue -> seq<string>
  )
    requires !fileExists(AsString(ResolvedFile(options, answer)))
    ensures SanitizeAnalyze(options, answer, fileExists, service1) == SanitizeAnalyze(options, answer, fileExists, service2)
    ensures SanitizeAnalyze(options, answer, fileExists, service1).Threw?
  {
  }

  /** A non-empty `file` option is used as given: the answer to the prompt makes no difference. */
  lemma AnalyzeGivenFileSkipsPrompt(
    options: AnalyzeOptions,
    answer1: OptionValue,
    answer2: OptionValue,
    fileExists: string -> bool,
    service: OptionValue -> seq<string>
  )
    requires !Empty(options.file)
    ensures SanitizeAnalyze(options, answer1, fileExists, service) == SanitizeAnalyze(options, answer2, fileExists, service)
  {
  }

  /**
   * The prompt's answer takes the place of an empty `file` option: when the
   * answer is non-empty, the analysis runs as if it had been given as the option,
   * and then no further answer matters.
   */
  lemma AnalyzeAnswerActsAsFileOption(
    options: AnalyzeOptions,
    answer: OptionValue,
    laterAnswer: OptionValue,
    fileExists: string -> bool,
    service: OptionValue -> seq<string>
  )
    requires Empty(options.file) && !Empty(answer)
    ensures SanitizeAnalyze(options, answer, fileExists, service) ==
            SanitizeAnalyze(options.(file := answer), laterAnswer, fileExists, service)
  {
  }

  /**
   * With no `file` option and an answer that converts to the empty string, the
   * analysis throws for the path "", given that no file has the empty path.
   */
  lemma AnalyzeEmptyAnswerThrows(
    options: AnalyzeOptions,
    answer: OptionValue,
    fileExists: string -> bool,
    service: OptionValue -> seq<string>
  )
    requires Empty(options.file) && AsString(answer) == ""
    requires !fileExists("")
    ensures SanitizeAnalyze(options, answer, fileExists, service) == Threw(FileDoesNotExist(""))
  {
  }

  /**
   * The listed text names every unspecified table, in the service's order and
   * with repetitions, so long as no table name contains a line break.
   */
  lemma AnalyzeListNamesEveryTable(
    options: AnalyzeOptions,
    answer: OptionValue,
    fileExists: string -> bool,
    service: OptionValue -> seq<string>
  )
    requires var missing := service(ResolvedFile(options, answer));
      forall i :: 0 <= i < |missing| ==> Newline !in missing[i]
    ensures var r := SanitizeAnalyze(options, answer, fileExists, service);
      r.Returned? && |r.log| == 2 ==>
        Explode(Newline, r.log[1].message.text) == service(ResolvedFile(options, answer))
        && |Explode(Newline, r.log[1].message.text)| == r.log[0].message.count
  {
    var r := SanitizeAnalyze(options, answer, fileExists, service);
    var missing := service(ResolvedFile(options, answer));
    if r.Returned? && |r.log| == 2 {
      ExplodeImplode(Newline, missing);
    }
  }

  // ---------------------------------------------------------------------------
  // db:sanitize-generate

  /** The description of a generated entry. */
  function Description(table: string): (d: string)
    ensures |d| == 23 + |table| + 42
    ensures d[..23] == "Sanitization entry for " && d[23..23 + |table|] == table
    ensures d[23 + |table|..] == ". Generated by drush db-sanitize-generate."
  {
    "Sanitization entry for " + table + ". Generated by drush db-sanitize-generate."
  }

  /** The query of a generated entry. */
  function Query(table: string): (q: string)
    ensures |q| == 15 + |table| && q[..15] == "TRUNCATE TABLE " && q[15..] == table
  {
    "TRUNCATE TABLE " + table
  }

  /** The entry generated for one table: `['description' => …, 'query' => …]`. */
  function EntryFor(table: string): (e: Node)
    ensures e.Array? && e.keys == ["description", "query"] && e.entries.Keys == {"description", "query"}
    ensures WellFormed(e)
  {
    Array(["description", "query"], map["description" := Scalar(Description(table)), "query" := Scalar(Query(table))])
  }

  /** The position where `x` first occurs in `s`. */
  function FirstIndex(s: seq<string>, x: string): (k: nat)
    requires x in s
    ensures k < |s| && s[k] == x && x !in s[..k]
  {
    if s[0] == x then 0
    else
      assert s == [s[0]] + s[1..];
      var k := FirstIndex(s[1..], x);
      assert s[..k + 1] == [s[0]] + s[1..][..k];
      k + 1
  }

  /** A position holding `x` with no `x` before it is the first index of `x`. */
  lemma FirstIndexUnique(s: seq<string>, x: string, k: nat)
    requires k < |s| && s[k] == x && x !in s[..k]
    ensures FirstIndex(s, x) == k
  {
  }

  /** Appending an element leaves the first index of earlier elements alone and puts a new one last. */
  lemma FirstIndexAppend(init: seq<string>, y: string)
    ensures forall x :: x in init ==> FirstIndex(init + [y], x) == FirstIndex(init, x)
    ensures y !in init ==> FirstIndex(init + [y], y) == |init|
  {
    var s := init + [y];
    forall x | x in init ensures FirstIndex(s, x) == FirstIndex(init, x) {
      var k := FirstIndex(init, x);
      assert s[..k] == init[..k];
      FirstIndexUnique(s, x, k);
    }
    if y !in init {
      assert s[..|init|] == init;
      FirstIndexUnique(s, y, |init|);
    }
  }

  /**
   * The distinct elements of `s`, each once, ordered by the position where
   * each first occurs.
   */
  function FirstOccurrences(s: seq<string>): (r: seq<string>)
    ensures Distinct(r)
    ensures forall x :: x in r <==> x in s
    ensures forall i, j :: 0 <= i < j < |r| ==> FirstIndex(s, r[i]) < FirstIndex(s, r[j])
    ensures |r| <= |s|
  {
    if s == [] then []
    else
      var init := s[..|s| - 1];
      var last := s[|s| - 1];
      assert s == init + [last];
      var p := FirstOccurrences(init);
      FirstIndexAppend(init, last);
      if last in p then p else p + [last]
  }

  /** `$content['sanitize'][$machine_name]` once every table in `tables` has been written into it. */
  function TableEntries(tables: seq<string>): (r: Node)
    ensures r.Array? && WellFormed(r)
    ensures r.entries.Keys == set t | t in tables
  {
    Array(FirstOccurrences(tables), map t | t in tables :: EntryFor(t))
  }

  /** The document `sanitizeGenerate` returns for a machine name and the tables written so far. */
  function SanitizeDocument(machine: string, tables: seq<string>): (r: Node)
    ensures r.Array? && r.entries.Keys == {"sanitize"}
  {
    Wrap(machine, TableEntries(tables))
  }

  /** `['sanitize' => [$machine_name => $group]]`. */
  function Wrap(machine: string, group: Node): Node {
    Array(["sanitize"], map["sanitize" := Array([machine], map[machine := group])])
  }

  /** Writing below `sanitize` and the machine name replaces the group and nothing else. */
  lemma WrapAssign(machine: string, group: Node, group': Node)
    ensures var sanitize := Wrap(machine, group).entries["sanitize"];
      Assign(Wrap(machine, group), "sanitize", Assign(sanitize, machine, group')) == Wrap(machine, group')
  {
    assert map[machine := group][machine := group'] == map[machine := group'];
    var sanitize' := Array([machine], map[machine := group']);
    assert map["sanitize" := Array([machine], map[machine := group])]["sanitize" := sanitize'] == map["sanitize" := sanitize'];
  }

  /** The group of entries stored under `sanitize` and the machine name. */
  function Group(machine: string, tables: seq<string>): Node {
    SanitizeDocument(machine, tables).entries["sanitize"].entries[machine]
  }

  /** Writing one more table into the group is the PHP assignment `$group[$table] = entry`. */
  lemma {:induction false} TableEntriesAppend(tables: seq<string>, table: string)
    ensures TableEntries(tables + [table]) == Assign(TableEntries(tables), table, EntryFor(table))
  {
    var s := tables + [table];
    assert s[..|s| - 1] == tables;
    var m1 := map t | t in s :: EntryFor(t);
    var m2 := (map t | t in tables :: EntryFor(t))[table := EntryFor(table)];
    assert m1.Keys == m2.Keys;
    assert m1 == m2;
  }

  /** One more iteration of the loop: `$content['sanitize'][$machine_name][$table] = entry`. */
  lemma DocumentAppend(machine: string, tables: seq<string>, table: string)
    ensures var doc := SanitizeDocument(machine, tables);
      var sanitize := doc.entries["sanitize"];
      SanitizeDocument(machine, tables + [table]) ==
        Assign(doc, "sanitize", Assign(sanitize, machine, Assign(sanitize.entries[machine], table, EntryFor(table))))
  {
    TableEntriesAppend(tables, table);
    WrapAssign(machine, TableEntries(tables), TableEntries(tables + [table]));
  }

  /**
   * `sanitizeGenerate`: an empty machine name throws before the service is
   * asked; no unspecified tables is reported as success with nothing returned;
   * otherwise the document with one entry per unspecified table is returned.
   * The `file` option is handed to the service as it is, with no existence check.
   */
  method SanitizeGenerate(options: GenerateOptions, unspecifiedTables: OptionValue -> seq<string>) returns (r: Outcome)
    ensures Empty(options.machineName) ==> r == Threw(MachineNameMissing)
    ensures !Empty(options.machineName) && unspecifiedTables(options.file) == [] ==>
      r == Returned([Info(AllTablesSpecified)], None)
    ensures !Empty(options.machineName) && unspecifiedTables(options.file) != [] ==>
      r == Returned([], Some(SanitizeDocument(AsString(options.machineName), unspecifiedTables(options.file))))
  {
    var machineName := options.machineName;
    if Empty(machineName) {
      return Threw(MachineNameMissing);
    }

    var ymlFilePath := options.file;
    var missingTables := unspecifiedTables(ymlFilePath);
    if missingTables == [] {
      return Returned([Info(AllTablesSpecified)], None);
    }

    var machine := AsString(machineName);
    var content := Array(["sanitize"], map["sanitize" := Array([machine], map[machine := EmptyArray])]);
    for i := 0 to |missingTables|
      invariant content == SanitizeDocument(machine, missingTables[..i])
    {
      var table := missingTables[i];
      assert missingTables[..i + 1] == missingTables[..i] + [table];
      DocumentAppend(machine, missingTables[..i], table);
      var sanitize := content.entries["sanitize"];
      var group := Assign(sanitize.entries[machine], table, EntryFor(table));
      sanitize := Assign(sanitize, machine, group);
      content := Assign(content, "sanitize", sanitize);
    }
    assert missingTables[..|missingTables|] == missingTables;
    return Returned([], Some(content));
  }

  /** The document has the single top-level key `sanitize`, and under it the single key `machine`. */
  lemma DocumentShape(machine: string, tables: seq<string>)
    ensures var doc := SanitizeDocument(machine, tables);
      && doc.keys == ["sanitize"] && doc.entries.Keys == {"sanitize"}
      && doc.entries["sanitize"].Array?
      && doc.entries["sanitize"].keys == [machine]
      && doc.entries["sanitize"].entries.Keys == {machine}
  {
  }

  /** Every array in the document lists each of its keys exactly once. */
  lemma DocumentWellFormed(machine: string, tables: seq<string>)
    ensures WellFormed(SanitizeDocument(machine, tables))
  {
  }

  /**
   * The keys of the group are the table names, each once, in the order of
   * their first occurrence; every entry holds exactly the description and the
   * `TRUNCATE TABLE` query of its own table.
   */
  lemma GroupEntries(machine: string, tables: seq<string>)
    ensures var group := Group(machine, tables);
      && group.Array?
      && group.entries.Keys == set t | t in tables
      && group.keys == FirstOccurrences(tables)
      && forall t :: t in group.entries ==>
           group.entries[t] == Array(["description", "query"],
                                     map["description" := Scalar("Sanitization entry for " + t + ". Generated by drush db-sanitize-generate."),
                                         "query" := Scalar("TRUNCATE TABLE " + t)])
  {
  }

  /** Tables given without repetition keep their order as keys of the group. */
  lemma {:induction false} DistinctTablesKeepOrder(tables: seq<string>)
    requires Distinct(tables)
    ensures FirstOccurrences(tables) == tables
  {
    if tables != [] {
      var init := tables[..|tables| - 1];
      assert Distinct(init);
      DistinctTablesKeepOrder(init);
      assert tables[|tables| - 1] !in init;
      assert init + [tables[|tables| - 1]] == tables;
    }
  }

  /**
   * Only the set of tables matters to the entries: two lists naming the same
   * tables, in any order and with any repetitions, give the same entries and
   * the same keys.
   */
  lemma SameTablesSameEntries(machine: string, a: seq<string>, b: seq<string>)
    requires forall t :: t in a <==> t in b
    ensures Group(machine, a).entries == Group(machine, b).entries
    ensures forall t :: t in Group(machine, a).keys <==> t in Group(machine, b).keys
  {
  }

  /** The document for two tables: keys in the order given, one entry per table. */
  lemma GenerateTwoTables()
    ensures SanitizeDocument("core", ["users_log", "cache_foo"]) ==
      Wrap("core", Array(["users_log", "cache_foo"],
                         map["users_log" := EntryFor("users_log"), "cache_foo" := EntryFor("cache_foo")]))
  {
    var tables := ["users_log", "cache_foo"];
    var written := map["users_log" := EntryFor("users_log"), "cache_foo" := EntryFor("cache_foo")];
    assert TableEntries(tables) == Array(tables, written) by {
      assert FirstOccurrences(tables) == tables by {
        DistinctTablesKeepOrder(tables);
      }
      var m := map t | t in tables :: EntryFor(t);
      assert m == written by {
        assert m.Keys == written.Keys;
      }
    }
  }
}
