/**
 The two run stores: the map of storage.py is the specification, and the run and step
 tables of storage_db.py must answer like it after any sequence of saves and reruns.

 Timestamps and the order in which a store lists its runs are not modelled.
 */
module Storage {
  import opened Wrappers

  type Names = map<string, string>

  /** A dead letter as stored: a dictionary. */
  type Letter = map<string, string>

  /** The arguments of save_run; results hold str(value). */
  datatype SaveArgs = SaveArgs(
    workflowName: string,
    yamlDefinition: string,
    statuses: Names,
    results: Option<Names>,
    status: string,
    errors: Option<Names>,
    deadLetters: Option<seq<Letter>>,
    taskNames: Option<Names>,
    runId: Option<string>,
    versionHash: Option<string>)

  datatype Record = Record(
    runId: string,
    workflowName: string,
    yamlDefinition: string,
    status: string,
    stepStatuses: Names,
    results: Names,
    errors: Names,
    deadLetters: seq<Letter>,
    taskNames: Names,
    versionHash: Option<string>)

  type Records = map<string, Record>

  datatype Save = Save(args: SaveArgs, runId: string)

  function OrEmpty(m: Option<Names>): Names {
    if m.Some? then m.value else map[]
  }

  /** A supplied id, or the new uuid when none, or an empty one, is supplied. */
  function IdFor(args: SaveArgs, uuid: string): string {
    if args.runId.Some? && args.runId.value != "" then args.runId.value else uuid
  }

  function RecordOf(args: SaveArgs, id: string): Record {
    Record(id, args.workflowName, args.yamlDefinition, args.status, args.statuses, OrEmpty(args.results),
           OrEmpty(args.errors), if args.deadLetters.Some? then args.deadLetters.value else [],
           OrEmpty(args.taskNames), args.versionHash)
  }

  /** The record is about this run, and says what the arguments say. */
  ghost predicate RecordTells(r: Record, id: string, args: SaveArgs) {
    && r.runId == id && r.workflowName == args.workflowName && r.yamlDefinition == args.yamlDefinition
    && r.status == args.status && r.stepStatuses == args.statuses && r.versionHash == args.versionHash
    && (args.deadLetters.Some? ==> r.deadLetters == args.deadLetters.value)
    && (args.deadLetters.None? ==> r.deadLetters == [])
  }

  /** Its dictionaries are those passed in; one that was not passed in is empty. */
  ghost predicate DictionariesTell(r: Record, args: SaveArgs) {
    && (if args.results.Some? then r.results == args.results.value else r.results == map[])
    && (if args.errors.Some? then r.errors == args.errors.value else r.errors == map[])
    && (if args.taskNames.Some? then r.taskNames == args.taskNames.value else r.taskNames == map[])
  }

  /** The same for the entries of known steps that are not empty; there are no others. */
  ghost predicate TrimmedDictionariesTell(r: Record, args: SaveArgs) {
    && TrimmedTells(r.results, args.results, args.statuses)
    && TrimmedTells(r.errors, args.errors, args.statuses)
    && TrimmedTells(r.taskNames, args.taskNames, args.statuses)
  }

  ghost predicate TrimmedTells(m: Names, given: Option<Names>, statuses: Names) {
    forall k, v {:trigger (k, v) in m.Items} ::
      (k, v) in m.Items <==> given.Some? && (k, v) in given.value.Items && k in statuses && v != ""
  }

  /** What a store must remember after these saves. */
  ghost function Replay(saves: seq<Save>): Records {
    if saves == [] then map[] else
    var last := saves[|saves| - 1];
    Replay(saves[..|saves| - 1])[last.runId := RecordOf(last.args, last.runId)]
  }

  lemma ReplaySnoc(saves: seq<Save>, last: Save)
    ensures Replay(saves + [last]) == Replay(saves)[last.runId := RecordOf(last.args, last.runId)]
  {
    assert (saves + [last])[..|saves|] == saves;
  }

  lemma {:induction false} ReplayKeepsIds(saves: seq<Save>, id: string)
    requires id in Replay(saves)
    ensures Replay(saves)[id].runId == id
  {
    if saves[|saves| - 1].runId != id {
      ReplayKeepsIds(saves[..|saves| - 1], id);
    }
  }

  function Annotated(letter: Letter, runId: string): Letter {
    letter["run_id" := runId]
  }

  function AnnotatedAll(letters: seq<Letter>, runId: string): seq<Letter> {
    seq(|letters|, i requires 0 <= i < |letters| => Annotated(letters[i], runId))
  }

  /** All dead letters, run by run in the given order. */
  ghost function LettersIn(letters: map<string, seq<Letter>>, order: seq<string>): seq<Letter> {
    if order == [] then [] else
    LettersIn(letters, order[..|order| - 1]) + LettersAt(letters, order[|order| - 1])
  }

  function LettersAt(letters: map<string, seq<Letter>>, id: string): seq<Letter> {
    if id in letters then AnnotatedAll(letters[id], id) else []
  }

  ghost predicate Lists(order: seq<string>, ids: set<string>) {
    && (forall i, j :: 0 <= i < j < |order| ==> order[i] != order[j])
    && (forall id :: id in order <==> id in ids)
  }

  ghost function LettersOf(records: Records): map<string, seq<Letter>> {
    map id | id in records :: records[id].deadLetters
  }

  /** How far an iteration over a set has come. */
  ghost predicate Halfway<T(!new)>(done: set<T>, rest: set<T>, all: set<T>) {
    (forall x :: x in all <==> x in done || x in rest) && forall x :: x in done ==> x !in rest
  }

  lemma Start<T(!new)>(all: set<T>)
    ensures Halfway({}, all, all)
  {
  }

  lemma Next<T(!new)>(done: set<T>, rest: set<T>, all: set<T>, x: T)
    requires Halfway(done, rest, all) && x in rest
    ensures Halfway(done + {x}, rest - {x}, all) && x in all && x !in done
  {
  }

  lemma Finish<T(!new)>(done: set<T>, all: set<T>)
    requires Halfway(done, {}, all)
    ensures done == all
  {
  }

  // ----- The simple store -----

  class InMemoryWorkflowStorage {
    var records: Records
    ghost var saves: seq<Save>

    ghost predicate Valid()
      reads this
    {
      records == Replay(saves)
    }

    constructor ()
      ensures Valid() && saves == []
    {
      records := map[];
      saves := [];
    }

    /**
     A run saved under an id of its own keeps the id, and replaces what was saved under it
     before; otherwise the uuid is the id. No other run changes.
     */
    method SaveRun(args: SaveArgs, uuid: string) returns (id: string)
      requires Valid()
      modifies this
      ensures Valid() && saves == old(saves) + [Save(args, id)]
      ensures args.runId.Some? && args.runId.value != "" ==> id == args.runId.value
      ensures args.runId == None || args.runId == Some("") ==> id == uuid
      ensures GetRun(id).Some?
      ensures var r := GetRun(id).value; RecordTells(r, id, args) && DictionariesTell(r, args)
      ensures records.Keys == old(records.Keys) + {id}
      ensures forall other {:trigger GetRun(other)} :: other != id ==> GetRun(other) == old(GetRun(other))
    {
      hide Replay, IdFor;
      IdIs(args, uuid);
      id := IdFor(args, uuid);
      records := records[id := Record(id, args.workflowName, args.yamlDefinition, args.status, args.statuses,
                                      OrEmpty(args.results), OrEmpty(args.errors),
                                      if args.deadLetters.Some? then args.deadLetters.value else [],
                                      OrEmpty(args.taskNames), args.versionHash)];
      ReplaySnoc(saves, Save(args, id));
      saves := saves + [Save(args, id)];
    }

    function GetRun(id: string): Option<Record>
      reads this
    {
      if id in records then Some(records[id]) else None
    }

    method GetDeadLetters(id: Option<string>) returns (out: seq<Letter>, ghost order: seq<string>)
      requires Valid()
      ensures id.Some? ==> out == if id.value in records then records[id.value].deadLetters else []
      ensures id.None? ==> Lists(order, records.Keys) && out == LettersIn(LettersOf(records), order)
    {
      order := [];
      if id.Some? {
        return if id.value in records then records[id.value].deadLetters else [], [];
      }
      out := [];
      hide LettersIn, Lists, Replay, Halfway;
      NothingListed(LettersOf(records));
      var rest := records.Keys;
      ghost var done: set<string> := {};
      Start(records.Keys);
      while rest != {}
        invariant Halfway(done, rest, records.Keys)
        invariant Lists(order, done) && out == LettersIn(LettersOf(records), order)
        decreases |rest|
      {
        var next: string :| next in rest;
        Next(done, rest, records.Keys, next);
        ReplayKeepsIds(saves, next);
        LettersSnoc(LettersOf(records), order, next);
        ListsSnoc(order, done, next);
        rest := rest - {next};
        done, order := done + {next}, order + [next];
        out := out + AnnotatedAll(records[next].deadLetters, records[next].runId);
      }
      Finish(done, records.Keys);
    }
  }

  lemma NothingListed(letters: map<string, seq<Letter>>)
    ensures Lists([], {}) && LettersIn(letters, []) == []
  {
  }

  lemma LettersSnoc(letters: map<string, seq<Letter>>, order: seq<string>, next: string)
    ensures LettersIn(letters, order + [next]) == LettersIn(letters, order) + LettersAt(letters, next)
  {
    assert (order + [next])[..|order|] == order;
  }

  lemma ListsSnoc(order: seq<string>, ids: set<string>, next: string)
    requires Lists(order, ids) && next !in ids
    ensures Lists(order + [next], ids + {next})
  {
  }

  // ----- The relational store -----

  datatype RunRow = RunRow(
    workflowName: string,
    yamlDefinition: string,
    status: string,
    deadLetters: seq<Letter>,
    versionHash: Option<string>)

  datatype StepRow = StepRow(
    runId: string,
    stepId: string,
    taskName: string,
    status: string,
    result: Option<string>,
    error: Option<string>)

  function Lookup(m: Names, k: string): Option<string> {
    if k in m then Some(m[k]) else None
  }

  function RowFor(r: Record, step: string): StepRow
    requires step in r.stepStatuses
  {
    StepRow(r.runId, step, if step in r.taskNames then r.taskNames[step] else "",
            r.stepStatuses[step], Lookup(r.results, step), Lookup(r.errors, step))
  }

  function RunRowFor(r: Record): RunRow {
    RunRow(r.workflowName, r.yamlDefinition, r.status, r.deadLetters, r.versionHash)
  }

  ghost function RunRows(records: Records): map<string, RunRow> {
    map id | id in records :: RunRowFor(records[id])
  }

  lemma RunRowsUpdated(records: Records, record: Record)
    ensures RunRows(records[record.runId := record]) == RunRows(records)[record.runId := RunRowFor(record)]
    ensures RunRows(records).Keys == records.Keys
  {
  }

  /** What the tables keep of one of a record's dictionaries: entries of known steps that are not empty. */
  ghost function Kept(m: Names, statuses: Names): Names {
    map k | k in m && k in statuses && m[k] != "" :: m[k]
  }

  /** A record as the tables return it. */
  ghost function Trimmed(r: Record): Record {
    r.(results := Kept(r.results, r.stepStatuses), errors := Kept(r.errors, r.stepStatuses),
       taskNames := Kept(r.taskNames, r.stepStatuses))
  }

  lemma TrimmedRecordTells(args: SaveArgs, id: string)
    ensures var r := Trimmed(RecordOf(args, id)); RecordTells(r, id, args) && TrimmedDictionariesTell(r, args)
  {
    KeptTells(args.results, args.statuses);
    KeptTells(args.errors, args.statuses);
    KeptTells(args.taskNames, args.statuses);
  }

  /** What the tables answer after these saves. */
  ghost function Answer(saves: seq<Save>, id: string): Option<Record> {
    if id in Replay(saves) then Some(Trimmed(Replay(saves)[id])) else None
  }

  /** One more save changes the answer for its own run alone. */
  lemma AnswersAfter(saves: seq<Save>, args: SaveArgs, id: string)
    ensures var saves' := saves + [Save(args, id)];
            && Answer(saves', id).Some?
            && RecordTells(Answer(saves', id).value, id, args)
            && TrimmedDictionariesTell(Answer(saves', id).value, args)
            && forall other :: other != id ==> Answer(saves', other) == Answer(saves, other)
  {
    hide Replay, Trimmed, RecordTells, TrimmedDictionariesTell;
    ReplaySnoc(saves, Save(args, id));
    TrimmedRecordTells(args, id);
  }

  lemma TableAnswers(db: DatabaseWorkflowStorage)
    requires db.Valid()
    ensures db.runs.Keys == Replay(db.saves).Keys
    ensures forall id {:trigger db.GetRun(id)} :: db.GetRun(id) == Answer(db.saves, id)
  {
    forall id {
      TableReturnsTrimmed(db, id);
    }
  }

  lemma IdIs(args: SaveArgs, uuid: string)
    ensures args.runId.Some? && args.runId.value != "" ==> IdFor(args, uuid) == args.runId.value
    ensures args.runId == None || args.runId == Some("") ==> IdFor(args, uuid) == uuid
  {
  }

  lemma KeptTells(given: Option<Names>, statuses: Names)
    ensures TrimmedTells(Kept(OrEmpty(given), statuses), given, statuses)
  {
  }

  ghost predicate DistinctRows(rows: seq<StepRow>) {
    forall i, j {:trigger rows[i], rows[j]} :: 0 <= i < j < |rows| ==>
      (rows[i].runId, rows[i].stepId) != (rows[j].runId, rows[j].stepId)
  }

  /** The row belongs to a saved run, and says what that run's record says about its step. */
  ghost predicate RowMatches(records: Records, row: StepRow) {
    && row.runId in records && row.stepId in records[row.runId].stepStatuses
    && row == RowFor(records[row.runId], row.stepId)
  }

  /** The rows are those of the records: no orphan, none missing, none twice. */
  ghost predicate RowsMatch(records: Records, rows: seq<StepRow>) {
    && DistinctRows(rows)
    && (forall row {:trigger RowMatches(records, row)} :: row in rows ==> RowMatches(records, row))
    && (forall id, step {:trigger HasRow(records[id], rows, step)} :: id in records ==> HasRow(records[id], rows, step))
  }

  /** DELETE with cascade: the rows of one run go. */
  function Without(rows: seq<StepRow>, id: string): seq<StepRow> {
    if rows == [] then [] else
    Without(rows[..|rows| - 1], id) + if rows[|rows| - 1].runId == id then [] else [rows[|rows| - 1]]
  }

  lemma {:induction false} WithoutKeeps(rows: seq<StepRow>, id: string)
    ensures forall row :: row in Without(rows, id) <==> row in rows && row.runId != id
  {
    if rows != [] {
      WithoutKeeps(rows[..|rows| - 1], id);
      assert rows == rows[..|rows| - 1] + [rows[|rows| - 1]];
    }
  }

  lemma {:induction false} WithoutStaysDistinct(rows: seq<StepRow>, id: string)
    requires DistinctRows(rows)
    ensures DistinctRows(Without(rows, id))
  {
    if rows != [] {
      var rest, last := rows[..|rows| - 1], rows[|rows| - 1];
      WithoutStaysDistinct(rest, id);
      WithoutKeeps(rest, id);
      var kept := Without(rest, id);
      forall i | 0 <= i < |kept| ensures (kept[i].runId, kept[i].stepId) != (last.runId, last.stepId) {
        assert kept[i] in kept && kept[i] in rest;
        var j :| 0 <= j < |rest| && rest[j] == kept[i];
        assert rows[j] == kept[i] && rows[|rows| - 1] == last;
      }
    }
  }

  lemma Overwrite<V>(m: map<string, V>, k: string, v: V)
    ensures (m - {k})[k := v] == m[k := v]
  {
  }

  class DatabaseWorkflowStorage {
    var runs: map<string, RunRow>
    var steps: seq<StepRow>
    ghost var saves: seq<Save>

    ghost predicate Valid()
      reads this
    {
      && RowsMatch(Replay(saves), steps)
      && runs == RunRows(Replay(saves))
    }

    constructor ()
      ensures Valid() && saves == []
    {
      runs := map[];
      steps := [];
      saves := [];
    }

    /** session.delete(existing): the run row and, by cascade, its step rows. */
    method DeleteRun(id: string)
      modifies this
      ensures runs == old(runs) - {id} && steps == Without(old(steps), id) && saves == old(saves)
    {
      runs := runs - {id};
      var kept: seq<StepRow> := [];
      for i := 0 to |steps|
        invariant kept == Without(steps[..i], id)
      {
        assert steps[..i + 1][..i] == steps[..i];
        if steps[i].runId != id {
          kept := kept + [steps[i]];
        }
      }
      assert steps[..|steps|] == steps;
      steps := kept;
    }

    /** One step row for every status. */
    method AddStepRows(args: SaveArgs, id: string, ghost before: Records)
      requires PartlySaved(before, RecordOf(args, id), {}, steps)
      modifies this`steps
      ensures PartlySaved(before, RecordOf(args, id), args.statuses.Keys, steps)
    {
      hide PartlySaved, Halfway;
      var errors, taskNames := OrEmpty(args.errors), OrEmpty(args.taskNames);
      var rest := args.statuses.Keys;
      ghost var done: set<string> := {};
      Start(args.statuses.Keys);
      while rest != {}
        invariant Halfway(done, rest, args.statuses.Keys)
        invariant PartlySaved(before, RecordOf(args, id), done, steps)
        decreases |rest|
      {
        var step: string :| step in rest;
        Next(done, rest, args.statuses.Keys, step);
        RowAdded(before, RecordOf(args, id), done, steps, step);
        rest := rest - {step};
        done := done + {step};
        steps := steps + [StepRow(id, step, if step in taskNames then taskNames[step] else "", args.statuses[step],
                                  if args.results.Some? && step in args.results.value
                                  then Some(args.results.value[step]) else None,
                                  if step in errors then Some(errors[step]) else None)];
      }
      Finish(done, args.statuses.Keys);
    }

    /** Like the map: the old rows of the id go, the new ones come, no other run changes. */
    method SaveRun(args: SaveArgs, uuid: string) returns (id: string)
      requires Valid()
      modifies this
      ensures Valid() && saves == old(saves) + [Save(args, id)]
      ensures args.runId.Some? && args.runId.value != "" ==> id == args.runId.value
      ensures args.runId == None || args.runId == Some("") ==> id == uuid
      ensures GetRun(id).Some?
      ensures var r := GetRun(id).value; RecordTells(r, id, args) && TrimmedDictionariesTell(r, args)
      ensures runs.Keys == old(runs.Keys) + {id}
      ensures forall other {:trigger GetRun(other)} :: other != id ==> GetRun(other) == old(GetRun(other))
    {
      hide PartlySaved, RowsMatch, Replay, Without, RunRows, Kept, RecordTells, TrimmedDictionariesTell, Answer,
           StatusesIn, Texts, DistinctRows, Trimmed, IdFor, GetRun;
      IdIs(args, uuid);
      TableAnswers(this);
      id := IdFor(args, uuid);
      ghost var before, record := Replay(saves), RecordOf(args, id);
      forall r | r in before ensures before[r].runId == r {
        ReplayKeepsIds(saves, r);
      }
      RunRowsUpdated(before, record);
      AbsentOrDeleted(before, record, steps);
      Overwrite(runs, id, RunRowFor(record));
      if id in runs {
        DeleteRun(id);
      }
      runs := runs[id := RunRow(args.workflowName, args.yamlDefinition, args.status,
                                if args.deadLetters.Some? then args.deadLetters.value else [], args.versionHash)];
      AddStepRows(args, id, before);
      AllSaved(before, record, steps);
      ReplaySnoc(saves, Save(args, id));
      saves := saves + [Save(args, id)];
      AnswersAfter(old(saves), args, id);
      TableAnswers(this);
    }

    function GetRun(id: string): Option<Record>
      requires DistinctRows(steps)
      reads this
    {
      if id !in runs then None else
      var run := runs[id];
      Some(Record(
             id, run.workflowName, run.yamlDefinition, run.status,
             StatusesIn(steps, id), Texts(steps, id, ResultText), Texts(steps, id, ErrorText),
             run.deadLetters, Texts(steps, id, TaskText), run.versionHash))
    }

    method GetDeadLetters(id: Option<string>) returns (out: seq<Letter>, ghost order: seq<string>)
      ensures id.Some? ==> out == if id.value in runs then runs[id.value].deadLetters else []
      ensures id.None? ==> Lists(order, runs.Keys) && out == LettersIn(RunLetters(runs), order)
    {
      order := [];
      if id.Some? {
        return if id.value in runs then runs[id.value].deadLetters else [], [];
      }
      out := [];
      hide LettersIn, Lists, Halfway;
      NothingListed(RunLetters(runs));
      var rest := runs.Keys;
      ghost var done: set<string> := {};
      Start(runs.Keys);
      while rest != {}
        invariant Halfway(done, rest, runs.Keys)
        invariant Lists(order, done) && out == LettersIn(RunLetters(runs), order)
        decreases |rest|
      {
        var next: string :| next in rest;
        Next(done, rest, runs.Keys, next);
        LettersSnoc(RunLetters(runs), order, next);
        ListsSnoc(order, done, next);
        rest := rest - {next};
        done, order := done + {next}, order + [next];
        out := out + AnnotatedAll(runs[next].deadLetters, next);
      }
      Finish(done, runs.Keys);
    }
  }

  ghost function RunLetters(runs: map<string, RunRow>): map<string, seq<Letter>> {
    map r | r in runs :: runs[r].deadLetters
  }

  function ResultText(row: StepRow): Option<string> { row.result }

  function ErrorText(row: StepRow): Option<string> { row.error }

  function TaskText(row: StepRow): Option<string> { Some(row.taskName) }

  function StatusesIn(rows: seq<StepRow>, id: string): Names
    requires DistinctRows(rows)
  {
    map s | s in rows && s.runId == id :: s.stepId := s.status
  }

  /** One of the dictionaries of get_run: the texts of a run's rows that are neither missing nor empty. */
  function Texts(rows: seq<StepRow>, id: string, pick: StepRow -> Option<string>): Names
    requires DistinctRows(rows)
  {
    map s | s in rows && s.runId == id && Truthy(pick(s)) :: s.stepId := pick(s).value
  }

  predicate Truthy(s: Option<string>) {
    s.Some? && s.value != ""
  }

  ghost predicate RowPartlySaved(before: Records, record: Record, done: set<string>, row: StepRow) {
    if row.runId == record.runId
    then row.stepId in done && done <= record.stepStatuses.Keys && row == RowFor(record, row.stepId)
    else RowMatches(before, row)
  }

  ghost predicate HasRow(record: Record, rows: seq<StepRow>, step: string) {
    step in record.stepStatuses ==> RowFor(record, step) in rows
  }

  /** The old run's rows are gone, and of the new record these steps have their row. */
  ghost predicate PartlySaved(before: Records, record: Record, done: set<string>, rows: seq<StepRow>) {
    && done <= record.stepStatuses.Keys && DistinctRows(rows)
    && (forall row {:trigger RowPartlySaved(before, record, done, row)} ::
          row in rows ==> RowPartlySaved(before, record, done, row))
    && (forall step {:trigger HasRow(record, rows, step)} :: step in done ==> HasRow(record, rows, step))
    && (forall id, step {:trigger HasRow(before[id], rows, step)} ::
          id in before && id != record.runId ==> HasRow(before[id], rows, step))
  }

  lemma AbsentOrDeleted(before: Records, record: Record, rows: seq<StepRow>)
    requires RowsMatch(before, rows) && forall id :: id in before ==> before[id].runId == id
    ensures PartlySaved(before, record, {}, Without(rows, record.runId))
    ensures record.runId !in before ==> PartlySaved(before, record, {}, rows)
  {
    WithoutKeeps(rows, record.runId);
    WithoutStaysDistinct(rows, record.runId);
    var rest := Without(rows, record.runId);
    hide DistinctRows, Without;
    forall row | row in rest ensures RowPartlySaved(before, record, {}, row) {
      assert RowMatches(before, row);
    }
    forall id, step | id in before && id != record.runId ensures HasRow(before[id], rest, step) {
      assert HasRow(before[id], rows, step);
    }
    if record.runId !in before {
      forall row | row in rows ensures RowPartlySaved(before, record, {}, row) {
        assert RowMatches(before, row);
      }
    }
  }

  lemma RowAdded(before: Records, record: Record, done: set<string>, rows: seq<StepRow>, step: string)
    requires PartlySaved(before, record, done, rows) && step in record.stepStatuses && step !in done
    ensures PartlySaved(before, record, done + {step}, rows + [RowFor(record, step)])
  {
    var rows' := rows + [RowFor(record, step)];
    forall i | 0 <= i < |rows| ensures (rows[i].runId, rows[i].stepId) != (record.runId, step) {
      assert RowPartlySaved(before, record, done, rows[i]);
    }
    assert DistinctRows(rows');
    hide DistinctRows;
    forall row | row in rows' ensures RowPartlySaved(before, record, done + {step}, row) {
      if row in rows { assert RowPartlySaved(before, record, done, row); }
    }
    forall other | other in done + {step} ensures HasRow(record, rows', other) {
      if other in done { assert HasRow(record, rows, other); }
    }
    forall id, other | id in before && id != record.runId ensures HasRow(before[id], rows', other) {
      assert HasRow(before[id], rows, other);
    }
  }

  lemma AllSaved(before: Records, record: Record, rows: seq<StepRow>)
    requires PartlySaved(before, record, record.stepStatuses.Keys, rows)
    ensures RowsMatch(before[record.runId := record], rows)
  {
    hide DistinctRows;
    var after := before[record.runId := record];
    forall row | row in rows ensures RowMatches(after, row) {
      assert RowPartlySaved(before, record, record.stepStatuses.Keys, row);
    }
    forall id, step | id in after ensures HasRow(after[id], rows, step) {
      if id == record.runId {
        assert step in record.stepStatuses ==> HasRow(record, rows, step);
      } else {
        assert HasRow(before[id], rows, step);
      }
    }
  }

  // ----- The two stores agree -----

  /** The rows of a run give back a dictionary of its record, if that is what they were made from. */
  lemma TextsAreKept(records: Records, rows: seq<StepRow>, id: string, pick: StepRow -> Option<string>, m: Names)
    requires RowsMatch(records, rows) && id in records && records[id].runId == id
    requires forall step {:trigger RowFor(records[id], step)} :: step in records[id].stepStatuses ==>
               (Truthy(pick(RowFor(records[id], step))) <==> step in m && m[step] != "")
               && (step in m && m[step] != "" ==> pick(RowFor(records[id], step)) == Some(m[step]))
    ensures Texts(rows, id, pick) == Kept(m, records[id].stepStatuses)
  {
    var r, texts := records[id], Texts(rows, id, pick);
    forall row | row in rows && row.runId == id && Truthy(pick(row))
      ensures row.stepId in Kept(m, r.stepStatuses) && pick(row).value == m[row.stepId]
    {
      assert RowMatches(records, row);
      assert row == RowFor(r, row.stepId);
    }
    forall step | step in Kept(m, r.stepStatuses) ensures step in texts {
      assert HasRow(r, rows, step);
      assert RowFor(r, step) in rows;
    }
  }

  lemma StatusesAreKept(records: Records, rows: seq<StepRow>, id: string)
    requires RowsMatch(records, rows) && id in records && records[id].runId == id
    ensures StatusesIn(rows, id) == records[id].stepStatuses
  {
    var r, statuses := records[id], StatusesIn(rows, id);
    forall row | row in rows && row.runId == id
      ensures row.stepId in r.stepStatuses && row.status == r.stepStatuses[row.stepId]
    {
      assert RowMatches(records, row);
    }
    forall step | step in r.stepStatuses ensures step in statuses {
      assert HasRow(r, rows, step);
      assert RowFor(r, step) in rows;
    }
  }

  /** get_run: the tables return the record, without entries for unknown steps and without empty strings. */
  lemma TableReturnsTrimmed(db: DatabaseWorkflowStorage, id: string)
    requires db.Valid()
    ensures db.GetRun(id) == if id in Replay(db.saves) then Some(Trimmed(Replay(db.saves)[id])) else None
  {
    var records := Replay(db.saves);
    if id in records {
      ReplayKeepsIds(db.saves, id);
      StatusesAreKept(records, db.steps, id);
      TextsAreKept(records, db.steps, id, ResultText, records[id].results);
      TextsAreKept(records, db.steps, id, ErrorText, records[id].errors);
      TextsAreKept(records, db.steps, id, TaskText, records[id].taskNames);
    }
    hide RowsMatch, Texts, StatusesIn, Kept, Replay;
  }

  /** After the same saves, the two stores differ at most in what the tables do not keep. */
  lemma RunsAgree(mem: InMemoryWorkflowStorage, db: DatabaseWorkflowStorage, id: string)
    requires mem.Valid() && db.Valid() && mem.saves == db.saves
    ensures db.GetRun(id) == if mem.GetRun(id).Some? then Some(Trimmed(mem.GetRun(id).value)) else None
  {
    TableReturnsTrimmed(db, id);
  }

  ghost predicate KeepsAll(m: Names, statuses: Names) {
    forall k :: k in m ==> k in statuses && m[k] != ""
  }

  /** They answer identically exactly when the record has no such entries. */
  lemma RunsIdenticalIff(mem: InMemoryWorkflowStorage, db: DatabaseWorkflowStorage, id: string)
    requires mem.Valid() && db.Valid() && mem.saves == db.saves && id in mem.records
    ensures db.GetRun(id) == mem.GetRun(id) <==>
            var r := mem.records[id];
            && KeepsAll(r.results, r.stepStatuses) && KeepsAll(r.errors, r.stepStatuses)
            && KeepsAll(r.taskNames, r.stepStatuses)
  {
    hide Kept, KeepsAll, Replay, StatusesIn, Texts;
    RunsAgree(mem, db, id);
    var r := mem.records[id];
    KeptIsAll(r.results, r.stepStatuses);
    KeptIsAll(r.errors, r.stepStatuses);
    KeptIsAll(r.taskNames, r.stepStatuses);
  }

  lemma KeptIsAll(m: Names, statuses: Names)
    ensures Kept(m, statuses) == m <==> KeepsAll(m, statuses)
  {
    if Kept(m, statuses) == m {
      forall k | k in m ensures k in statuses && m[k] != "" {
        assert k in Kept(m, statuses);
      }
    }
  }

  /**
   No step row outlives its run, not even when a run id is saved again, and every row says of
   its step what was saved last under the id of its run.
   */
  lemma NoOrphans(db: DatabaseWorkflowStorage, row: StepRow)
    requires db.Valid() && row in db.steps
    ensures row.runId in db.runs && row.stepId in Replay(db.saves)[row.runId].stepStatuses
    ensures var r, step := Replay(db.saves)[row.runId], row.stepId;
            && row.status == r.stepStatuses[step]
            && (if step in r.results then row.result == Some(r.results[step]) else row.result == None)
            && (if step in r.errors then row.error == Some(r.errors[step]) else row.error == None)
            && (if step in r.taskNames then row.taskName == r.taskNames[step] else row.taskName == "")
  {
    assert RowMatches(Replay(db.saves), row);
  }

  lemma JoinSplit<T>(init: seq<T>, rest: seq<T>, here: seq<T>, last: seq<T>)
    requires multiset(init) == multiset(rest) + multiset(here)
    ensures multiset(init + last) == multiset(rest + last) + multiset(here)
  {
  }

  lemma {:induction false} LettersSplit(letters: map<string, seq<Letter>>, order: seq<string>, i: nat)
    requires i < |order|
    ensures multiset(LettersIn(letters, order)) ==
            multiset(LettersIn(letters, order[..i] + order[i + 1..])) + multiset(LettersAt(letters, order[i]))
  {
    hide LettersIn, LettersAt;
    var init, last := order[..|order| - 1], order[|order| - 1];
    assert order == init + [last];
    LettersSnoc(letters, init, last);
    if i == |order| - 1 {
      assert order[..i] + order[i + 1..] == init;
    } else {
      LettersSplit(letters, init, i);
      var rest := init[..i] + init[i + 1..];
      assert order[..i] + order[i + 1..] == rest + [last];
      LettersSnoc(letters, rest, last);
      JoinSplit(LettersIn(letters, init), LettersIn(letters, rest), LettersAt(letters, order[i]),
                LettersAt(letters, last));
    }
  }

  lemma FirstListed(order: seq<string>, ids: set<string>)
    requires Lists(order, ids)
    ensures order == [] || order[0] in ids
  {
  }

  /** The order in which the runs are listed does not matter to the multiset of letters. */
  lemma {:induction false} OrderDoesNotMatter(
    letters: map<string, seq<Letter>>, a: seq<string>, b: seq<string>, ids: set<string>)
    requires Lists(a, ids) && Lists(b, ids)
    ensures multiset(LettersIn(letters, a)) == multiset(LettersIn(letters, b))
    decreases |a|
  {
    FirstListed(b, ids);
    if a != [] {
      var init, last := a[..|a| - 1], a[|a| - 1];
      assert last in b;
      var i :| 0 <= i < |b| && b[i] == last;
      ListsWithout(a, ids, |a| - 1);
      ListsWithout(b, ids, i);
      assert a[..|a| - 1] + a[|a|..] == init;
      LettersSplit(letters, b, i);
      OrderDoesNotMatter(letters, init, b[..i] + b[i + 1..], ids - {last});
    }
  }

  lemma ListsWithout(order: seq<string>, ids: set<string>, i: nat)
    requires Lists(order, ids) && i < |order|
    ensures Lists(order[..i] + order[i + 1..], ids - {order[i]})
  {
    var rest := order[..i] + order[i + 1..];
    forall id ensures id in rest <==> id in ids - {order[i]} {
      if id in ids && id != order[i] {
        var j :| 0 <= j < |order| && order[j] == id;
        assert rest[if j < i then j else j - 1] == id;
      }
    }
  }

  /** All dead letters of both stores are the same multiset; those of one run are the same list. */
  lemma DeadLettersAgree(mem: InMemoryWorkflowStorage, db: DatabaseWorkflowStorage, a: seq<string>, b: seq<string>)
    requires mem.Valid() && db.Valid() && mem.saves == db.saves
    requires Lists(a, mem.records.Keys) && Lists(b, db.runs.Keys)
    ensures mem.records.Keys == db.runs.Keys
    ensures forall id :: id in db.runs ==> db.runs[id].deadLetters == mem.records[id].deadLetters
    ensures multiset(LettersIn(LettersOf(mem.records), a)) ==
            multiset(LettersIn(RunLetters(db.runs), b))
  {
    assert mem.records.Keys == db.runs.Keys;
    assert LettersOf(mem.records) == RunLetters(db.runs);
    OrderDoesNotMatter(LettersOf(mem.records), a, b, mem.records.Keys);
  }

  /** The letters of all runs: every letter of every listed run, with the run's id put in, and no other. */
  lemma {:induction false} LettersInIff(letters: map<string, seq<Letter>>, order: seq<string>, letter: Letter)
    ensures letter in LettersIn(letters, order) <==>
            exists id, i :: id in order && id in letters && 0 <= i < |letters[id]|
                            && letter == letters[id][i]["run_id" := id]
  {
    if order != [] {
      var init, last := order[..|order| - 1], order[|order| - 1];
      assert order == init + [last];
      LettersInIff(letters, init, letter);
      LettersSnoc(letters, init, last);
      if last in letters {
        var here := AnnotatedAll(letters[last], last);
        if letter in here {
          var i :| 0 <= i < |here| && here[i] == letter;
          assert letter == letters[last][i]["run_id" := last];
        }
        forall i | 0 <= i < |letters[last]| ensures letters[last][i]["run_id" := last] in here {
          assert here[i] == letters[last][i]["run_id" := last];
        }
      }
    }
  }

  // ----- Reruns -----

  /** Under which id a run is saved is not part of what its record says about the arguments. */
  lemma SameData(args: SaveArgs, id: string)
    ensures forall r, x {:trigger RecordTells(r, x, args)} {:trigger RecordTells(r, x, args.(runId := Some(id)))} ::
              RecordTells(r, x, args.(runId := Some(id))) <==> RecordTells(r, x, args)
  {
  }

  /**
   A rerun in both stores: what was saved first under the id is gone, the second call's data
   is there, and no run is added.
   */
  method Rerun(mem: InMemoryWorkflowStorage, db: DatabaseWorkflowStorage, first: SaveArgs, second: SaveArgs,
               uuid: string, other: string)
    returns (id: string)
    requires mem.Valid() && db.Valid() && mem.saves == db.saves && uuid != ""
    modifies mem, db
    ensures mem.Valid() && db.Valid() && mem.saves == db.saves
    ensures mem.GetRun(id).Some? && RecordTells(mem.GetRun(id).value, id, second)
    ensures db.GetRun(id).Some? && RecordTells(db.GetRun(id).value, id, second)
    ensures mem.records.Keys == old(mem.records.Keys) + {id} && db.runs.Keys == old(db.runs.Keys) + {id}
  {
    hide RecordTells, DictionariesTell, TrimmedDictionariesTell, RowsMatch, RunRows, Replay;
    id := mem.SaveRun(first, uuid);
    var tableId := db.SaveRun(first, uuid);
    var rerun := second.(runId := Some(id));
    SameData(second, id);
    var again := mem.SaveRun(rerun, other);
    var tableAgain := db.SaveRun(rerun, other);
    assert tableId == again == tableAgain == id;
  }
}
