/** The query audit log of the baseline system (baseline/logger/logger.py): every answered
    question is appended to a JSON list and to a CSV table. The two files are modelled as
    values, rows and entries as records; the clock is a parameter. */
module AuditLogger {
  import opened Wrappers

  const GroupId: string := "Team Neural Narrators"

  /** One logged interaction, as the JSON entry stores it. */
  datatype Entry = Entry(groupId: string, timestamp: string, question: string,
                         retrieved: seq<string>, prompt: string, answer: string)

  /** A CSV cell: plain text, or the JSON serialisation of the retrieved chunk list. */
  datatype Cell = Plain(text: string) | JsonList(items: seq<string>)

  type Row = seq<Cell>

  /** The JSON file: absent, a list of entries, a JSON value that is not a list, UTF-8 text
      that is not JSON (an empty file included), or bytes that are not UTF-8 at all. */
  datatype JsonDoc = Missing | ValidList(entries: seq<Entry>) | NonList | Corrupt | NotUtf8

  /** Reading a file that is not UTF-8 raises `UnicodeDecodeError`, which `log` does not
      catch. */
  datatype LogError = UnicodeDecode

  /** A JSON file `log` can read: it exists and decodes as UTF-8. */
  predicate Readable(json: JsonDoc)
  {
    json.ValidList? || json.NonList? || json.Corrupt?
  }

  /** Both files once the logger exists. */
  datatype Files = Files(csv: seq<Row>, json: JsonDoc)

  const ColumnNames: seq<string> :=
    ["group_id", "timestamp", "question", "retrieved_chunks", "prompt", "generated_answer"]

  const HeaderRow: Row :=
    [Plain("group_id"), Plain("timestamp"), Plain("question"), Plain("retrieved_chunks"), Plain("prompt"), Plain("generated_answer")]

  /** The constructor: a header-only CSV and an empty JSON list are created for files that
      are absent; files that exist are left as they are. */
  function Init(csv: Option<seq<Row>>, json: JsonDoc): (f: Files)
    ensures f.json != Missing
  {
    Files(if csv.None? then [HeaderRow] else csv.value,
          if json.Missing? then ValidList([]) else json)
  }

  /** The entry `log` builds: the team id, the clock reading, and the arguments unchanged. */
  function MakeEntry(question: string, retrieved: seq<string>, prompt: string, answer: string, now: string): Entry
  {
    Entry(GroupId, now, question, retrieved, prompt, answer)
  }

  /** The CSV row `log` appends for an entry. */
  function EntryRow(e: Entry): (row: Row)
    ensures |row| == |ColumnNames|
  {
    [Plain(e.groupId), Plain(e.timestamp), Plain(e.question), JsonList(e.retrieved), Plain(e.prompt), Plain(e.answer)]
  }

  /** The value of the entry's field under a column name, as `entry[name]` reads it; the
      retrieved list is serialised as JSON. */
  function Field(e: Entry, name: string): Cell
    requires name in ColumnNames
  {
    if name == "group_id" then Plain(e.groupId)
    else if name == "timestamp" then Plain(e.timestamp)
    else if name == "question" then Plain(e.question)
    else if name == "retrieved_chunks" then JsonList(e.retrieved)
    else if name == "prompt" then Plain(e.prompt)
    else Plain(e.answer)
  }

  /** The JSON list after `log`: the old list with the entry appended, or the entry alone
      when the file held no list. */
  function LogJson(json: JsonDoc, e: Entry): seq<Entry>
    requires Readable(json)
  {
    if json.ValidList? then json.entries + [e] else [e]
  }

  /** Both files after one `log` call that can read the JSON file. */
  function LogStep(f: Files, e: Entry): (g: Files)
    requires Readable(f.json)
    ensures g.json.ValidList?
  {
    Files(f.csv + [EntryRow(e)], ValidList(LogJson(f.json, e)))
  }

  /** Both files after logging `es` in order. */
  function LogAll(f: Files, es: seq<Entry>): (g: Files)
    requires Readable(f.json)
    ensures Readable(g.json)
    decreases |es|
  {
    if es == [] then f else LogStep(LogAll(f, es[..|es| - 1]), es[|es| - 1])
  }

  /** The data rows the CSV should hold for `es`. */
  function Rows(es: seq<Entry>): (rows: seq<Row>)
    ensures |rows| == |es|
  {
    seq(|es|, i requires 0 <= i < |es| => EntryRow(es[i]))
  }

  /** The CSV has a header and one data row per JSON entry. */
  predicate InSync(f: Files)
  {
    f.json.ValidList? && |f.csv| == |f.json.entries| + 1
  }

  /** Columns are written in header order: the cell under each header name is that field
      of the entry. */
  lemma RowFollowsHeader(e: Entry)
    ensures |EntryRow(e)| == |HeaderRow|
    ensures forall i :: 0 <= i < |HeaderRow| ==> HeaderRow[i] == Plain(ColumnNames[i])
    ensures forall i :: 0 <= i < |ColumnNames| ==> EntryRow(e)[i] == Field(e, ColumnNames[i])
  {
  }

  /** Opening the logger a second time changes nothing: existing files are not rewritten. */
  lemma InitIdempotent(csv: Option<seq<Row>>, json: JsonDoc)
    ensures Init(Some(Init(csv, json).csv), Init(csv, json).json) == Init(csv, json)
    ensures csv.Some? ==> Init(csv, json).csv == csv.value
    ensures csv.None? ==> Init(csv, json).csv == [HeaderRow]
    ensures json != Missing ==> Init(csv, json).json == json
    ensures json == Missing ==> Init(csv, json).json == ValidList([])
  {
  }

  /** On a valid list, `log` keeps every prior entry and row and adds the new ones last. */
  lemma LogAppends(f: Files, e: Entry)
    requires f.json.ValidList?
    ensures LogStep(f, e).json.entries[..|f.json.entries|] == f.json.entries
    ensures LogStep(f, e).json.entries[|f.json.entries|] == e
    ensures |LogStep(f, e).json.entries| == |f.json.entries| + 1
    ensures LogStep(f, e).csv == f.csv + [EntryRow(e)]
  {
  }

  /** On a JSON value that is not a list, or on text that is not JSON, `log` discards every
      prior entry; the CSV keeps its rows. */
  lemma LogResets(f: Files, e: Entry)
    requires f.json == NonList || f.json == Corrupt
    ensures LogStep(f, e).json == ValidList([e])
    ensures LogStep(f, e).csv[..|f.csv|] == f.csv
  {
  }

  /** The entry carries the team id, the clock reading and the arguments unchanged. */
  lemma EntryVerbatim(question: string, retrieved: seq<string>, prompt: string, answer: string, now: string)
    ensures Field(MakeEntry(question, retrieved, prompt, answer, now), "group_id") == Plain("Team Neural Narrators")
    ensures Field(MakeEntry(question, retrieved, prompt, answer, now), "timestamp") == Plain(now)
    ensures Field(MakeEntry(question, retrieved, prompt, answer, now), "question") == Plain(question)
    ensures Field(MakeEntry(question, retrieved, prompt, answer, now), "retrieved_chunks") == JsonList(retrieved)
    ensures Field(MakeEntry(question, retrieved, prompt, answer, now), "prompt") == Plain(prompt)
    ensures Field(MakeEntry(question, retrieved, prompt, answer, now), "generated_answer") == Plain(answer)
  {
  }

  /** Without a reset, the two files stay in step. */
  lemma LogKeepsSync(f: Files, e: Entry)
    requires InSync(f)
    ensures InSync(LogStep(f, e))
  {
  }

  /** After a reset, a CSV that had data rows is out of step with the JSON list for good. */
  lemma ResetBreaksSync(f: Files, e: Entry)
    requires f.json == NonList || f.json == Corrupt
    requires |f.csv| >= 2
    ensures !InSync(LogStep(f, e))
    ensures |LogStep(f, e).csv| - 1 > |LogStep(f, e).json.entries|
  {
  }

  /** Starting from absent files, logging `es` in order gives a header followed by one row
      per entry, and the JSON list `es`, in the same order. */
  lemma {:induction false} LogAllFresh(es: seq<Entry>)
    ensures LogAll(Init(None, Missing), es) == Files([HeaderRow] + Rows(es), ValidList(es))
  {
    if es != [] {
      var front := es[..|es| - 1];
      LogAllFresh(front);
      assert Rows(es) == Rows(front) + [EntryRow(es[|es| - 1])];
      assert front + [es[|es| - 1]] == es;
    }
  }

  class Logger {
    /** The rows of queries.csv. */
    var csv: seq<Row>
    /** The contents of queries.json. */
    var json: JsonDoc

    function Contents(): Files
      reads this
    {
      Files(csv, json)
    }

    ghost predicate Valid()
      reads this
    {
      json != Missing
    }

    /** `Logger(path)`: opens, or creates, both files. */
    constructor(existingCsv: Option<seq<Row>>, existingJson: JsonDoc)
      ensures Valid()
      ensures Contents() == Init(existingCsv, existingJson)
    {
      if existingCsv.None? {
        csv := [HeaderRow];
      } else {
        csv := existingCsv.value;
      }
      if existingJson.Missing? {
        json := ValidList([]);
      } else {
        json := existingJson;
      }
    }

    /** `log`: reads the JSON list (or starts a new one when the file holds no list), appends
        the entry and rewrites the file, then appends one CSV row. `now` is the UTC clock
        reading in ISO format. A JSON file that is not UTF-8 makes the read raise before
        either file is written. */
    method Log(question: string, retrieved: seq<string>, prompt: string, answer: string, now: string)
      returns (r: Result<Entry, LogError>)
      requires Valid()
      modifies this
      ensures Valid()
      ensures r.Err? <==> old(json).NotUtf8?
      ensures r.Err? ==> r.error == UnicodeDecode && Contents() == old(Contents())
      ensures r.Ok? ==> r.value == MakeEntry(question, retrieved, prompt, answer, now)
      ensures r.Ok? ==> Contents() == LogStep(old(Contents()), r.value)
    {
      var entry := Entry(GroupId, now, question, retrieved, prompt, answer);
      if json.NotUtf8? {
        return Err(UnicodeDecode);
      }
      var data: seq<Entry>;
      if json.ValidList? {
        data := json.entries;
      } else {
        data := [];
      }
      data := data + [entry];
      json := ValidList(data);
      csv := csv + [EntryRow(entry)];
      r := Ok(entry);
    }
  }
}
