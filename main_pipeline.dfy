/**
 * main.py: the aggregate variant. A chunk's record holds only the stripped
 * reply, the records of all documents are gathered into one table, and a
 * single CSV is written for the whole folder.
 */
module MainPipeline {
  import opened Optional
  import opened Seqs
  import opened Strings
  import Paths
  import opened Sanitizer
  import opened Chunker
  import opened Metadata
  import opened Outputs
  import IndivPipeline

  /** The chunk size `process_document` passes to the chunker. */
  const ChunkSize := 500
  /** The one table `main` writes, inside the document folder. */
  const ReportsFile := "xr_usage_reports.csv"

  /** One row of the aggregate table: the four keys of main.py's records. */
  datatype Record = Record(author: string, year: string, report: string, fileName: string)

  /**
   * `search_xr_usage(chunk)` given the API's reply (`None` for an
   * `OpenAIError`): the stripped reply, or `None` when that is empty.
   */
  function SearchXrUsage(reply: Option<string>): (report: Option<string>)
    ensures report.None? <==> reply.None? || AllSpace(reply.value)
    ensures report.Some? ==> report.value != "" && !IsSpace(report.value[0]) && !IsSpace(report.value[|report.value| - 1])
    ensures report.Some? ==> report.value == Strip(reply.value) && Strip(report.value) == report.value
  {
    match reply
    case None => None
    case Some(content) =>
      StripEmpty(content);
      StripIdempotent(content);
      var result := Strip(content);
      if result == "" then None else Some(result)
  }

  /** The record a chunk yields: one when its report is not `None`. */
  function ChunkRecords(author: string, year: string, fileName: string,
                        oracle: string -> Option<string>, chunk: string): seq<Record>
  {
    match SearchXrUsage(oracle(chunk))
    case None => []
    case Some(report) => [Record(author, year, report, fileName)]
  }

  function TagFn(author: string, year: string, fileName: string,
                 oracle: string -> Option<string>): string -> seq<Record>
  {
    chunk => ChunkRecords(author, year, fileName, oracle, chunk)
  }

  /** The records of a sequence of chunks, in chunk order. */
  function TaggedRecords(author: string, year: string, fileName: string,
                         oracle: string -> Option<string>, chunks: seq<string>): seq<Record>
  {
    FlatMap(chunks, TagFn(author, year, fileName, oracle))
  }

  /** The records `process_document` returns for a document of this content and basename. */
  function DocumentRecords(content: string, fileName: string, oracle: string -> Option<string>): seq<Record>
  {
    var authorYear := ExtractAuthorYear(fileName);
    TaggedRecords(authorYear.0, authorYear.1, fileName, oracle, SplitIntoChunks(content, ChunkSize))
  }

  lemma TaggedRecordsSnoc(author: string, year: string, fileName: string,
                          oracle: string -> Option<string>, chunks: seq<string>, i: nat)
    requires i < |chunks|
    ensures TaggedRecords(author, year, fileName, oracle, chunks[..i + 1])
      == TaggedRecords(author, year, fileName, oracle, chunks[..i]) + ChunkRecords(author, year, fileName, oracle, chunks[i])
  {
    assert chunks[..i + 1] == chunks[..i] + [chunks[i]];
    FlatMapSnoc(chunks[..i], chunks[i], TagFn(author, year, fileName, oracle));
  }

  /**
   * `process_document(document_path)`. Reading a path that `fs` does not
   * hold raises `FileNotFoundError`, modelled as `None`.
   */
  method ProcessDocument(fs: map<string, string>, documentPath: string, oracle: string -> Option<string>)
    returns (records: Option<seq<Record>>)
    ensures records == if documentPath in fs
      then Some(DocumentRecords(fs[documentPath], Paths.Basename(documentPath), oracle))
      else None
  {
    if documentPath !in fs {
      return None;
    }
    var content := fs[documentPath];
    var chunks := SplitIntoChunks(content, ChunkSize);
    var fileName := Paths.Basename(documentPath);
    var authorYear := ExtractAuthorYear(fileName);
    var author, year := authorYear.0, authorYear.1;
    var rows: seq<Record> := [];
    for i := 0 to |chunks|
      invariant rows == TaggedRecords(author, year, fileName, oracle, chunks[..i])
    {
      var report := SearchXrUsage(oracle(chunks[i]));
      if report.Some? {
        rows := rows + [Record(author, year, report.value, fileName)];
      }
      TaggedRecordsSnoc(author, year, fileName, oracle, chunks, i);
    }
    assert chunks[..|chunks|] == chunks;
    return Some(rows);
  }

  /** What one listing entry adds to `all_reports`. */
  function EntryRecords(folder: string, fs: map<string, string>, oracle: string -> Option<string>,
                        filename: string): seq<Record>
  {
    var sanitized := Sanitize(filename);
    if !EndsWith(sanitized, ".txt") then []
    else
      var documentPath := Paths.Join(folder, sanitized);
      if documentPath !in fs then []
      else DocumentRecords(fs[documentPath], Paths.Basename(documentPath), oracle)
  }

  function EntryFn(folder: string, fs: map<string, string>, oracle: string -> Option<string>)
    : string -> seq<Record>
  {
    filename => EntryRecords(folder, fs, oracle, filename)
  }

  /** `all_reports` after the listing loop: every entry's records, in listing order. */
  function AllReports(folder: string, fs: map<string, string>, oracle: string -> Option<string>,
                      listing: seq<string>): seq<Record>
  {
    FlatMap(listing, EntryFn(folder, fs, oracle))
  }

  /** The CSV a run writes, if any. */
  function RunOutput(env: Option<string>, listing: seq<string>, fs: map<string, string>,
                     oracle: string -> Option<string>): Option<CsvFile<Record>>
  {
    match DocumentFolder(env)
    case None => None
    case Some(folder) =>
      var all := AllReports(folder, fs, oracle, listing);
      if all == [] then None else Some(CsvFile(Paths.Join(folder, ReportsFile), all))
  }

  lemma AllReportsSnoc(folder: string, fs: map<string, string>, oracle: string -> Option<string>,
                       listing: seq<string>, i: nat)
    requires i < |listing|
    ensures AllReports(folder, fs, oracle, listing[..i + 1])
      == AllReports(folder, fs, oracle, listing[..i]) + EntryRecords(folder, fs, oracle, listing[i])
  {
    assert listing[..i + 1] == listing[..i] + [listing[i]];
    FlatMapSnoc(listing[..i], listing[i], EntryFn(folder, fs, oracle));
  }

  /**
   * `main()` of main.py. The listing stands for `os.listdir`, `fs` for the
   * files that can be opened, and the result for the one CSV written, if
   * any: exactly one when some record was gathered, in the folder itself.
   */
  method Run(env: Option<string>, listing: seq<string>, fs: map<string, string>,
             oracle: string -> Option<string>) returns (output: Option<CsvFile<Record>>)
    ensures output == RunOutput(env, listing, fs, oracle)
    ensures output.Some? <==> DocumentFolder(env).Some? && AllReports(DocumentFolder(env).value, fs, oracle, listing) != []
    ensures output.Some? ==> output.value.path == Paths.Join(env.value, ReportsFile) && output.value.rows != []
  {
    if env.None? || env.value == "" {
      return None;
    }
    var folder := env.value;
    var allReports: seq<Record> := [];
    for i := 0 to |listing|
      invariant allReports == AllReports(folder, fs, oracle, listing[..i])
    {
      var sanitized := Sanitize(listing[i]);
      if EndsWith(sanitized, ".txt") {
        var documentPath := Paths.Join(folder, sanitized);
        var records := ProcessDocument(fs, documentPath, oracle);
        if records.Some? {
          allReports := allReports + records.value;
        }
      }
      AllReportsSnoc(folder, fs, oracle, listing, i);
    }
    assert listing[..|listing|] == listing;
    if allReports == [] {
      return None;
    }
    output := Some(CsvFile(Paths.Join(folder, ReportsFile), allReports));
  }

  // ---------------------------------------------------------------------
  // Properties of process_document
  // ---------------------------------------------------------------------

  /** A chunk yields at most one record, and yields one exactly when the API answers with more than whitespace. */
  lemma ChunkYieldsRecord(author: string, year: string, fileName: string,
                          oracle: string -> Option<string>, chunk: string)
    ensures |ChunkRecords(author, year, fileName, oracle, chunk)| <= 1
    ensures ChunkRecords(author, year, fileName, oracle, chunk) != []
      <==> oracle(chunk).Some? && !AllSpace(oracle(chunk).value)
  {
  }

  /** Records follow chunk order, as they do in indiv.py, through `TaggedAgreesWithIndiv`. */
  lemma TaggedRecordsConcat(author: string, year: string, fileName: string,
                            oracle: string -> Option<string>, first: seq<string>, second: seq<string>)
    ensures TaggedRecords(author, year, fileName, oracle, first + second)
      == TaggedRecords(author, year, fileName, oracle, first) + TaggedRecords(author, year, fileName, oracle, second)
  {
    TaggedAgreesWithIndiv(author, year, fileName, oracle, first + second);
    TaggedAgreesWithIndiv(author, year, fileName, oracle, first);
    TaggedAgreesWithIndiv(author, year, fileName, oracle, second);
    IndivPipeline.TaggedRecordsConcat(author, year, fileName, oracle, first, second);
    ProjectConcat(IndivPipeline.TaggedRecords(author, year, fileName, oracle, first),
                  IndivPipeline.TaggedRecords(author, year, fileName, oracle, second));
  }

  /**
   * Every record carries the document's author, year and file name, and
   * its report is the stripped, non-empty reply to one of the chunks.
   */
  lemma TaggedRecordsMember(author: string, year: string, fileName: string,
                            oracle: string -> Option<string>, chunks: seq<string>, r: Record)
    requires r in TaggedRecords(author, year, fileName, oracle, chunks)
    ensures r.author == author && r.year == year && r.fileName == fileName && r.report != ""
    ensures exists i :: 0 <= i < |chunks| && oracle(chunks[i]).Some? && r.report == Strip(oracle(chunks[i]).value)
  {
    FlatMapMember(chunks, TagFn(author, year, fileName, oracle), r);
    var i :| 0 <= i < |chunks| && r in TagFn(author, year, fileName, oracle)(chunks[i]);
    assert r in ChunkRecords(author, year, fileName, oracle, chunks[i]);
  }

  /**
   * There are at most as many records as chunks, and none exactly when no
   * chunk got a reply with more than whitespace; main.py keeps one row for
   * each of indiv.py's rows, so this is indiv.py's count.
   */
  lemma TaggedRecordsCount(author: string, year: string, fileName: string,
                           oracle: string -> Option<string>, chunks: seq<string>)
    ensures |TaggedRecords(author, year, fileName, oracle, chunks)| <= |chunks|
    ensures TaggedRecords(author, year, fileName, oracle, chunks) == []
      <==> forall i :: 0 <= i < |chunks| ==> oracle(chunks[i]).None? || AllSpace(oracle(chunks[i]).value)
  {
    TaggedAgreesWithIndiv(author, year, fileName, oracle, chunks);
    IndivPipeline.TaggedRecordsCount(author, year, fileName, oracle, chunks);
  }

  /** The four-key record main.py keeps of indiv.py's six-key one. */
  function Project(rows: seq<IndivPipeline.Record>): (projected: seq<Record>)
    ensures |projected| == |rows|
  {
    seq(|rows|, i requires 0 <= i < |rows| => Record(rows[i].author, rows[i].year, rows[i].report, rows[i].fileName))
  }

  lemma ProjectConcat(a: seq<IndivPipeline.Record>, b: seq<IndivPipeline.Record>)
    ensures Project(a + b) == Project(a) + Project(b)
  {
  }

  /** For one chunk, the two scripts agree on whether there is a record and on its report. */
  lemma ChunkAgreesWithIndiv(author: string, year: string, fileName: string,
                             oracle: string -> Option<string>, chunk: string)
    ensures ChunkRecords(author, year, fileName, oracle, chunk)
      == Project(IndivPipeline.ChunkRecords(author, year, fileName, oracle, chunk))
  {
    if oracle(chunk).Some? {
      IndivPipeline.AnalyzeReportEmpty(oracle(chunk).value);
    }
  }

  /**
   * Given the same replies, main.py keeps exactly the records indiv.py
   * keeps, in the same order, with the same author, year, report and file
   * name; only the two name lists are dropped.
   */
  lemma {:induction false} TaggedAgreesWithIndiv(author: string, year: string, fileName: string,
                                                oracle: string -> Option<string>, chunks: seq<string>)
    ensures TaggedRecords(author, year, fileName, oracle, chunks)
      == Project(IndivPipeline.TaggedRecords(author, year, fileName, oracle, chunks))
  {
    if chunks != [] {
      TaggedAgreesWithIndiv(author, year, fileName, oracle, chunks[1..]);
      ChunkAgreesWithIndiv(author, year, fileName, oracle, chunks[0]);
      assert IndivPipeline.TaggedRecords(author, year, fileName, oracle, chunks)
        == IndivPipeline.ChunkRecords(author, year, fileName, oracle, chunks[0])
          + IndivPipeline.TaggedRecords(author, year, fileName, oracle, chunks[1..]);
      assert TaggedRecords(author, year, fileName, oracle, chunks)
        == ChunkRecords(author, year, fileName, oracle, chunks[0]) + TaggedRecords(author, year, fileName, oracle, chunks[1..]);
      ProjectConcat(IndivPipeline.ChunkRecords(author, year, fileName, oracle, chunks[0]),
                    IndivPipeline.TaggedRecords(author, year, fileName, oracle, chunks[1..]));
    }
  }

  lemma DocumentAgreesWithIndiv(content: string, fileName: string, oracle: string -> Option<string>)
    ensures DocumentRecords(content, fileName, oracle) == Project(IndivPipeline.DocumentRecords(content, fileName, oracle))
  {
    var authorYear := ExtractAuthorYear(fileName);
    TaggedAgreesWithIndiv(authorYear.0, authorYear.1, fileName, oracle, SplitIntoChunks(content, ChunkSize));
  }

  // ---------------------------------------------------------------------
  // Properties of main
  // ---------------------------------------------------------------------

  /**
   * What one listing entry contributes: the records of the file at the
   * sanitized path, named by the sanitized name, when that name ends in
   * ".txt" and the file exists; nothing otherwise, and the loop goes on.
   */
  lemma EntryRecordsSpec(folder: string, fs: map<string, string>, oracle: string -> Option<string>,
                         filename: string)
    ensures var s := Sanitize(filename);
      var path := Paths.Join(folder, s);
      EntryRecords(folder, fs, oracle, filename)
        == if EndsWith(s, ".txt") && path in fs then DocumentRecords(fs[path], s, oracle) else []
  {
    SanitizedHasNoSeparator(filename);
    Paths.BasenameOfJoin(folder, Sanitize(filename));
  }

  /** `all_reports` follows listing order: the reports of a concatenated listing are concatenated. */
  lemma AllReportsConcat(folder: string, fs: map<string, string>, oracle: string -> Option<string>,
                         first: seq<string>, second: seq<string>)
    ensures AllReports(folder, fs, oracle, first + second)
      == AllReports(folder, fs, oracle, first) + AllReports(folder, fs, oracle, second)
  {
    FlatMapConcat(first, second, EntryFn(folder, fs, oracle));
  }

  /**
   * Every gathered row names a listed document by its sanitized ".txt"
   * name, and that document exists at the sanitized path.
   */
  lemma AllReportsMember(folder: string, fs: map<string, string>, oracle: string -> Option<string>,
                         listing: seq<string>, r: Record)
    requires r in AllReports(folder, fs, oracle, listing)
    ensures exists i :: 0 <= i < |listing| && r.fileName == Sanitize(listing[i])
    ensures IsClean(r.fileName) && EndsWith(r.fileName, ".txt") && Paths.Join(folder, r.fileName) in fs
    ensures r.report != "" && (r.author, r.year) == ExtractAuthorYear(r.fileName)
  {
    FlatMapMember(listing, EntryFn(folder, fs, oracle), r);
    var i :| 0 <= i < |listing| && r in EntryFn(folder, fs, oracle)(listing[i]);
    EntryRecordsSpec(folder, fs, oracle, listing[i]);
    var s := Sanitize(listing[i]);
    var path := Paths.Join(folder, s);
    assert r in DocumentRecords(fs[path], s, oracle);
    var authorYear := ExtractAuthorYear(s);
    TaggedRecordsMember(authorYear.0, authorYear.1, s, oracle, SplitIntoChunks(fs[path], ChunkSize), r);
  }

  /**
   * Two listed names with the same sanitized name both read the one file at
   * that name, so its rows are gathered twice.
   */
  lemma SameSanitizedNameReadTwice(folder: string, fs: map<string, string>, oracle: string -> Option<string>,
                                   a: string, b: string)
    requires Sanitize(a) == Sanitize(b)
    ensures AllReports(folder, fs, oracle, [a, b])
      == EntryRecords(folder, fs, oracle, b) + EntryRecords(folder, fs, oracle, b)
  {
    var f := EntryFn(folder, fs, oracle);
    assert [a, b] == [a] + [b];
    FlatMapConcat([a], [b], f);
    FlatMapSingleton(a, f);
    FlatMapSingleton(b, f);
  }

  /** When every API call fails, a document yields no record. */
  lemma DocumentRecordsFailingOracle(content: string, fileName: string, oracle: string -> Option<string>)
    requires forall chunk :: oracle(chunk).None?
    ensures DocumentRecords(content, fileName, oracle) == []
  {
    var authorYear := ExtractAuthorYear(fileName);
    var chunks := SplitIntoChunks(content, ChunkSize);
    var f := TagFn(authorYear.0, authorYear.1, fileName, oracle);
    forall i | 0 <= i < |chunks| ensures f(chunks[i]) == [] {
      assert oracle(chunks[i]).None?;
    }
    FlatMapEmpty(chunks, f);
  }

  /** When every API call fails, an entry contributes nothing. */
  lemma EntryRecordsFailingOracle(folder: string, fs: map<string, string>, oracle: string -> Option<string>,
                                  filename: string)
    requires forall chunk :: oracle(chunk).None?
    ensures EntryRecords(folder, fs, oracle, filename) == []
  {
    var s := Sanitize(filename);
    var path := Paths.Join(folder, s);
    EntryRecordsSpec(folder, fs, oracle, filename);
    if EndsWith(s, ".txt") && path in fs {
      DocumentRecordsFailingOracle(fs[path], s, oracle);
    }
  }

  /** Without a folder, or when every API call fails, no table is written. */
  lemma NothingWritten(env: Option<string>, listing: seq<string>, fs: map<string, string>,
                       oracle: string -> Option<string>)
    requires DocumentFolder(env).None? || forall chunk :: oracle(chunk).None?
    ensures RunOutput(env, listing, fs, oracle).None?
  {
    if DocumentFolder(env).Some? {
      var folder := DocumentFolder(env).value;
      forall i | 0 <= i < |listing| ensures EntryFn(folder, fs, oracle)(listing[i]) == [] {
        EntryRecordsFailingOracle(folder, fs, oracle, listing[i]);
      }
      FlatMapEmpty(listing, EntryFn(folder, fs, oracle));
    }
  }

  lemma OneChunk(content: string)
    requires 1 <= |Words(content)| <= ChunkSize
    ensures |SplitIntoChunks(content, ChunkSize)| == 1
  {
    ChunkCount(content, ChunkSize);
    var n := |Words(content)|;
    DivUnique(n + ChunkSize - 1, ChunkSize, 1, n - 1);
  }

  /** A document of at most 500 words is one chunk, so it yields at most one record. */
  lemma SingleChunkDocument(content: string, fileName: string, oracle: string -> Option<string>)
    requires 1 <= |Words(content)| <= ChunkSize
    ensures var authorYear := ExtractAuthorYear(fileName);
      DocumentRecords(content, fileName, oracle)
        == ChunkRecords(authorYear.0, authorYear.1, fileName, oracle, SplitIntoChunks(content, ChunkSize)[0])
  {
    var authorYear := ExtractAuthorYear(fileName);
    OneChunk(content);
    var chunks := SplitIntoChunks(content, ChunkSize);
    assert chunks[1..] == [];
    assert TaggedRecords(authorYear.0, authorYear.1, fileName, oracle, chunks)
      == ChunkRecords(authorYear.0, authorYear.1, fileName, oracle, chunks[0])
        + TaggedRecords(authorYear.0, authorYear.1, fileName, oracle, chunks[1..]);
  }

  /** The one clean ".txt" file of a folder, of at most 500 words, with an API that always answers `reply`, gives one row. */
  lemma SingleDocumentEntry(folder: string, name: string, content: string,
                            oracle: string -> Option<string>, reply: string)
    requires IsClean(name) && EndsWith(name, ".txt")
    requires 1 <= |Words(content)| <= ChunkSize
    requires forall chunk :: oracle(chunk) == Some(reply)
    requires !AllSpace(reply)
    ensures var authorYear := ExtractAuthorYear(name);
      EntryRecords(folder, map[Paths.Join(folder, name) := content], oracle, name)
        == [Record(authorYear.0, authorYear.1, Strip(reply), name)]
  {
    var fs := map[Paths.Join(folder, name) := content];
    SanitizeFixedPoint(name);
    EntryRecordsSpec(folder, fs, oracle, name);
    SingleChunkDocument(content, name, oracle);
  }

  /**
   * End to end for one document: a folder holding one clean ".txt" file of
   * at most 500 words, and an API that always answers `reply`, give one
   * table in that folder with one row: the name's author and year, the
   * stripped reply and the file name.
   */
  lemma SingleDocumentFolder(folder: string, name: string, content: string,
                             oracle: string -> Option<string>, reply: string)
    requires folder != "" && IsClean(name) && EndsWith(name, ".txt")
    requires 1 <= |Words(content)| <= ChunkSize
    requires forall chunk :: oracle(chunk) == Some(reply)
    requires !AllSpace(reply)
    ensures var authorYear := ExtractAuthorYear(name);
      RunOutput(Some(folder), [name], map[Paths.Join(folder, name) := content], oracle)
        == Some(CsvFile(Paths.Join(folder, ReportsFile), [Record(authorYear.0, authorYear.1, Strip(reply), name)]))
  {
    var fs := map[Paths.Join(folder, name) := content];
    var authorYear := ExtractAuthorYear(name);
    var row := Record(authorYear.0, authorYear.1, Strip(reply), name);
    SingleDocumentEntry(folder, name, content, oracle, reply);
    FlatMapSingleton(name, EntryFn(folder, fs, oracle));
    assert AllReports(folder, fs, oracle, [name]) == [row];
    assert DocumentFolder(Some(folder)) == Some(folder);
  }
}
